/**
 What the learning background scanner remembers: the access points of one network in list order, each with
 its frequency and the other access points seen together with it.
 */
module BgscanModel {
  import opened Seqs
  import opened Macs
  import opened Text

  type Ssid = seq<Byte>

  datatype Bss = Bss(bssid: Mac, freq: Int32, neigh: seq<Mac>)

  /** A scan result; `ssid` is None when it carries no SSID element. */
  datatype Res = Res(bssid: Mac, freq: Int32, ssid: Option<Ssid>)

  const MAX_BSS := 50

  function Position(list: seq<Bss>, b: Mac): (k: nat)
    ensures k <= |list|
    ensures k < |list| ==> list[k].bssid == b
    ensures forall i :: 0 <= i < k ==> list[i].bssid != b
  {
    if list == [] || list[0].bssid == b then 0 else 1 + Position(list[1..], b)
  }

  function AddNeighbor(e: Bss, b: Mac): Bss {
    if e.bssid == b || b in e.neigh then e else e.(neigh := e.neigh + [b])
  }

  function AddNeighbors(e: Bss, ids: seq<Mac>): Bss {
    if ids == [] then e else AddNeighbor(AddNeighbors(e, ids[..|ids| - 1]), ids[|ids| - 1])
  }

  /** Update the frequency of an access point, or enter it at the head of the list. */
  function Entered(list: seq<Bss>, r: Res): seq<Bss> {
    var k := Position(list, r.bssid);
    if k < |list| then list[k := list[k].(freq := r.freq)] else [Bss(r.bssid, r.freq, [])] + list
  }

  /** One matching result: the access point meets all in `ids`. */
  function Learned(list: seq<Bss>, ids: seq<Mac>, r: Res): seq<Bss> {
    var es := Entered(list, r);
    var k := Position(es, r.bssid);
    if k < |es| then es[k := AddNeighbors(es[k], ids)] else es
  }

  function LearnedAll(list: seq<Bss>, ids: seq<Mac>, rs: seq<Res>): seq<Bss> {
    if rs == [] then list else Learned(LearnedAll(list, ids, rs[..|rs| - 1]), ids, rs[|rs| - 1])
  }

  /** The results of this network. */
  function Matching(rs: seq<Res>, ssid: Ssid): seq<Res> {
    if rs == [] then []
    else
      var front := Matching(rs[..|rs| - 1], ssid);
      if rs[|rs| - 1].ssid == Some(ssid) then front + [rs[|rs| - 1]] else front
  }

  function Bssids(rs: seq<Res>): (r: seq<Mac>)
    ensures |r| == |rs| && forall i :: 0 <= i < |rs| ==> r[i] == rs[i].bssid
  {
    seq(|rs|, i requires 0 <= i < |rs| => rs[i].bssid)
  }

  /** Only the first 50 BSSIDs are remembered while a scan is processed. */
  function FirstIds(rs: seq<Res>): seq<Mac> {
    if |rs| <= MAX_BSS then Bssids(rs) else Bssids(rs[..MAX_BSS])
  }

  function Notified(list: seq<Bss>, rs: seq<Res>, ssid: Ssid): seq<Bss> {
    var ms := Matching(rs, ssid);
    LearnedAll(list, FirstIds(ms), ms)
  }

  // ---- The neighbour relation ----

  ghost predicate Known(list: seq<Bss>, b: Mac) {
    exists i :: 0 <= i < |list| && list[i].bssid == b
  }

  function Neighbors(list: seq<Bss>, a: Mac): set<Mac> {
    var k := Position(list, a);
    if k < |list| then Elems(list[k].neigh) else {}
  }

  function FreqOf(list: seq<Bss>, a: Mac): Option<Int32> {
    var k := Position(list, a);
    if k < |list| then Some(list[k].freq) else None
  }

  /** The frequency in the last result for an access point. */
  function LastFreq(rs: seq<Res>, a: Mac): Option<Int32> {
    if rs == [] then None
    else if rs[|rs| - 1].bssid == a then Some(rs[|rs| - 1].freq)
    else LastFreq(rs[..|rs| - 1], a)
  }

  /** Every access point has one entry, and an entry lists each neighbour once and never itself. */
  ghost predicate WellFormed(list: seq<Bss>) {
    Unique(list) && Clean(list)
  }

  ghost predicate Unique(list: seq<Bss>) {
    forall i, j :: 0 <= i < j < |list| ==> list[i].bssid != list[j].bssid
  }

  ghost predicate Clean(list: seq<Bss>) {
    forall i :: 0 <= i < |list| ==> NoDup(list[i].neigh) && list[i].bssid !in list[i].neigh
  }

  ghost predicate Symmetric(list: seq<Bss>) {
    forall a, b :: b in Neighbors(list, a) ==> a in Neighbors(list, b)
  }

  // ---- One entry ----

  lemma {:induction false} NeighborsAdded(e: Bss, ids: seq<Mac>)
    requires NoDup(e.neigh) && e.bssid !in e.neigh
    ensures var e' := AddNeighbors(e, ids);
            && e'.bssid == e.bssid && e'.freq == e.freq
            && NoDup(e'.neigh) && e'.bssid !in e'.neigh
            && Elems(e'.neigh) == Elems(e.neigh) + (Elems(ids) - {e.bssid})
  {
    if ids != [] {
      var front, b := ids[..|ids| - 1], ids[|ids| - 1];
      NeighborsAdded(e, front);
      assert Elems(ids) == Elems(front) + {b};
      var f := AddNeighbors(e, front);
      if f.bssid != b && b !in f.neigh {
        NoDupAppend(f.neigh, b);
        assert Elems(f.neigh + [b]) == Elems(f.neigh) + {b};
      }
    }
  }

  // ---- One result ----

  lemma PositionIs(list: seq<Bss>, b: Mac, k: int)
    requires WellFormed(list) && 0 <= k < |list| && list[k].bssid == b
    ensures Position(list, b) == k
  {
    var k' := Position(list, b);
    if k' < k { } else if k < k' { }
  }

  lemma KnownPosition(list: seq<Bss>, b: Mac)
    ensures Known(list, b) <==> Position(list, b) < |list|
  {
  }

  lemma HeadOrTail(e: Bss, list: seq<Bss>, a: Mac)
    ensures Position([e] + list, a) == if e.bssid == a then 0 else 1 + Position(list, a)
  {
    assert ([e] + list)[1..] == list;
  }

  lemma EnteredEffect(list: seq<Bss>, r: Res, a: Mac)
    requires WellFormed(list)
    ensures WellFormed(Entered(list, r))
    ensures Known(Entered(list, r), a) <==> Known(list, a) || a == r.bssid
    ensures Neighbors(Entered(list, r), a) == Neighbors(list, a)
    ensures FreqOf(Entered(list, r), a) == if a == r.bssid then Some(r.freq) else FreqOf(list, a)
  {
    var es := Entered(list, r);
    var k := Position(list, r.bssid);
    KnownPosition(list, a);
    KnownPosition(es, a);
    if k < |list| {
      SetKeeps(list, k, list[k].(freq := r.freq), a);
    } else {
      HeadOrTail(Bss(r.bssid, r.freq, []), list, a);
      HeadWellFormed(Bss(r.bssid, r.freq, []), list);
    }
    hide WellFormed, Known, NoDup;
  }

  lemma HeadWellFormed(e: Bss, list: seq<Bss>)
    requires WellFormed(list) && Position(list, e.bssid) == |list| && e.neigh == []
    ensures WellFormed([e] + list)
  {
    hide Unique, Clean, Position;
    HeadUnique(e, list);
    HeadClean(e, list);
  }

  lemma HeadUnique(e: Bss, list: seq<Bss>)
    requires Unique(list) && forall i :: 0 <= i < |list| ==> list[i].bssid != e.bssid
    ensures Unique([e] + list)
  {
  }

  lemma HeadClean(e: Bss, list: seq<Bss>)
    requires Clean(list) && e.neigh == []
    ensures Clean([e] + list)
  {
    assert NoDup(e.neigh);
    hide NoDup;
  }

  /** Replacing an entry by one with the same BSSID leaves every position as it was. */
  lemma SetKeeps(list: seq<Bss>, k: int, e: Bss, a: Mac)
    requires WellFormed(list) && 0 <= k < |list| && e.bssid == list[k].bssid
    requires NoDup(e.neigh) && e.bssid !in e.neigh
    ensures WellFormed(list[k := e]) && Position(list[k := e], a) == Position(list, a)
  {
    var s := list[k := e];
    assert forall i :: 0 <= i < |s| ==> s[i].bssid == list[i].bssid;
    var i := Position(list, a);
    if i < |list| {
      PositionIs(s, a, i);
    }
  }

  lemma LearnedEffect(list: seq<Bss>, ids: seq<Mac>, r: Res, a: Mac)
    requires WellFormed(list)
    ensures WellFormed(Learned(list, ids, r))
    ensures Known(Learned(list, ids, r), a) <==> Known(list, a) || a == r.bssid
    ensures Neighbors(Learned(list, ids, r), a) == Neighbors(list, a) + if a == r.bssid then Elems(ids) - {a} else {}
    ensures FreqOf(Learned(list, ids, r), a) == if a == r.bssid then Some(r.freq) else FreqOf(list, a)
  {
    EnteredEffect(list, r, a);
    EnteredEffect(list, r, r.bssid);
    var es := Entered(list, r);
    var k := Position(es, r.bssid);
    KnownPosition(es, r.bssid);
    KnownPosition(es, a);
    NeighborsAdded(es[k], ids);
    SetKeeps(es, k, AddNeighbors(es[k], ids), a);
    KnownPosition(Learned(list, ids, r), a);
    if a == r.bssid {
      PositionIs(es, a, k);
    }
  }

  // ---- One scan ----

  ghost predicate Seen(rs: seq<Res>, a: Mac) {
    exists i :: 0 <= i < |rs| && rs[i].bssid == a
  }

  lemma {:induction false} LearnedAllEffect(list: seq<Bss>, ids: seq<Mac>, rs: seq<Res>, a: Mac)
    requires WellFormed(list)
    ensures var list' := LearnedAll(list, ids, rs);
            && WellFormed(list')
            && (Known(list', a) <==> Known(list, a) || Seen(rs, a))
            && Neighbors(list', a) == Neighbors(list, a) + (if Seen(rs, a) then Elems(ids) - {a} else {})
            && FreqOf(list', a) == if Seen(rs, a) then LastFreq(rs, a) else FreqOf(list, a)
  {
    hide WellFormed, Known, Seen, Neighbors, Learned, FreqOf, Elems;
    if rs == [] {
      NoneSeen(a);
    } else {
      var front, r := rs[..|rs| - 1], rs[|rs| - 1];
      LearnedAllEffect(list, ids, front, a);
      LearnedEffect(LearnedAll(list, ids, front), ids, r, a);
      SeenLast(rs, a);
      var n, more := Neighbors(list, a), Elems(ids) - {a};
      assert n + more + more == n + more && n + {} == n;
    }
  }

  lemma NoneSeen(a: Mac)
    ensures !Seen([], a)
  {
  }

  lemma SeenLast(rs: seq<Res>, a: Mac)
    requires rs != []
    ensures Seen(rs, a) <==> Seen(rs[..|rs| - 1], a) || rs[|rs| - 1].bssid == a
  {
    var front := rs[..|rs| - 1];
    if Seen(front, a) {
      var i :| 0 <= i < |front| && front[i].bssid == a;
      assert rs[i].bssid == a;
    }
    if Seen(rs, a) {
      var i :| 0 <= i < |rs| && rs[i].bssid == a;
      assert i < |front| ==> front[i].bssid == a;
    }
  }

  /**
   After a scan everyone seen has the first fifty as neighbours, besides those it had, and the frequency of
   the last result for it; nobody loses a neighbour.
   */
  lemma NotifiedEffect(list: seq<Bss>, rs: seq<Res>, ssid: Ssid, a: Mac)
    requires WellFormed(list)
    ensures var list', ms := Notified(list, rs, ssid), Matching(rs, ssid);
            && WellFormed(list')
            && (Known(list', a) <==> Known(list, a) || Seen(ms, a))
            && Neighbors(list', a) == Neighbors(list, a) + (if Seen(ms, a) then Elems(FirstIds(ms)) - {a} else {})
            && FreqOf(list', a) == if Seen(ms, a) then LastFreq(ms, a) else FreqOf(list, a)
  {
    LearnedAllEffect(list, FirstIds(Matching(rs, ssid)), Matching(rs, ssid), a);
  }

  lemma FirstIdsSeen(ms: seq<Res>, a: Mac)
    ensures a in FirstIds(ms) ==> Seen(ms, a)
    ensures |ms| <= MAX_BSS ==> (a in FirstIds(ms) <==> Seen(ms, a))
  {
    if a in FirstIds(ms) {
      var i :| 0 <= i < |FirstIds(ms)| && FirstIds(ms)[i] == a;
      assert ms[i].bssid == a;
    }
    if |ms| <= MAX_BSS && Seen(ms, a) {
      var i :| 0 <= i < |ms| && ms[i].bssid == a;
      assert FirstIds(ms)[i] == a;
    }
  }

  /** Access points beyond the first fifty are already neighbours of all of those. */
  ghost predicate OverflowMet(list: seq<Bss>, ms: seq<Res>) {
    forall m, i :: Seen(ms, m) && m !in FirstIds(ms) && i in FirstIds(ms) ==> m in Neighbors(list, i)
  }

  /** A scan keeps the relation symmetric exactly when that is so. */
  lemma SymmetricExactly(list: seq<Bss>, rs: seq<Res>, ssid: Ssid)
    requires WellFormed(list) && Symmetric(list)
    ensures Symmetric(Notified(list, rs, ssid)) <==> OverflowMet(list, Matching(rs, ssid))
  {
    var list', ms := Notified(list, rs, ssid), Matching(rs, ssid);
    hide Notified, Neighbors, Seen, FirstIds, WellFormed, Known, FreqOf, LastFreq, Matching;
    forall a
      ensures Neighbors(list', a) == Neighbors(list, a) + if Seen(ms, a) then Elems(FirstIds(ms)) - {a} else {}
      ensures a in FirstIds(ms) ==> Seen(ms, a)
    {
      NotifiedEffect(list, rs, ssid, a);
      FirstIdsSeen(ms, a);
    }
    if OverflowMet(list, ms) {
      forall a, b | b in Neighbors(list', a) ensures a in Neighbors(list', b) {
        if b !in Neighbors(list, a) {
          assert Seen(ms, a) && b in FirstIds(ms) && b != a;
        }
      }
    }
    if Symmetric(list') {
      forall m, i | Seen(ms, m) && m !in FirstIds(ms) && i in FirstIds(ms) ensures m in Neighbors(list, i) {
        assert i in Neighbors(list', m);
        assert m in Neighbors(list', i);
      }
    }
  }

  /** And it can break: the last of 51 access points in a first scan has neighbours that do not have it. */
  lemma SymmetryBreaksExample(ssid: Ssid) returns (rs: seq<Res>)
    ensures Symmetric([]) && !Symmetric(Notified([], rs, ssid))
  {
    rs := seq(MAX_BSS + 1, i requires 0 <= i < MAX_BSS + 1 => Res([2, 0, 0, 0, 0, i as Byte], 2412, Some(ssid)));
    AllMatch(rs, ssid);
    var first, last := rs[0].bssid, rs[MAX_BSS].bssid;
    var ids := FirstIds(rs);
    assert ids[0] == first && first[5] == 0 && last[5] as int == MAX_BSS;
    assert last !in ids by {
      assert forall i :: 0 <= i < MAX_BSS ==> ids[i] == rs[i].bssid && ids[i][5] as int == i;
    }
    assert rs[MAX_BSS] in rs;
    assert Seen(rs, last) && Neighbors([], first) == {};
    SymmetricExactly([], rs, ssid);
    hide Notified, Seen, FirstIds, Neighbors, Symmetric;
  }

  lemma {:induction false} AllMatch(rs: seq<Res>, ssid: Ssid)
    requires forall i :: 0 <= i < |rs| ==> rs[i].ssid == Some(ssid)
    ensures Matching(rs, ssid) == rs
  {
    if rs != [] {
      AllMatch(rs[..|rs| - 1], ssid);
    }
  }

  /** Everything a run keeps. */
  ghost predicate Invariant(list: seq<Bss>) {
    && WellFormed(list) && Symmetric(list)
    && forall a, b :: b in Neighbors(list, a) ==> b != a && Known(list, b)
  }

  lemma NotifiedInvariant(list: seq<Bss>, rs: seq<Res>, ssid: Ssid)
    requires Invariant(list) && |Matching(rs, ssid)| <= MAX_BSS
    ensures Invariant(Notified(list, rs, ssid))
    ensures forall a :: Neighbors(list, a) <= Neighbors(Notified(list, rs, ssid), a)
  {
    var list', ms := Notified(list, rs, ssid), Matching(rs, ssid);
    hide Notified, Neighbors, Seen, FirstIds, WellFormed, Known, Symmetric, LastFreq, FreqOf;
    forall a
      ensures Known(list', a) <==> Known(list, a) || Seen(ms, a)
      ensures Neighbors(list', a) == Neighbors(list, a) + if Seen(ms, a) then Elems(FirstIds(ms)) - {a} else {}
      ensures a in FirstIds(ms) <==> Seen(ms, a)
    {
      NotifiedEffect(list, rs, ssid, a);
      FirstIdsSeen(ms, a);
    }
    assert OverflowMet(list, ms);
    SymmetricExactly(list, rs, ssid);
    assert WellFormed(list') by { NotifiedEffect(list, rs, ssid, [0, 0, 0, 0, 0, 0]); }
    forall a, b | b in Neighbors(list', a) ensures b != a && Known(list', b) {
      if b in Neighbors(list, a) {
        assert Known(list, b);
      } else {
        assert b in FirstIds(ms);
        assert Seen(ms, b);
      }
    }
  }

  /** The list after some scans. */
  function AfterScans(start: seq<Bss>, scans: seq<seq<Res>>, ssid: Ssid): seq<Bss> {
    if scans == [] then start else Notified(AfterScans(start, scans[..|scans| - 1], ssid), scans[|scans| - 1], ssid)
  }

  ghost predicate AtMostFifty(scans: seq<seq<Res>>, ssid: Ssid) {
    forall i :: 0 <= i < |scans| ==> |Matching(scans[i], ssid)| <= MAX_BSS
  }

  /** Over every run of scans with at most fifty results of this network each, the relation stays in order. */
  lemma {:induction false} RunInvariant(start: seq<Bss>, scans: seq<seq<Res>>, ssid: Ssid)
    requires Invariant(start) && AtMostFifty(scans, ssid)
    ensures Invariant(AfterScans(start, scans, ssid))
  {
    hide Invariant, Notified;
    if scans != [] {
      RunInvariant(start, scans[..|scans| - 1], ssid);
      NotifiedInvariant(AfterScans(start, scans[..|scans| - 1], ssid), scans[|scans| - 1], ssid);
    }
  }

  /** Entries stay well formed whatever the number of results. */
  lemma {:induction false} RunWellFormed(start: seq<Bss>, scans: seq<seq<Res>>, ssid: Ssid)
    requires WellFormed(start)
    ensures WellFormed(AfterScans(start, scans, ssid))
  {
    hide WellFormed, Notified;
    if scans != [] {
      RunWellFormed(start, scans[..|scans| - 1], ssid);
      NotifiedEffect(AfterScans(start, scans[..|scans| - 1], ssid), scans[|scans| - 1], ssid, [0, 0, 0, 0, 0, 0]);
    }
  }

  lemma NothingLearned()
    ensures WellFormed([]) && Invariant([])
  {
  }
}

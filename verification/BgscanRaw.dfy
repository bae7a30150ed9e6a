/**
 What a scan teaches, in terms of the raw results: which of them count, who becomes a neighbour of whom, and whose
 frequency is kept. The results of this network are picked out by place, not by the filter that the learner runs.
 */
module BgscanRaw {
  import opened Seqs
  import opened Macs
  import opened Text
  import opened BgscanModel

  /** Result `i` is of this network. */
  predicate Ours(rs: seq<Res>, ssid: Ssid, i: int) {
    0 <= i < |rs| && rs[i].ssid.Some? && rs[i].ssid.value == ssid
  }

  /** How many of the first `n` results are of this network. */
  function Count(rs: seq<Res>, ssid: Ssid, n: nat): nat {
    if n == 0 then 0 else Count(rs, ssid, n - 1) + if Ours(rs, ssid, n - 1) then 1 else 0
  }

  /** An access point of this network was seen. */
  ghost predicate Heard(rs: seq<Res>, ssid: Ssid, a: Mac) {
    exists i :: Ours(rs, ssid, i) && rs[i].bssid == a
  }

  /** And it is in one of the first fifty results of this network. */
  ghost predicate HeardEarly(rs: seq<Res>, ssid: Ssid, b: Mac) {
    exists i :: Ours(rs, ssid, i) && rs[i].bssid == b && Count(rs, ssid, i) < 50
  }

  /** Result `i` is the last one for the access point. */
  ghost predicate LastFor(rs: seq<Res>, ssid: Ssid, a: Mac, i: int) {
    && Ours(rs, ssid, i) && rs[i].bssid == a
    && forall j :: i < j && Ours(rs, ssid, j) ==> rs[j].bssid != a
  }

  lemma {:induction false} CountFront(rs: seq<Res>, ssid: Ssid, n: nat)
    requires n < |rs|
    ensures Count(rs, ssid, n) == Count(rs[..|rs| - 1], ssid, n)
  {
    if n > 0 {
      CountFront(rs, ssid, n - 1);
      assert rs[n - 1] == rs[..|rs| - 1][n - 1];
    }
  }

  lemma {:induction false} MatchingCount(rs: seq<Res>, ssid: Ssid)
    ensures |Matching(rs, ssid)| == Count(rs, ssid, |rs|)
  {
    if rs != [] {
      MatchingCount(rs[..|rs| - 1], ssid);
      CountFront(rs, ssid, |rs| - 1);
    }
  }

  /** A result of this network stands among the matching ones at the number of those before it. */
  lemma {:induction false} OursAt(rs: seq<Res>, ssid: Ssid, i: nat)
    requires Ours(rs, ssid, i)
    ensures Count(rs, ssid, i) < |Matching(rs, ssid)| && Matching(rs, ssid)[Count(rs, ssid, i)] == rs[i]
  {
    var front := rs[..|rs| - 1];
    CountFront(rs, ssid, i);
    if i < |front| {
      assert front[i] == rs[i];
      OursAt(front, ssid, i);
    } else {
      MatchingCount(front, ssid);
    }
  }

  /** And every matching one is such a result. */
  lemma {:induction false} AtOurs(rs: seq<Res>, ssid: Ssid, k: nat) returns (i: nat)
    requires k < |Matching(rs, ssid)|
    ensures Ours(rs, ssid, i) && Count(rs, ssid, i) == k && rs[i] == Matching(rs, ssid)[k]
  {
    var front := rs[..|rs| - 1];
    if k < |Matching(front, ssid)| {
      i := AtOurs(front, ssid, k);
      assert front[i] == rs[i];
    } else {
      i := |rs| - 1;
      MatchingCount(front, ssid);
    }
    CountFront(rs, ssid, i);
  }

  lemma HeardIsSeen(rs: seq<Res>, ssid: Ssid, a: Mac)
    ensures Heard(rs, ssid, a) <==> Seen(Matching(rs, ssid), a)
    ensures HeardEarly(rs, ssid, a) <==> a in FirstIds(Matching(rs, ssid))
  {
    var ms := Matching(rs, ssid);
    var ids := FirstIds(ms);
    assert |ids| == if |ms| <= 50 then |ms| else 50;
    assert forall k :: 0 <= k < |ids| ==> ids[k] == ms[k].bssid;
    hide Matching, FirstIds, Count, Ours;
    if i :| Ours(rs, ssid, i) && rs[i].bssid == a {
      OursAt(rs, ssid, i);
    }
    if i :| Ours(rs, ssid, i) && rs[i].bssid == a && Count(rs, ssid, i) < 50 {
      OursAt(rs, ssid, i);
      assert ids[Count(rs, ssid, i)] == a;
    }
    if k :| 0 <= k < |ms| && ms[k].bssid == a {
      var i := AtOurs(rs, ssid, k);
    }
    if k :| 0 <= k < |ids| && ids[k] == a {
      var i := AtOurs(rs, ssid, k);
    }
  }

  lemma {:induction false} LastIsFreq(rs: seq<Res>, ssid: Ssid, a: Mac, i: nat)
    requires LastFor(rs, ssid, a, i)
    ensures LastFreq(Matching(rs, ssid), a) == Some(rs[i].freq)
  {
    var front := rs[..|rs| - 1];
    if i < |front| {
      assert front[i] == rs[i] && forall j :: 0 <= j < |front| ==> front[j] == rs[j];
      LastIsFreq(front, ssid, a, i);
      assert Ours(rs, ssid, |rs| - 1) ==> rs[|rs| - 1].bssid != a;
    }
  }

  /**
   A scan makes known exactly the access points of this network that are in it. Each of them gets those in the first
   fifty results of this network as neighbours, besides those it had, and the frequency of its last result; everything
   about any other access point stays.
   */
  lemma LearnedExactly(list: seq<Bss>, rs: seq<Res>, ssid: Ssid, a: Mac)
    requires WellFormed(list)
    ensures var list' := Notified(list, rs, ssid);
            && (Known(list', a) <==> Known(list, a) || Heard(rs, ssid, a))
            && (forall b :: b in Neighbors(list', a) <==>
                  b in Neighbors(list, a) || (Heard(rs, ssid, a) && HeardEarly(rs, ssid, b) && b != a))
            && (forall i :: LastFor(rs, ssid, a, i) ==> FreqOf(list', a) == Some(rs[i].freq))
            && (!Heard(rs, ssid, a) ==> FreqOf(list', a) == FreqOf(list, a))
  {
    NotifiedEffect(list, rs, ssid, a);
    hide Notified, Neighbors, Matching, FirstIds, Known, Seen, Heard, HeardEarly, LastFor, FreqOf, LastFreq, WellFormed;
    HeardIsSeen(rs, ssid, a);
    forall b ensures HeardEarly(rs, ssid, b) <==> b in FirstIds(Matching(rs, ssid)) {
      HeardIsSeen(rs, ssid, b);
    }
    forall i | LastFor(rs, ssid, a, i) ensures FreqOf(Notified(list, rs, ssid), a) == Some(rs[i].freq) {
      LastForIsHeard(rs, ssid, a, i);
      LastIsFreq(rs, ssid, a, i);
    }
  }

  lemma LastForIsHeard(rs: seq<Res>, ssid: Ssid, a: Mac, i: int)
    requires LastFor(rs, ssid, a, i)
    ensures 0 <= i && Heard(rs, ssid, a)
  {
  }

  /** An access point that was heard has a last result. */
  lemma {:induction false} LastExists(rs: seq<Res>, ssid: Ssid, a: Mac) returns (i: nat)
    requires Heard(rs, ssid, a)
    ensures LastFor(rs, ssid, a, i)
  {
    var front, last := rs[..|rs| - 1], |rs| - 1;
    if Ours(rs, ssid, last) && rs[last].bssid == a {
      i := last;
    } else {
      var k :| Ours(rs, ssid, k) && rs[k].bssid == a;
      assert front[k] == rs[k];
      assert Ours(front, ssid, k);
      i := LastExists(front, ssid, a);
      assert forall j :: 0 <= j < |front| ==> front[j] == rs[j];
    }
  }

  /** Without a result of another network, or without an SSID, the scan teaches the same. */
  lemma OthersAreSkipped(list: seq<Bss>, before: seq<Res>, r: Res, after: seq<Res>, ssid: Ssid)
    requires r.ssid.None? || r.ssid.value != ssid
    ensures Notified(list, before + [r] + after, ssid) == Notified(list, before + after, ssid)
  {
    MatchingAppend(before + [r], after, ssid);
    MatchingAppend(before, [r], ssid);
    MatchingAppend(before, after, ssid);
    assert [r][..0] == [];
    assert Matching([r], ssid) == [];
    assert Matching(before, ssid) + [] == Matching(before, ssid);
  }

  lemma {:induction false} MatchingAppend(s: seq<Res>, t: seq<Res>, ssid: Ssid)
    ensures Matching(s + t, ssid) == Matching(s, ssid) + Matching(t, ssid)
  {
    if t == [] {
      assert s + t == s;
    } else {
      assert (s + t)[..|s + t| - 1] == s + t[..|t| - 1];
      MatchingAppend(s, t[..|t| - 1], ssid);
    }
  }

  // ---- Order ----

  /** The entries of `list` stand at the end of `list'`, in their order, with their neighbours and perhaps more behind those. */
  ghost predicate GrownInFront(list: seq<Bss>, list': seq<Bss>) {
    && |list| <= |list'|
    && forall k :: 0 <= k < |list| ==> Grown(list[k], list'[|list'| - |list| + k])
  }

  predicate Grown(e: Bss, e': Bss) {
    e'.bssid == e.bssid && |e.neigh| <= |e'.neigh| && e'.neigh[..|e.neigh|] == e.neigh
  }

  lemma GrownTransitive(e: Bss, e': Bss, e'': Bss)
    requires Grown(e, e') && Grown(e', e'')
    ensures Grown(e, e'')
  {
    assert e''.neigh[..|e'.neigh|][..|e.neigh|] == e''.neigh[..|e.neigh|];
  }

  lemma {:induction false} NeighborsGrow(e: Bss, ids: seq<Mac>)
    ensures Grown(e, AddNeighbors(e, ids))
  {
    if ids != [] {
      NeighborsGrow(e, ids[..|ids| - 1]);
    }
  }

  lemma EnteredGrows(list: seq<Bss>, r: Res)
    ensures GrownInFront(list, Entered(list, r)) && Position(Entered(list, r), r.bssid) < |Entered(list, r)|
  {
    var es := Entered(list, r);
    var k := Position(list, r.bssid);
    assert es[if k < |list| then k else 0].bssid == r.bssid;
  }

  lemma SetGrows(list: seq<Bss>, es: seq<Bss>, k: nat, e: Bss)
    requires GrownInFront(list, es) && k < |es| && Grown(es[k], e)
    ensures GrownInFront(list, es[k := e])
  {
    hide Grown;
    forall i | 0 <= i < |list| ensures Grown(list[i], es[k := e][|es| - |list| + i]) {
      if |es| - |list| + i == k {
        GrownTransitive(list[i], es[k], e);
      }
    }
  }

  lemma LearnedGrows(list: seq<Bss>, ids: seq<Mac>, r: Res)
    ensures GrownInFront(list, Learned(list, ids, r))
  {
    hide Entered, AddNeighbors, Position, Grown, GrownInFront;
    var es := Entered(list, r);
    var k := Position(es, r.bssid);
    EnteredGrows(list, r);
    NeighborsGrow(es[k], ids);
    SetGrows(list, es, k, AddNeighbors(es[k], ids));
  }

  lemma {:induction false} LearnedAllGrows(list: seq<Bss>, ids: seq<Mac>, rs: seq<Res>)
    ensures GrownInFront(list, LearnedAll(list, ids, rs))
  {
    hide Learned, Grown;
    if rs == [] {
      forall k | 0 <= k < |list| ensures Grown(list[k], list[k]) {
        SelfGrown(list[k]);
      }
    } else {
      var mid := LearnedAll(list, ids, rs[..|rs| - 1]);
      var after := Learned(mid, ids, rs[|rs| - 1]);
      LearnedAllGrows(list, ids, rs[..|rs| - 1]);
      LearnedGrows(mid, ids, rs[|rs| - 1]);
      forall k | 0 <= k < |list| ensures Grown(list[k], after[|after| - |list| + k]) {
        GrownTransitive(list[k], mid[|mid| - |list| + k], after[|after| - |mid| + (|mid| - |list| + k)]);
      }
    }
  }

  lemma SelfGrown(e: Bss)
    ensures Grown(e, e)
  {
  }

  /** A scan puts what it enters in front of the list, and what it adds to an entry behind the neighbours it had. */
  lemma ScanGrows(list: seq<Bss>, rs: seq<Res>, ssid: Ssid)
    ensures GrownInFront(list, Notified(list, rs, ssid))
  {
    hide GrownInFront, FirstIds;
    LearnedAllGrows(list, FirstIds(Matching(rs, ssid)), Matching(rs, ssid));
  }
}

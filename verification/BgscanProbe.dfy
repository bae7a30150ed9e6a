/**
 Round-robin probing of frequencies on which the network has not been seen yet, and why no supported
 frequency waits longer than one round trip.
 */
module BgscanProbe {
  import opened Seqs

  /** What a reader of a zero-terminated array sees of a buffer. */
  function Visible(a: seq<int>): seq<int> {
    if a == [] || a[0] == 0 then [] else [a[0]] + Visible(a[1..])
  }

  lemma {:induction false} VisibleAll(a: seq<int>)
    ensures 0 !in a ==> Visible(a) == a
    ensures 0 !in Visible(a)
  {
    if a != [] && a[0] != 0 {
      VisibleAll(a[1..]);
    }
  }

  lemma {:induction false} VisibleAppend(a: seq<int>, f: int)
    ensures Visible(a + [f]) == if 0 in a || f == 0 then Visible(a) else a + [f]
  {
    if a == [] {
      assert a + [f] == [f];
    } else if a[0] != 0 {
      assert (a + [f])[1..] == a[1..] + [f];
      VisibleAppend(a[1..], f);
    }
  }

  lemma {:induction false} VisibleStarts(a: seq<int>, b: seq<int>)
    requires 0 !in a && a <= b
    ensures forall f :: f in a ==> f in Visible(b)
  {
    if a != [] {
      assert a[1..] <= b[1..] && a[0] == b[0];
      VisibleStarts(a[1..], b[1..]);
      assert forall f :: f in a ==> f == a[0] || f in a[1..];
    }
  }

  lemma {:induction false} VisibleAt(a: seq<int>, n: int)
    requires 0 <= n <= |a| && (forall i :: 0 <= i < n ==> a[i] != 0) && (n == |a| || a[n] == 0)
    ensures Visible(a) == a[..n]
  {
    if n > 0 {
      VisibleAt(a[1..], n - 1);
      assert a[..n] == [a[0]] + a[1..][..n - 1];
    }
  }

  method InArray(a: seq<int>, val: int) returns (found: bool)
    ensures found <==> val in Visible(a)
  {
    var i := 0;
    while i < |a| && a[i] != 0
      invariant 0 <= i <= |a|
      invariant forall k :: 0 <= k < i ==> a[k] != 0 && a[k] != val
    {
      if a[i] == val {
        SeenBefore(a, i);
        return true;
      }
      i := i + 1;
    }
    VisibleAt(a, i);
    return false;
  }

  lemma {:induction false} SeenBefore(a: seq<int>, i: int)
    requires 0 <= i < |a| && forall k :: 0 <= k <= i ==> a[k] != 0
    ensures a[i] in Visible(a)
  {
    if i > 0 {
      assert a[1..][i - 1] == a[i];
      SeenBefore(a[1..], i - 1);
    }
  }

  // ---- One probe ----

  /** How many places after `idx`, going round, position `j` comes. */
  function Distance(idx: nat, j: nat, n: nat): int {
    if j >= idx then j - idx else j - idx + n
  }

  function After(k: nat, n: nat): nat {
    if k + 1 == n then 0 else k + 1
  }

  /** The probe picks the first unknown frequency from `idx` on and goes on behind it; when all are known it stays. */
  ghost predicate Probes(supp: seq<int>, idx: nat, known: set<int>, pick: Option<nat>, idx': nat) {
    match pick
    case None => (forall j :: 0 <= j < |supp| ==> supp[j] in known) && idx' == idx
    case Some(k) =>
      && k < |supp| && supp[k] !in known && idx' == After(k, |supp|)
      && forall j :: 0 <= j < |supp| && supp[j] !in known ==> Distance(idx, k, |supp|) <= Distance(idx, j, |supp|)
  }

  /** Reading a zero-terminated array: its terminator stands behind the values. */
  function At(a: seq<int>, i: nat): int {
    if i < |a| then a[i] else 0
  }

  lemma {:induction false} VisiblePrefix(a: seq<int>)
    ensures var n := |Visible(a)|;
            n <= |a| && Visible(a) == a[..n] && At(a, n) == 0 && forall i :: 0 <= i < n ==> a[i] != 0
  {
    if a != [] && a[0] != 0 {
      VisiblePrefix(a[1..]);
      assert a == [a[0]] + a[1..];
    }
  }

  /** The cursor stays among the values that a reader of the supported frequencies sees, unless the first one is 0. */
  predicate IsCursor(supp: seq<int>, idx: nat) {
    idx < |supp| && (supp[0] != 0 ==> idx < |Visible(supp)|)
  }

  /**
   The same for a list that begins with a frequency 0: the search goes up to the next terminator, and if everything on
   the way is known, it begins again and stops at that 0 at once, which is never known.
   */
  ghost predicate ProbesPastZero(supp: seq<int>, idx: nat, known: set<int>, pick: Option<nat>, idx': nat) {
    && pick.Some?
    && var k := pick.value;
       && k < |supp| && supp[k] !in known && idx' == (if At(supp, k + 1) == 0 then 0 else k + 1)
       && ((idx <= k && (idx < k ==> supp[k] != 0) && forall j :: idx <= j < k ==> supp[j] in known)
           || (k == 0 < idx && AllKnownFrom(supp, idx, known)))
  }

  /** From `idx` on, everything up to the next terminator is known. */
  ghost predicate AllKnownFrom(supp: seq<int>, idx: nat, known: set<int>) {
    exists e :: idx < e <= |supp| && At(supp, e) == 0 && forall j :: idx <= j < e ==> supp[j] in known
  }

  /** The search loop appends at most one frequency, and it is the one that the probe rule says. */
  method GetProbeFreq(supp: seq<int>, probeIdx: nat, freqs: seq<int>)
    returns (freqs': seq<int>, probeIdx': nat, ghost pick: Option<nat>)
    requires supp != [] && IsCursor(supp, probeIdx)
    ensures IsCursor(supp, probeIdx')
    ensures freqs' == freqs + if pick.Some? && pick.value < |supp| then [supp[pick.value]] else []
    ensures supp[0] != 0 ==> Probes(Visible(supp), probeIdx, Elems(Visible(freqs)), pick, probeIdx')
    ensures supp[0] == 0 ==> ProbesPastZero(supp, probeIdx, Elems(Visible(freqs)), pick, probeIdx')
    ensures pick.Some? ==> pick.value < |supp| && supp[pick.value] !in Visible(freqs)
  {
    VisiblePrefix(supp);
    VisibleAll(freqs);
    hide Visible;
    ghost var n := if supp[0] != 0 then |Visible(supp)| else |supp|;
    var idx: nat := probeIdx;
    ghost var looked := 0;
    while true
      invariant 0 <= looked < n && IsCursor(supp, idx) && looked == Distance(probeIdx, idx, n)
      invariant supp[0] != 0 ==> forall j :: 0 <= j < n && Distance(probeIdx, j, n) < looked ==> supp[j] in Visible(freqs)
      invariant supp[0] == 0 ==>
                  || (&& probeIdx <= idx && (probeIdx < idx ==> supp[idx] != 0)
                      && forall j :: probeIdx <= j < idx ==> supp[j] in Elems(Visible(freqs)))
                  || (idx == 0 < probeIdx && AllKnownFrom(supp, probeIdx, Elems(Visible(freqs))))
      decreases if supp[0] != 0 then n - looked else if idx == 0 then 0 else n - idx
    {
      var listed := InArray(freqs, supp[idx]);
      if !listed {
        probeIdx' := idx + 1;
        if At(supp, probeIdx') == 0 {
          probeIdx' := 0;
        }
        return freqs + [supp[idx]], probeIdx', Some(idx);
      }
      idx := idx + 1;
      if At(supp, idx) == 0 {
        idx := 0;
      }
      looked := Distance(probeIdx, idx, n);
      if idx == probeIdx {
        break;
      }
    }
    return freqs, probeIdx, None;
  }

  /** The probed frequency reaches the scan exactly when no frequency before it is the terminator. */
  lemma ProbeIsScanned(freqs: seq<int>, f: int)
    requires f != 0 && f !in Visible(freqs)
    ensures f in Visible(freqs + [f]) <==> 0 !in freqs
  {
    VisibleAppend(freqs, f);
  }

  // ---- Many probes ----

  /** Consecutive probe rounds; what is known may change in any way between them. */
  ghost predicate Rounds(supp: seq<int>, idxs: seq<nat>, knowns: seq<set<int>>, picks: seq<Option<nat>>) {
    && |idxs| == |knowns| + 1 && |picks| == |knowns|
    && (forall i :: 0 <= i < |idxs| ==> idxs[i] < |supp|)
    && forall i :: 0 <= i < |knowns| ==> Probes(supp, idxs[i], knowns[i], picks[i], idxs[i + 1])
  }

  /** Each round either probes position `j` or brings the cursor closer to it. */
  lemma Closer(supp: seq<int>, idx: nat, known: set<int>, pick: Option<nat>, idx': nat, j: nat)
    requires Probes(supp, idx, known, pick, idx') && idx < |supp| && j < |supp| && supp[j] !in known
    ensures pick == Some(j) || (idx' < |supp| && Distance(idx', j, |supp|) < Distance(idx, j, |supp|))
  {
    assert pick.Some?;
  }

  /** A supported frequency that stays unknown is probed within one round more than its distance from the cursor. */
  lemma {:induction false} Fair(supp: seq<int>, idxs: seq<nat>, knowns: seq<set<int>>, picks: seq<Option<nat>>, j: nat)
    returns (i: nat)
    requires Rounds(supp, idxs, knowns, picks) && j < |supp|
    requires Distance(idxs[0], j, |supp|) < |knowns|
    requires forall i :: 0 <= i < |knowns| ==> supp[j] !in knowns[i]
    ensures i <= Distance(idxs[0], j, |supp|) && i < |picks| && picks[i] == Some(j)
    decreases |knowns|
  {
    Closer(supp, idxs[0], knowns[0], picks[0], idxs[1], j);
    if picks[0] == Some(j) {
      i := 0;
    } else {
      i := Fair(supp, idxs[1..], knowns[1..], picks[1..], j);
      i := i + 1;
    }
  }

  /** In particular within n rounds, n being the number of supported frequencies. */
  lemma FairWithinN(supp: seq<int>, idxs: seq<nat>, knowns: seq<set<int>>, picks: seq<Option<nat>>, f: int)
    requires Rounds(supp, idxs, knowns, picks) && f in supp && |knowns| == |supp|
    requires forall i :: 0 <= i < |knowns| ==> f !in knowns[i]
    ensures exists i, k :: 0 <= i < |picks| && 0 <= k < |supp| && picks[i] == Some(k) && supp[k] == f
  {
    var j :| 0 <= j < |supp| && supp[j] == f;
    var i := Fair(supp, idxs, knowns, picks, j);
    assert picks[i] == Some(j);
  }

  // ---- The frequency lists ----

  /** Collect values without repetition, as far as a reader of the zero-terminated list can tell. */
  function Distinct(fs: seq<int>): seq<int> {
    if fs == [] then []
    else
      var front := Distinct(fs[..|fs| - 1]);
      if fs[|fs| - 1] in Visible(front) then front else front + [fs[|fs| - 1]]
  }

  lemma {:induction false} DistinctZero(fs: seq<int>)
    ensures 0 in Distinct(fs) <==> 0 in fs
  {
    if fs != [] {
      var front := fs[..|fs| - 1];
      DistinctZero(front);
      VisibleAll(Distinct(front));
      assert 0 in fs <==> 0 in front || fs[|fs| - 1] == 0;
    }
  }

  lemma OnlyZero(f: int)
    ensures Visible(Distinct([0]) + [f]) == []
  {
    assert [0][..0] == [] && Distinct([]) == [];
    assert Distinct([0]) == [0];
  }

  /** Without zeros that is every value exactly once. */
  lemma {:induction false} DistinctExact(fs: seq<int>)
    requires 0 !in fs
    ensures NoDup(Distinct(fs)) && Elems(Distinct(fs)) == Elems(fs) && 0 !in Distinct(fs)
  {
    if fs != [] {
      var front, f := fs[..|fs| - 1], fs[|fs| - 1];
      DistinctExact(front);
      VisibleAll(Distinct(front));
      assert Elems(fs) == Elems(front) + {f};
      if f !in Distinct(front) {
        NoDupAppend(Distinct(front), f);
        assert Elems(Distinct(front) + [f]) == Elems(Distinct(front)) + {f};
      }
    }
  }

  datatype Channel = Channel(freq: int, disabled: bool)

  /** The frequencies of the enabled channels, mode by mode. */
  function EnabledFreqs(channels: seq<Channel>): seq<int> {
    if channels == [] then []
    else EnabledFreqs(channels[..|channels| - 1]) + if channels[|channels| - 1].disabled then [] else [channels[|channels| - 1].freq]
  }

  function AllEnabled(modes: seq<seq<Channel>>): seq<int> {
    if modes == [] then [] else AllEnabled(modes[..|modes| - 1]) + EnabledFreqs(modes[|modes| - 1])
  }

  /** The frequencies of channels that some mode has enabled. */
  lemma EnabledExactly(modes: seq<seq<Channel>>, f: int)
    ensures f in AllEnabled(modes) <==>
              exists i, j :: 0 <= i < |modes| && 0 <= j < |modes[i]| && modes[i][j].freq == f && !modes[i][j].disabled
  {
    ModesExactly(modes, f);
    forall i | 0 <= i < |modes| ensures f in EnabledFreqs(modes[i]) <==> HasEnabled(modes[i], f) {
      ChannelsExactly(modes[i], f);
    }
    hide EnabledFreqs, AllEnabled;
  }

  ghost predicate HasEnabled(channels: seq<Channel>, f: int) {
    exists j :: 0 <= j < |channels| && channels[j].freq == f && !channels[j].disabled
  }

  lemma {:induction false} ChannelsExactly(channels: seq<Channel>, f: int)
    ensures f in EnabledFreqs(channels) <==> HasEnabled(channels, f)
  {
    if channels != [] {
      var front, last := channels[..|channels| - 1], channels[|channels| - 1];
      ChannelsExactly(front, f);
      if j :| 0 <= j < |front| && front[j].freq == f && !front[j].disabled {
        assert channels[j] == front[j];
      }
      if j :| 0 <= j < |channels| && channels[j].freq == f && !channels[j].disabled {
        assert j < |front| ==> front[j] == channels[j];
      }
    }
  }

  lemma {:induction false} ModesExactly(modes: seq<seq<Channel>>, f: int)
    ensures f in AllEnabled(modes) <==> exists i :: 0 <= i < |modes| && f in EnabledFreqs(modes[i])
  {
    hide EnabledFreqs;
    if modes != [] {
      var front, last := modes[..|modes| - 1], modes[|modes| - 1];
      ModesExactly(front, f);
      if i :| 0 <= i < |front| && f in EnabledFreqs(front[i]) {
        assert modes[i] == front[i];
      }
      if i :| 0 <= i < |modes| && f in EnabledFreqs(modes[i]) {
        assert i < |front| ==> front[i] == modes[i];
      }
    }
  }

  method GetSuppFreqs(modes: seq<seq<Channel>>) returns (freqs: seq<int>)
    ensures freqs == Distinct(AllEnabled(modes))
  {
    freqs := [];
    for i := 0 to |modes|
      invariant freqs == Distinct(AllEnabled(modes[..i]))
    {
      assert modes[..i + 1][..i] == modes[..i];
      freqs := AddChannels(freqs, modes[i], AllEnabled(modes[..i]));
    }
    assert modes[..|modes|] == modes;
  }

  method AddChannels(given: seq<int>, channels: seq<Channel>, ghost before: seq<int>) returns (freqs: seq<int>)
    requires given == Distinct(before)
    ensures freqs == Distinct(before + EnabledFreqs(channels))
  {
    freqs := given;
    ghost var sofar := before;
    assert before + [] == before;
    for j := 0 to |channels|
      invariant sofar == before + EnabledFreqs(channels[..j]) && freqs == Distinct(sofar)
    {
      assert channels[..j + 1][..j] == channels[..j];
      if channels[j].disabled {
        continue;
      }
      DistinctNext(sofar, channels[j].freq);
      sofar := sofar + [channels[j].freq];
      var listed := InArray(freqs, channels[j].freq);
      if listed {
        continue;
      }
      freqs := freqs + [channels[j].freq];
    }
    assert channels[..|channels|] == channels;
  }

  lemma DistinctNext(fs: seq<int>, f: int)
    ensures Distinct(fs + [f]) == Distinct(fs) + if f in Visible(Distinct(fs)) then [] else [f]
  {
    assert (fs + [f])[..|fs|] == fs;
  }
}

/**
 List surgery and half-finished iterations: the facts the in-place table code relies on.
 */
module BssSurgery {
  import opened Seqs
  import opened RelTimes
  import opened Macs
  import opened BssModel
  import opened BssInvariant

  /** `dl_list_del`: unlink one node. */
  function Unlink(s: seq<Ptr>, p: Ptr): seq<Ptr> {
    Keep(s, Elems(s) - {p})
  }

  function IndexOf(s: seq<Ptr>, p: Ptr): (k: nat)
    requires p in s
    ensures k < |s| && s[k] == p
    ensures forall i :: 0 <= i < k ==> s[i] != p
  {
    if s[0] == p then 0 else 1 + IndexOf(s[1..], p)
  }

  /** Unlinking and putting a node back after its predecessor replaces it in place. */
  lemma Relink(s: seq<Ptr>, p: Ptr, n: Ptr)
    requires NoDup(s) && p in s
    ensures IndexOf(s, p) <= |Unlink(s, p)|
    ensures Unlink(s, p)[..IndexOf(s, p)] + [n] + Unlink(s, p)[IndexOf(s, p)..] == Subst(s, p, n)
  {
    var k := IndexOf(s, p);
    KeepRemoveAt(s, k, Elems(s) - {p});
    RelinkAt(s, k, p, n);
  }

  lemma RelinkAt(s: seq<Ptr>, k: int, p: Ptr, n: Ptr)
    requires 0 <= k < |s| && s[k] == p && forall i :: 0 <= i < |s| && i != k ==> s[i] != p
    ensures var r := s[..k] + s[k + 1..]; r[..k] + [n] + r[k..] == Subst(s, p, n)
  {
    var r := s[..k] + s[k + 1..];
    assert r[..k] == s[..k] && r[k..] == s[k + 1..];
  }

  /** Everything a removal relies on: the entry is linked once, and no list or reference is dangling. */
  ghost predicate Linked(t: Table) {
    && NoDup(t.bss) && NoDup(t.bssId) && NoDup(t.lastRes)
    && (forall p :: p in t.bss ==> p in t.heap)
    && (forall p :: p in t.bssId <==> p in t.bss)
    && (forall p :: p in t.lastRes ==> p in t.heap)
    && References(t)
  }

  /** A removal, field by field. */
  lemma RemovedFields(t: Table, p: Ptr)
    requires Linked(t) && p in t.bss
    ensures Removed(t, p) == t.(
              heap := t.heap - {p}, bss := Unlink(t.bss, p), bssId := Unlink(t.bssId, p), numBss := t.numBss - 1,
              lastRes := Keep(t.lastRes, t.heap.Keys - {p}), pending := DropWork(t.pending, t.heap.Keys - {p}))
  {
    UnlinkKeeps(t, p);
    UnlinkOne(t.bss, p);
    hide Linked, NoDup;
    assert t.heap - {p} == Removed(t, p).heap;
  }

  lemma UnlinkKeeps(t: Table, p: Ptr)
    requires Linked(t) && p in t.bss
    ensures Unlink(t.bss, p) == Keep(t.bss, t.heap.Keys - {p})
    ensures Unlink(t.bssId, p) == Keep(t.bssId, t.heap.Keys - {p})
  {
    hide NoDup;
    KeepAgree(t.bss, Elems(t.bss) - {p}, t.heap.Keys - {p});
    KeepAgree(t.bssId, Elems(t.bssId) - {p}, t.heap.Keys - {p});
  }

  lemma UnlinkOne(s: seq<Ptr>, p: Ptr)
    requires NoDup(s) && p in s
    ensures |Unlink(s, p)| == |s| - 1
  {
    KeepRemoveAt(s, IndexOf(s, p), Elems(s) - {p});
  }

  // ---- Halfway through an iteration that removes entries not in use ----

  function UnusedSoFar(t: Table, m: int): set<Ptr>
    requires 0 <= m <= |t.bss|
  {
    set p | p in t.bss[..m] && !InUse(t, p)
  }

  function Part(t: Table, m: int): Table
    requires 0 <= m <= |t.bss|
  {
    Restrict(t, t.heap.Keys - UnusedSoFar(t, m))
  }

  lemma PartStart(t: Table)
    requires Valid(t)
    ensures UnusedSoFar(t, 0) == {} && Part(t, 0) == t
  {
    RestrictNone(t);
  }

  lemma RestrictNone(t: Table)
    requires Valid(t)
    ensures Restrict(t, t.heap.Keys - {}) == t
  {
    AllLive(t);
    hide Valid, Keep;
    RestrictAll(t, t.heap.Keys - {});
  }

  lemma AllLive(t: Table)
    requires Valid(t)
    ensures forall p :: p in t.bss || p in t.bssId || p in t.lastRes ==> p in t.heap
    ensures t.pending.Work? && t.pending.bss.Some? ==> t.pending.bss.value in t.heap
  {
    hide NoDup;
  }

  /** Removing nothing changes nothing. */
  lemma RestrictAll(t: Table, keep: set<Ptr>)
    requires t.heap.Keys <= keep
    requires forall p :: p in t.bss || p in t.bssId || p in t.lastRes ==> p in t.heap
    requires t.pending.Work? && t.pending.bss.Some? ==> t.pending.bss.value in t.heap
    ensures Restrict(t, keep) == t
  {
    hide Keep;
    KeepAll(t.bss, keep);
    KeepAll(t.bssId, keep);
    KeepAll(t.lastRes, keep);
    assert Restrict(t, keep).heap == t.heap;
  }

  lemma ValidIsLinked(t: Table)
    requires Valid(t)
    ensures Linked(t) && CurrentLive(t) && forall p :: p in t.heap <==> p in t.bss
  {
  }

  /** The cursor stands at an entry that is judged as it was at the start; removing it leaves the cursor right. */
  lemma PartFacts(t: Table, m: int, i: int)
    requires Valid(t) && 0 <= m < |t.bss|
    requires var c := Part(t, m); 0 <= i < |c.bss| && c.bss[i..] == t.bss[m..]
    ensures var c, p := Part(t, m), t.bss[m];
            && p in t.heap && Linked(c) && CurrentLive(c)
            && c.bss[i] == p && p in c.bss && p in c.heap && c.heap[p] == t.heap[p]
            && InUse(c, p) == InUse(t, p)
            && t.bss[m + 1..] == c.bss[i + 1..]
            && (InUse(t, p) ==> Part(t, m + 1) == c)
            && (!InUse(t, p) ==>
                  && Part(t, m + 1) == Removed(c, p)
                  && i <= |Removed(c, p).bss| && Removed(c, p).bss[i..] == t.bss[m + 1..])
    ensures UnusedSoFar(t, m + 1) == UnusedSoFar(t, m) + if InUse(t, t.bss[m]) then {} else {t.bss[m]}
  {
    hide Valid, Restrict, Removed, InUse, UnusedSoFar, Linked;
    var c, p := Part(t, m), t.bss[m];
    CursorAt(c.bss, t.bss, i, m);
    PartLinked(t, m);
    PartInUse(t, m, p);
    UnusedNext(t, m);
    RemoveFurther(t, UnusedSoFar(t, m), p);
    CursorStays(c, p, i);
  }

  lemma CursorAt(c: seq<Ptr>, s: seq<Ptr>, i: int, m: int)
    requires 0 <= i < |c| && 0 <= m < |s| && c[i..] == s[m..]
    ensures c[i] == s[m] && c[i + 1..] == s[m + 1..]
  {
    assert c[i] == c[i..][0] && s[m] == s[m..][0];
    assert c[i + 1..] == c[i..][1..] && s[m + 1..] == s[m..][1..];
  }

  lemma PartLinked(t: Table, m: int)
    requires Valid(t) && 0 <= m <= |t.bss|
    ensures Linked(Part(t, m)) && CurrentLive(Part(t, m))
    ensures forall p :: p in Part(t, m).bss <==> p in Part(t, m).heap
  {
    assert t.current.Some? ==> t.current.value in t.heap.Keys - UnusedSoFar(t, m);
    RestrictValid(t, t.heap.Keys - UnusedSoFar(t, m));
    ValidIsLinked(Part(t, m));
  }

  /** Being in use depends on the entry's and the current entry's keys only. */
  lemma InUseAgree(t: Table, c: Table, p: Ptr)
    requires p in t.heap && p in c.heap && SameKey(t.heap[p], c.heap[p])
    requires c.current == t.current && c.env == t.env
    requires t.current.Some? ==> var q := t.current.value; q in t.heap && q in c.heap && SameKey(t.heap[q], c.heap[q])
    ensures InUse(c, p) == InUse(t, p)
  {
  }

  lemma PartInUse(t: Table, m: int, p: Ptr)
    requires Valid(t) && 0 <= m < |t.bss| && p == t.bss[m]
    ensures p in t.heap && p in Part(t, m).heap && Part(t, m).heap[p] == t.heap[p]
    ensures InUse(Part(t, m), p) == InUse(t, p)
  {
    Unvisited(t, m, p);
    CurrentUnremoved(t, m);
    hide Valid, InUse;
    InUseAgree(t, Part(t, m), p);
  }

  lemma CurrentUnremoved(t: Table, m: int)
    requires Valid(t) && 0 <= m <= |t.bss|
    ensures t.current.Some? ==> t.current.value in t.heap.Keys - UnusedSoFar(t, m)
  {
  }

  lemma UnusedNext(t: Table, m: int)
    requires 0 <= m < |t.bss|
    ensures UnusedSoFar(t, m + 1) == UnusedSoFar(t, m) + if InUse(t, t.bss[m]) then {} else {t.bss[m]}
    ensures InUse(t, t.bss[m]) ==> UnusedSoFar(t, m + 1) == UnusedSoFar(t, m)
  {
    hide InUse;
    assert t.bss[..m + 1] == t.bss[..m] + [t.bss[m]];
  }

  lemma RemoveFurther(t: Table, gone: set<Ptr>, p: Ptr)
    ensures Removed(Restrict(t, t.heap.Keys - gone), p) == Restrict(t, t.heap.Keys - (gone + {p}))
  {
    var keep := t.heap.Keys - gone;
    assert Restrict(t, keep).heap.Keys == keep;
    RestrictRestrict(t, keep, keep - {p});
    assert keep * (keep - {p}) == t.heap.Keys - (gone + {p});
  }

  lemma CursorStays(c: Table, p: Ptr, i: int)
    requires Linked(c) && 0 <= i < |c.bss| && c.bss[i] == p
    ensures i <= |Removed(c, p).bss| && Removed(c, p).bss[i..] == c.bss[i + 1..]
  {
    KeepRemoveAt(c.bss, i, c.heap.Keys - {p});
  }

  lemma FlushDone(t: Table, m: int)
    requires Valid(t) && m == |t.bss|
    ensures Part(t, m) == Flushed(t)
  {
    assert t.bss[..m] == t.bss;
    assert t.heap.Keys - UnusedSoFar(t, m) == set p | p in t.heap && InUse(t, p);
  }

  /** How the early-exit run unfolds at the cursor. */
  lemma AgedStep(t: Table, m: int, cutoff: Time)
    requires 0 <= m < |t.bss| && t.bss[m] in t.heap
    ensures var p := t.bss[m];
            AgedRun(t, t.bss[m..], cutoff) ==
              if InUse(t, p) then AgedRun(t, t.bss[m + 1..], cutoff)
              else if Before(t.heap[p].lastUpdate, cutoff) then {p} + AgedRun(t, t.bss[m + 1..], cutoff)
              else {}
  {
    assert t.bss[m..][1..] == t.bss[m + 1..];
  }

  lemma AgedEnd(t: Table, m: int, cutoff: Time)
    requires 0 <= m <= |t.bss|
    ensures AgedRun(t, t.bss, cutoff) == UnusedSoFar(t, m) ==>
              Part(t, m) == Restrict(t, t.heap.Keys - AgedRun(t, t.bss, cutoff))
    ensures m == |t.bss| ==> AgedRun(t, t.bss[m..], cutoff) == {}
  {
  }

  // ---- Halfway through the end of a round ----

  /** The entries that have expired among the first `m`. */
  function ExpiredSoFar(t: Table, info: Option<Info>, m: int): set<Ptr>
    requires 0 <= m <= |t.bss|
  {
    set p | p in t.bss[..m] && p in t.heap && p !in Unexpired(t, info)
  }

  function CountedHeap(t: Table, info: Option<Info>, m: int): map<Ptr, Bss>
    requires 0 <= m <= |t.bss|
  {
    map p | p in t.heap :: if p in t.bss[..m] then t.heap[p].(miss := MissAfter(t, p, info)) else t.heap[p]
  }

  function Mid(t: Table, info: Option<Info>, m: int, gone: set<Ptr>): Table
    requires 0 <= m <= |t.bss|
  {
    Restrict(t.(heap := CountedHeap(t, info, m)), t.heap.Keys - gone)
  }

  lemma MidStart(t: Table, info: Option<Info>)
    requires Valid(t)
    ensures ExpiredSoFar(t, info, 0) == {} && Mid(t, info, 0, {}) == t
    ensures ExpiredSoFar(t, info, 0) == {} ==> Mid(t, info, 0, ExpiredSoFar(t, info, 0)) == t
  {
    hide Valid, MissAfter, Restrict;
    RestrictNone(t);
    assert CountedHeap(t, info, 0) == t.heap;
  }

  lemma MidDone(t: Table, info: Option<Info>, m: int)
    requires Valid(t) && m == |t.bss|
    ensures Mid(t, info, m, ExpiredSoFar(t, info, m))
            == Restrict(t.(heap := map p | p in t.heap :: t.heap[p].(miss := MissAfter(t, p, info))), Unexpired(t, info))
  {
    assert t.bss[..m] == t.bss;
    assert CountedHeap(t, info, m) == map p | p in t.heap :: t.heap[p].(miss := MissAfter(t, p, info));
    assert t.heap.Keys - ExpiredSoFar(t, info, m) == Unexpired(t, info);
  }

  lemma Unvisited(t: Table, m: int, p: Ptr)
    requires Valid(t) && 0 <= m < |t.bss| && p == t.bss[m]
    ensures p !in t.bss[..m] && p in t.heap
    ensures t.current.Some? ==> t.current.value in t.heap
  {
    assert t.bss[m] in t.bss;
  }

  lemma ExpiredNotInUse(t: Table, info: Option<Info>, m: int)
    requires Valid(t) && 0 <= m <= |t.bss|
    ensures t.current.Some? ==> t.current.value in t.heap.Keys - ExpiredSoFar(t, info, m)
  {
  }

  /** The mid state differs from a plain removal in miss counts only. */
  lemma MidShape(t: Table, info: Option<Info>, m: int, n: int)
    requires Valid(t) && 0 <= m <= |t.bss| && 0 <= n <= |t.bss|
    ensures var c := Mid(t, info, n, ExpiredSoFar(t, info, m));
            && Linked(c) && CurrentLive(c)
            && c.heap.Keys == t.heap.Keys - ExpiredSoFar(t, info, m)
  {
    hide Valid, MissAfter, ExpiredSoFar, NoDup, Linked, Mid, Restrict;
    var keep := t.heap.Keys - ExpiredSoFar(t, info, m);
    ExpiredNotInUse(t, info, m);
    RestrictValid(t, keep);
    ValidIsLinked(Restrict(t, keep));
    MidFields(t, info, n, ExpiredSoFar(t, info, m));
    SameLinks(Restrict(t, keep), Mid(t, info, n, ExpiredSoFar(t, info, m)));
  }

  lemma MidFields(t: Table, info: Option<Info>, n: int, gone: set<Ptr>)
    requires 0 <= n <= |t.bss|
    ensures var c, r := Mid(t, info, n, gone), Restrict(t, t.heap.Keys - gone);
            && c == r.(heap := c.heap) && c.heap.Keys == r.heap.Keys == t.heap.Keys - gone
            && c.current == t.current
  {
    hide MissAfter, Keep;
  }

  lemma SameLinks(t: Table, t': Table)
    requires Linked(t) && t' == t.(heap := t'.heap) && t'.heap.Keys == t.heap.Keys
    ensures Linked(t') && (CurrentLive(t) ==> CurrentLive(t'))
  {
  }

  lemma MidHeap(t: Table, info: Option<Info>, m: int, p: Ptr)
    requires Valid(t) && 0 <= m < |t.bss| && p == t.bss[m]
    ensures var c := Mid(t, info, m, ExpiredSoFar(t, info, m)); p in t.heap && p in c.heap && c.heap[p] == t.heap[p]
  {
    Unvisited(t, m, p);
    hide MissAfter, Valid;
  }

  /** Being in use does not depend on the entries already removed. */
  lemma MidInUse(t: Table, info: Option<Info>, m: int, p: Ptr)
    requires Valid(t) && 0 <= m < |t.bss| && p == t.bss[m]
    ensures InUse(Mid(t, info, m, ExpiredSoFar(t, info, m)), p) == InUse(t, p)
  {
    hide Valid, Unexpired, ExpiredSoFar, InUse, MissAfter;
    MidHeap(t, info, m, p);
    ExpiredNotInUse(t, info, m);
    InUseAgree(t, Mid(t, info, m, ExpiredSoFar(t, info, m)), p);
  }

  /** The entry at the cursor is still there, and is judged as it was at the start. */
  lemma MidFacts(t: Table, info: Option<Info>, m: int, i: int)
    requires Valid(t) && 0 <= m < |t.bss|
    requires var c := Mid(t, info, m, ExpiredSoFar(t, info, m)); 0 <= i < |c.bss| && c.bss[i..] == t.bss[m..]
    ensures var c, p := Mid(t, info, m, ExpiredSoFar(t, info, m)), t.bss[m];
            && Linked(c) && CurrentLive(c) && c.bss[i] == p && p in t.heap && p in c.heap && c.heap[p] == t.heap[p]
            && InUse(c, p) == InUse(t, p)
            && c.updateIdx == t.updateIdx && c.expireCount == t.expireCount
  {
    var c, p := Mid(t, info, m, ExpiredSoFar(t, info, m)), t.bss[m];
    CursorAt(c.bss, t.bss, i, m);
    MidShape(t, info, m, m);
    MidHeap(t, info, m, p);
    MidInUse(t, info, m, p);
    hide Valid, Linked, MissAfter, Unexpired, ExpiredSoFar, InUse;
  }

  lemma ExpiredNext(t: Table, info: Option<Info>, m: int)
    requires 0 <= m < |t.bss| && t.bss[m] in t.heap
    ensures ExpiredSoFar(t, info, m + 1) == ExpiredSoFar(t, info, m) + if t.bss[m] in Unexpired(t, info) then {} else {t.bss[m]}
    ensures t.bss[m] in Unexpired(t, info) ==> ExpiredSoFar(t, info, m + 1) == ExpiredSoFar(t, info, m)
  {
    hide Unexpired;
    assert t.bss[..m + 1] == t.bss[..m] + [t.bss[m]];
  }

  lemma CountedNext(t: Table, info: Option<Info>, m: int)
    requires 0 <= m < |t.bss| && t.bss[m] in t.heap
    ensures var p := t.bss[m];
            CountedHeap(t, info, m + 1) == CountedHeap(t, info, m)[p := t.heap[p].(miss := MissAfter(t, p, info))]
  {
    hide MissAfter;
    assert t.bss[..m + 1] == t.bss[..m] + [t.bss[m]];
  }

  lemma RestrictSet(t: Table, heap: map<Ptr, Bss>, keep: set<Ptr>, p: Ptr, e: Bss)
    requires p in keep && p in heap
    ensures Restrict(t.(heap := heap[p := e]), keep)
            == Restrict(t.(heap := heap), keep).(heap := Restrict(t.(heap := heap), keep).heap[p := e])
  {
    assert Restrict(t.(heap := heap[p := e]), keep).heap == Restrict(t.(heap := heap), keep).heap[p := e];
  }

  /** What judging one more entry does to the mid state. */
  lemma MidAdvance(t: Table, info: Option<Info>, m: int, i: int)
    requires Valid(t) && 0 <= m < |t.bss|
    ensures var c, p := Mid(t, info, m, ExpiredSoFar(t, info, m)), t.bss[m];
            && p in t.heap
            && Mid(t, info, m + 1, ExpiredSoFar(t, info, m)) == c.(heap := c.heap[p := t.heap[p].(miss := MissAfter(t, p, info))])
            && (p in Unexpired(t, info) <==> InUse(t, p) || !Included(info, t.heap[p]) || MissAfter(t, p, info) < t.expireCount)
            && (p in Unexpired(t, info) ==> ExpiredSoFar(t, info, m + 1) == ExpiredSoFar(t, info, m))
            && (p in c.heap && c.heap[p] == t.heap[p])
            && c.heap[p := c.heap[p]] == c.heap
  {
    var p := t.bss[m];
    hide Valid, MissAfter, InUse, Included, Restrict, ExpiredSoFar, CountedHeap, Mid, Unexpired;
    Unvisited(t, m, p);
    MidHeap(t, info, m, p);
    ExpiredNext(t, info, m);
    MidCount(t, info, m);
    UnexpiredMeans(t, info, p);
    SetSame(Mid(t, info, m, ExpiredSoFar(t, info, m)).heap, p);
  }

  lemma UnexpiredMeans(t: Table, info: Option<Info>, p: Ptr)
    requires p in t.heap
    ensures p in Unexpired(t, info) <==> InUse(t, p) || !Included(info, t.heap[p]) || MissAfter(t, p, info) < t.expireCount
  {
  }

  lemma SetSame(h: map<Ptr, Bss>, p: Ptr)
    requires p in h
    ensures h[p := h[p]] == h
  {
  }

  lemma MidCount(t: Table, info: Option<Info>, m: int)
    requires Valid(t) && 0 <= m < |t.bss| && t.bss[m] in t.heap
    ensures var c, p := Mid(t, info, m, ExpiredSoFar(t, info, m)), t.bss[m];
            Mid(t, info, m + 1, ExpiredSoFar(t, info, m)) == c.(heap := c.heap[p := t.heap[p].(miss := MissAfter(t, p, info))])
  {
    var p := t.bss[m];
    hide Valid, MissAfter, Restrict, ExpiredSoFar, CountedHeap;
    CountedNext(t, info, m);
    UnvisitedStays(t, info, m);
    RestrictSet(t, CountedHeap(t, info, m), t.heap.Keys - ExpiredSoFar(t, info, m), p, t.heap[p].(miss := MissAfter(t, p, info)));
  }

  lemma UnvisitedStays(t: Table, info: Option<Info>, m: int)
    requires Valid(t) && 0 <= m < |t.bss|
    ensures t.bss[m] in t.heap.Keys - ExpiredSoFar(t, info, m) && t.bss[m] in CountedHeap(t, info, m)
  {
    Unvisited(t, m, t.bss[m]);
    hide Unexpired, MissAfter;
  }

  lemma MidRemoved(t: Table, info: Option<Info>, m: int, i: int)
    requires Valid(t) && 0 <= m < |t.bss| && t.bss[m] in t.heap && t.bss[m] !in Unexpired(t, info)
    requires var c := Mid(t, info, m + 1, ExpiredSoFar(t, info, m)); 0 <= i < |c.bss| && c.bss[i..] == t.bss[m..]
    ensures var c, p := Mid(t, info, m + 1, ExpiredSoFar(t, info, m)), t.bss[m];
            && Linked(c) && p in c.bss
            && Removed(c, p) == Mid(t, info, m + 1, ExpiredSoFar(t, info, m + 1))
            && i <= |Removed(c, p).bss| && Removed(c, p).bss[i..] == t.bss[m + 1..]
  {
    hide Valid, MissAfter, ExpiredSoFar, Unexpired, Removed, Restrict, Linked;
    var c, p := Mid(t, info, m + 1, ExpiredSoFar(t, info, m)), t.bss[m];
    CursorAt(c.bss, t.bss, i, m);
    MidShape(t, info, m, m + 1);
    ExpiredNext(t, info, m);
    assert CountedHeap(t, info, m + 1).Keys == t.heap.Keys;
    RemoveFurther(t.(heap := CountedHeap(t, info, m + 1)), ExpiredSoFar(t, info, m), p);
    CursorStays(c, p, i);
  }

  /** The SSID a result is looked up by: the mesh ID when there is one. */
  function MatchSsid(res: ScanRes): Ssid {
    if res.ies.mesh.Some? && |res.ies.mesh.value| <= SSID_MAX_LEN then res.ies.mesh.value
    else if res.ies.ssid.Some? then res.ies.ssid.value
    else []
  }

  lemma ApplicableIs(env: Env, res: ScanRes, fetch: Time)
    ensures Applicable(env, res, fetch).Some? ==> Applicable(env, res, fetch).value == MatchSsid(res)
  {
  }

  lemma LookupIsLive(t: Table, bssid: Mac, ssid: Ssid)
    requires Valid(t)
    ensures Lookup(t, bssid, ssid).Some? ==> Lookup(t, bssid, ssid).value in t.heap
    ensures forall p :: p in t.bss ==> p in t.heap
  {
  }

  /** A new entry is at an address that the round index does not hold. */
  lemma AddedIsUnseen(t: Table, a: Ptr, e: Bss)
    requires Valid(t) && a !in t.heap
    ensures a !in Added(t, a, e).lastRes
  {
    assert a !in t.lastRes;
  }

  function RenamedWork(w: Work, p: Ptr, n: Ptr): Work {
    if w.Work? then w.(bss := SubstRef(w.bss, p, n)) else w
  }

  function NewIes(e: Bss, res: ScanRes, alloc: Option<Ptr>): Ies {
    if KeepsIes(e, res) || (Grows(e, res) && alloc.None?) then e.ies else res.ies
  }

  /** The entry after the fixed fields were copied, before its elements are. */
  function Copied(t: Table, e: Bss, res: ScanRes, update: Time): Bss {
    e.(miss := 0, lastIdx := t.updateIdx, bssid := res.bssid, radio := res.radio, lastUpdate := update)
  }

  lemma RefreshedIs(t: Table, p: Ptr, res: ScanRes, fetch: Time, alloc: Option<Ptr>)
    requires p in t.heap
    ensures var e := Copied(t, t.heap[p], res, UpdateTime(fetch, res.age));
            && Refreshed(t, t.heap[p], res, fetch, alloc) == e.(ies := NewIes(e, res, alloc))
            && NewHome(t.heap[p], p, res, alloc) == NewHome(e, p, res, alloc)
  {
  }

  lemma SetThenMove(h: map<Ptr, Bss>, p: Ptr, e: Bss, r: Ptr, f: Bss)
    ensures (h[p := e] - {p})[r := f] == (h - {p})[r := f]
  {
  }

  lemma SubstSelf(s: seq<Ptr>, p: Ptr)
    ensures Subst(s, p, p) == s
  {
  }

  lemma EntryIsLinked(t: Table, p: Ptr)
    requires Valid(t) && p in t.heap
    ensures p in t.bss && p in t.bssId && NoDup(t.bssId) && NoDup(t.lastRes)
  {
  }

  /** An update, field by field. */
  lemma MovedIs(t: Table, p: Ptr, e: Bss, r: Ptr)
    requires p in t.heap
    ensures Rename(Refresh(t, p, e), p, r) == t.(
              heap := (t.heap - {p})[r := e],
              bss := Unlink(t.bss, p) + [r],
              bssId := Subst(t.bssId, p, r),
              lastRes := Subst(t.lastRes, p, r),
              current := SubstRef(t.current, p, r),
              pending := RenamedWork(t.pending, p, r))
  {
    assert (t.heap[p := e] - {p})[r := e] == (t.heap - {p})[r := e];
    assert Subst(Unlink(t.bss, p) + [p], p, r) == Unlink(t.bss, p) + [r];
  }

  lemma AllocatedLinked(t: Table, a: Ptr, e: Bss)
    requires Valid(t) && a !in t.heap
    ensures Linked(Allocated(t, a, e))
  {
  }
}

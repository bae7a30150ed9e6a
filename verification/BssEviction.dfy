/** Making room: who goes, when the maximum grows, and what happens to entries in use and to references. */
module BssEviction {
  import opened Seqs
  import opened RelTimes
  import opened Macs
  import opened BssModel
  import opened BssInvariant
  import opened BssRuns
  import opened BssHistory

  // ---- The victim ----

  /** `v` is the member of `wanted` that was touched least recently. */
  ghost predicate LeastRecent(states: seq<Table>, ops: seq<Op>, n: nat, wanted: set<Ptr>, v: Ptr)
    requires |states| == |ops| + 1 && n <= |ops|
  {
    && v in wanted && v in states[n].heap
    && forall q :: q in wanted && q in states[n].heap ==>
         LastTouch(states, ops, n, states[n].heap[v].id) <= LastTouch(states, ops, n, states[n].heap[q].id)
  }

  lemma FirstIsLeastRecent(states: seq<Table>, ops: seq<Op>, n: nat, wanted: set<Ptr>)
    requires Run(states, ops) && n <= |ops|
    ensures var v := FirstIn(states[n].bss, wanted);
            v.Some? ==> LeastRecent(states, ops, n, wanted, v.value)
  {
    hide Run, Step, Valid, Legal, Touches, LastTouch;
    RunShape(states, ops);
    RunValid(states, ops, n);
    var t := states[n];
    if FirstIn(t.bss, wanted).Some? {
      var k := FirstInPosition(t.bss, wanted);
      ListIsLive(t, k);
      forall q | q in wanted && q in t.heap
        ensures LastTouch(states, ops, n, t.heap[t.bss[k]].id) <= LastTouch(states, ops, n, t.heap[q].id)
      {
        var j := Listed(t, q);
        if k < j {
          UpdateOrder(states, ops, n, k, j);
        }
      }
    }
  }

  lemma Listed(t: Table, p: Ptr) returns (k: int)
    requires Valid(t) && p in t.heap
    ensures 0 <= k < |t.bss| && t.bss[k] == p
  {
    assert p in t.bss;
    k :| 0 <= k < |t.bss| && t.bss[k] == p;
  }

  /**
   Entering a new entry into a full table removes one entry: the least recently touched of those stage one
   does not spare, or, when it spares all, the least recently touched of those not in use. When there is
   none of either, nothing is removed and the maximum grows by one.
   */
  lemma EvictionIsLeastRecent(states: seq<Table>, ops: seq<Op>, n: nat)
    requires Run(states, ops) && n < |ops| && Inserts(states[n], ops[n]) && Full(states[n])
    ensures var t, t', a := states[n], states[n + 1], ops[n].alloc.value;
            if Unretained(t) != {} then
              exists v :: LeastRecent(states, ops, n, Unretained(t), v) && t'.heap.Keys == t.heap.Keys - {v} + {a} && t'.maxCount == t.maxCount
            else if Unused(t) != {} then
              exists v :: LeastRecent(states, ops, n, Unused(t), v) && t'.heap.Keys == t.heap.Keys - {v} + {a} && t'.maxCount == t.maxCount
            else
              t'.heap.Keys == t.heap.Keys + {a} && t'.maxCount == t.maxCount + 1
  {
    hide Run, Step, Valid, Legal, LeastRecent, Inserts, Unretained, Unused, Full;
    RunShape(states, ops);
    RunStep(states, ops, n);
    InsertEffect(states[n], ops[n]);
    FirstIsLeastRecent(states, ops, n, Unretained(states[n]));
    FirstIsLeastRecent(states, ops, n, Unused(states[n]));
  }

  lemma InsertEffect(t: Table, op: Op)
    requires Valid(t) && Legal(t, op) && Inserts(t, op) && Full(t)
    ensures Unretained(t) != {} <==> FirstIn(t.bss, Unretained(t)).Some?
    ensures Unused(t) != {} <==> FirstIn(t.bss, Unused(t)).Some?
    ensures var t' := Step(t, op);
            if Victim(t).Some?
            then t'.heap.Keys == t.heap.Keys - {Victim(t).value} + {op.alloc.value} && t'.maxCount == t.maxCount
            else t'.heap.Keys == t.heap.Keys + {op.alloc.value} && t'.maxCount == t.maxCount + 1
  {
    hide Step, Valid, Legal, MakeRoom, NewEntry, Applicable, Full, Victim, Unretained, Unused;
    InsertValid(t, op);
    SetsAreListed(t);
    RoomKeys(t);
  }

  lemma SetsAreListed(t: Table)
    requires Valid(t)
    ensures Unretained(t) != {} <==> FirstIn(t.bss, Unretained(t)).Some?
    ensures Unused(t) != {} <==> FirstIn(t.bss, Unused(t)).Some?
  {
    assert forall p :: p in Unretained(t) ==> p in t.bss;
    assert forall p :: p in Unused(t) ==> p in t.bss;
  }

  lemma RoomKeys(t: Table)
    requires Valid(t) && Full(t)
    ensures if Victim(t).Some?
            then MakeRoom(t).heap.Keys == t.heap.Keys - {Victim(t).value} && MakeRoom(t).maxCount == t.maxCount
            else MakeRoom(t).heap.Keys == t.heap.Keys && MakeRoom(t).maxCount == t.maxCount + 1
  {
  }

  // ---- Entries in use ----

  /** No table operation removes an entry that is in use and spared by stage one; at most it moves. */
  lemma InUseStays(t: Table, op: Op, p: Ptr)
    requires Valid(t) && Legal(t, op) && !op.Remove?
    requires p in t.heap && InUse(t, p) && Retained(t.env, t.heap[p])
    ensures Home(t, op, p) in Step(t, op).heap
    ensures Step(t, op).heap[Home(t, op, p)].id == t.heap[p].id
  {
    if op.Result? {
      ResultKeeps(t, op, p);
    } else if op.FlushByAge? {
      AgedAreUnused(t, t.bss, Cutoff(op.now, op.age));
    }
    StepKeeps(t, op, p);
  }

  lemma ResultKeeps(t: Table, op: Op, p: Ptr)
    requires Valid(t) && op.Result? && Legal(t, op)
    requires p in t.heap && InUse(t, p) && Retained(t.env, t.heap[p])
    ensures Home(t, op, p) in Step(t, op).heap
  {
    hide Step, Valid, MakeRoom, InUse, Retained, Applicable, Lookup, Outdated;
    HitIsLive(t, op);
    if Inserts(t, op) {
      InsertValid(t, op);
      RoomKeepsInUse(t, p);
    } else if Hit(t, op).Some? && Overwrites(t, op, Hit(t, op).value) {
      OverwriteHeap(t, op, Hit(t, op).value);
    } else if Hit(t, op).Some? {
      OutdatedHeap(t, op, Hit(t, op).value);
    } else {
      NothingHeap(t, op);
    }
  }

  lemma NothingHeap(t: Table, op: Op)
    requires op.Result? && Hit(t, op).None? && !Inserts(t, op)
    ensures Step(t, op) == t
  {
    var ssid := Applicable(t.env, op.res, op.fetch);
    if ssid.Some? {
      assert Lookup(t, op.res.bssid, ssid.value).None?;
      assert op.alloc.None?;
    }
  }

  lemma RoomKeepsInUse(t: Table, p: Ptr)
    requires Valid(t) && !EvictsCurrent(t) && p in t.heap && InUse(t, p)
    requires Retained(t.env, t.heap[p])
    ensures p in MakeRoom(t).heap
  {
    hide Retained;
  }

  // ---- References ----

  /** The current entry stays the same entry through every step that does not set it, wherever it moves. */
  lemma CurrentFollows(t: Table, op: Op)
    requires Valid(t) && Legal(t, op) && !op.SetCurrent? && t.current.Some?
    ensures t.current.value in t.heap
    ensures var t' := Step(t, op);
            && t'.current.Some? && t'.current.value in t'.heap
            && t'.heap[t'.current.value].id == t.heap[t.current.value].id
  {
    hide Valid, Legal, Step, Overwrites;
    StepValid(t, op);
    ReferencesLive(t);
    ReferencesLive(Step(t, op));
    CurrentMoves(t, op);
    StepKeeps(t, op, t.current.value);
  }

  lemma ReferencesLive(t: Table)
    requires Valid(t)
    ensures References(t)
  {
  }

  lemma CurrentMoves(t: Table, op: Op)
    requires Valid(t) && Legal(t, op) && !op.SetCurrent? && t.current.Some? && t.current.value in t.heap
    ensures Step(t, op).current == Some(Home(t, op, t.current.value))
  {
    hide Step, Valid, Legal, Home, Inserts, Overwrites, Hit;
    if Inserts(t, op) {
      InsertRefs(t, op);
    } else if Hit(t, op).Some? && Overwrites(t, op, Hit(t, op).value) {
      OverwriteRefs(t, op, Hit(t, op).value);
      if t.current != Hit(t, op) {
        HomeOfOther(t, op, Hit(t, op).value, t.current.value);
      }
    } else {
      HitIsLive(t, op);
      PlainCurrent(t, op);
    }
  }

  lemma PlainCurrent(t: Table, op: Op)
    requires !Inserts(t, op) && !op.SetCurrent? && t.current.Some? && t.current.value in t.heap
    requires Hit(t, op).Some? ==> !Overwrites(t, op, Hit(t, op).value) && Hit(t, op).value in t.heap
    ensures Step(t, op).current == t.current == Some(Home(t, op, t.current.value))
  {
  }

  lemma InsertRefs(t: Table, op: Op)
    requires Valid(t) && Legal(t, op) && Inserts(t, op)
    ensures Step(t, op).current == t.current
    ensures Step(t, op).pending == DropWork(t.pending, Step(t, op).heap.Keys)
    ensures forall p :: p in t.heap ==> Home(t, op, p) == p
  {
    hide Valid, Step, NewEntry, Applicable;
    InsertValid(t, op);
    InsertedIsNew(t, op);
    RoomRefs(t, op.alloc.value);
  }

  lemma RoomRefs(t: Table, a: Ptr)
    requires Valid(t) && a !in t.heap
    ensures MakeRoom(t).current == t.current
    ensures MakeRoom(t).pending == DropWork(t.pending, MakeRoom(t).heap.Keys + {a})
  {
  }

  lemma OverwriteRefs(t: Table, op: Op, p: Ptr)
    requires Valid(t) && Legal(t, op) && Overwrites(t, op, p)
    ensures Step(t, op).current == SubstRef(t.current, p, Home(t, op, p))
    ensures t.pending.Work? ==> Step(t, op).pending == t.pending.(bss := SubstRef(t.pending.bss, p, Home(t, op, p)))
  {
    OverwriteValid(t, op, p);
    hide Step, Valid, Legal;
  }

  /** The pending connect work keeps pointing at its entry, or is told that the entry was removed. */
  lemma PendingFollows(t: Table, op: Op)
    requires Valid(t) && Legal(t, op) && !op.SetPending? && t.pending.Work? && t.pending.bss.Some?
    ensures t.pending.bss.value in t.heap
    ensures var t', d := Step(t, op), t.heap[t.pending.bss.value].id;
            && t'.pending.Work?
            && if t'.pending.bss.Some?
               then t'.pending.bss.value in t'.heap && t'.heap[t'.pending.bss.value].id == d
               else t'.pending.removed && forall p :: p in t'.heap ==> t'.heap[p].id != d
  {
    var q := t.pending.bss.value;
    hide Valid, Legal, Step, Home;
    ReferencesLive(t);
    PendingMoves(t, op, q);
    if Home(t, op, q) in Step(t, op).heap {
      StepKeeps(t, op, q);
    } else {
      forall p | p in Step(t, op).heap ensures Step(t, op).heap[p].id != t.heap[q].id {
        OtherEntry(t, op, q, p);
      }
    }
  }

  lemma OtherEntry(t: Table, op: Op, q: Ptr, p: Ptr)
    requires Valid(t) && Legal(t, op) && q in t.heap && p in Step(t, op).heap && Home(t, op, q) !in Step(t, op).heap
    ensures Step(t, op).heap[p].id != t.heap[q].id
  {
    hide Step, Valid, Legal, Overwrites, Inserts;
    var origin := StepEntry(t, op, p);
    IdBelow(t, q);
    if origin.Some? && t.heap[origin.value].id == t.heap[q].id {
      SameIdSameEntry(t, origin.value, q);
    }
  }

  lemma SameIdSameEntry(t: Table, p: Ptr, q: Ptr)
    requires Valid(t) && p in t.heap && q in t.heap && t.heap[p].id == t.heap[q].id
    ensures p == q
  {
    IdsAreUnique(t, p, q);
  }

  lemma IdBelow(t: Table, q: Ptr)
    requires Valid(t) && q in t.heap
    ensures t.heap[q].id < t.nextId
  {
  }

  /** After the step the work points where its entry went, or records the removal. */
  predicate WorkMoves(t: Table, op: Op, q: Ptr)
    requires q in t.heap && t.pending.Work?
  {
    var t', q' := Step(t, op), Home(t, op, q);
    if q' in t'.heap then t'.pending == t.pending.(bss := Some(q')) else t'.pending == Work(None, true)
  }

  lemma PendingMoves(t: Table, op: Op, q: Ptr)
    requires Valid(t) && Legal(t, op) && !op.SetPending? && t.pending.Work? && t.pending.bss == Some(q) && q in t.heap
    ensures WorkMoves(t, op, q)
  {
    hide Step, Valid, Legal, Home, Inserts, Overwrites, Hit;
    HitIsLive(t, op);
    if Inserts(t, op) {
      InsertRefs(t, op);
    } else if Hit(t, op).Some? && Overwrites(t, op, Hit(t, op).value) {
      PendingOnHit(t, op, Hit(t, op).value, q);
    } else {
      PlainPending(t, op, q);
    }
  }

  lemma PendingOnHit(t: Table, op: Op, p: Ptr, q: Ptr)
    requires Valid(t) && Legal(t, op) && Overwrites(t, op, p) && t.pending.Work? && t.pending.bss == Some(q) && q in t.heap
    ensures WorkMoves(t, op, q)
  {
    hide Step, Valid, Legal, Home;
    OverwriteRefs(t, op, p);
    OverwriteHeap(t, op, p);
    if q != p {
      HomeOfOther(t, op, p, q);
    }
  }

  lemma HomeOfOther(t: Table, op: Op, p: Ptr, q: Ptr)
    requires q in t.heap && Overwrites(t, op, p) && q != p
    ensures Home(t, op, q) == q
  {
  }

  lemma PlainPending(t: Table, op: Op, q: Ptr)
    requires !Inserts(t, op) && !op.SetPending? && t.pending.Work? && t.pending.bss == Some(q) && q in t.heap
    requires Hit(t, op).Some? ==> !Overwrites(t, op, Hit(t, op).value) && Hit(t, op).value in t.heap
    ensures WorkMoves(t, op, q)
  {
  }

  // ---- What breaks without the callers' side of the contract ----

  /**
   Without the guard on evictions the current entry can be freed under its reference: that happens exactly
   when the table is full and the current entry is the first that stage one does not spare.
   */
  lemma EvictionDanglesExactly(t: Table, op: Op)
    requires Valid(t) && Inserts(t, op) && op.alloc.value !in t.heap
    ensures CurrentLive(Step(t, op)) <==> !EvictsCurrent(t)
  {
    var ssid := Applicable(t.env, op.res, op.fetch).value;
    var e := NewEntry(t, ssid, op.res, op.fetch);
    MakeRoomAllocated(t, op.alloc.value, e);
    RoomCurrent(t);
    hide MakeRoom, EvictsCurrent, Valid, NewEntry, Applicable;
  }

  /**
   It does happen in a run, with a network configured that fits any SSID: with a maximum of one, an access point is
   entered and becomes current; the next result that passes the filter frees it.
   */
  lemma EvictionDanglesExample() returns (states: seq<Table>, ops: seq<Op>, op: Op)
    ensures forall i :: 0 <= i < |states| ==> states[i].env.networks == [ANY_SSID]
    ensures Run(states, ops) && Inserts(states[|ops|], op) && FilterMatch(states[|ops|].env, op.res.bssid)
    ensures states[|ops|].current.Some? && CurrentLive(states[|ops|]) && !CurrentLive(Step(states[|ops|], op))
  {
    hide Step, Legal, Inserts, EvictsCurrent, Valid, CallersSide, SomeResult;
    var t0, enter, select := RoomForOne(), SomeResult(1), SetCurrent(Some(1));
    var t1 := Step(t0, enter);
    EnterOne(t0, enter);
    var t2 := Step(t1, select);
    SetsCurrent(t1, 1);
    states, ops, op := [t0, t1, t2], [enter, select], SomeResult(2);
    assert Run(states, ops);
    RunValid(states, ops, 2);
    OtherEvicts(t2, op);
    EvictionDanglesExactly(t2, op);
  }

  /** A configured network without an SSID of its own. */
  const ANY_SSID := Network([], false, false, false)

  /** An empty table for at most one entry. */
  function RoomForOne(): Table {
    var env := Env([ANY_SSID], ZERO, ZERO, ZERO, ZERO, None, false, RelTime(0, 0), false);
    Table(map[], [], [], 0, [], 0, None, NoWork, 0, 0, 1, 2, env)
  }

  const HOME: Ssid := [104, 111, 109, 101]

  /** A result for access point number `k`, and memory at `k` for it. */
  function SomeResult(k: Byte): Op {
    var radio := Radio(false, 0, 2412, 100, 0, 0, 0, 0, 0, 0, 0);
    Result(ScanRes([2, 0, 0, 0, 0, k], radio, 0, Ies(6, Some(HOME), None, false, None, NoWps)), RelTime(1, 0), Some(k as int))
  }

  /** The table holds one entry, for access point number 1, and is full. */
  predicate OnlyFirst(t: Table) {
    && 1 in t.heap && t.heap.Keys == {1} && t.bss == [1] && t.numBss == 1 == t.maxCount
    && t.heap[1].bssid == [2, 0, 0, 0, 0, 1] && t.heap[1].ssid == HOME && t.heap[1].ies.wps == NoWps
    && t.heap[1].ies.p2pDev.None?
    && t.env == RoomForOne().env
  }

  lemma EnterOne(t: Table, op: Op)
    requires t == RoomForOne() && op == SomeResult(1)
    ensures Legal(t, op) && OnlyFirst(Step(t, op))
  {
    assert Inserts(t, op);
    assert !Full(t);
  }

  /** A result for another access point then evicts it, whatever it is used for. */
  lemma OtherEvicts(t: Table, op: Op)
    requires OnlyFirst(t) && t.current == Some(1) && op == SomeResult(2)
    ensures Inserts(t, op) && FilterMatch(t.env, op.res.bssid) && op.alloc.value !in t.heap
    ensures EvictsCurrent(t) && CurrentLive(t)
  {
    var e := t.heap[1];
    assert op.res.bssid[5] == 2 && e.bssid[5] == 1;
    assert e.bssid[0] == 2 && ZERO[0] == 0;
    assert !HasKey(e, op.res.bssid, HOME);
    assert Unretained(t) == {1};
  }

  lemma SetsCurrent(t: Table, p: Ptr)
    requires p in t.heap
    ensures Legal(t, SetCurrent(Some(p)))
    ensures Step(t, SetCurrent(Some(p))) == t.(current := Some(p))
  {
  }

  lemma RoomCurrent(t: Table)
    requires Valid(t)
    ensures MakeRoom(t).current == t.current
    ensures CurrentLive(MakeRoom(t)) <==> !EvictsCurrent(t)
  {
  }

  /** Keys stay unique under an insertion exactly when the key was free after eviction; the filter guarantees it. */
  lemma DuplicateExactly(t: Table, op: Op)
    requires Valid(t) && Inserts(t, op) && op.alloc.value !in t.heap
    ensures var e := Entered(t, op);
            UniqueKeys(Step(t, op)) <==> forall p :: p in MakeRoom(t).heap ==> !SameKey(t.heap[p], e)
    ensures FilterMatch(t.env, op.res.bssid) ==> UniqueKeys(Step(t, op))
  {
    var a, e := op.alloc.value, Entered(t, op);
    MakeRoomAllocated(t, a, e);
    RoomIsSubset(t);
    HitIsLive(t, op);
    assert Step(t, op).heap == MakeRoom(t).heap[a := e];
    hide Step, MakeRoom, Valid, Applicable, Lookup;
    if UniqueKeys(Step(t, op)) {
      forall p | p in MakeRoom(t).heap ensures !SameKey(t.heap[p], e) {
        assert SameKey(Step(t, op).heap[p], Step(t, op).heap[a]) == SameKey(t.heap[p], e);
      }
    }
    if forall p :: p in MakeRoom(t).heap ==> !SameKey(t.heap[p], e) {
      forall p, q | p in Step(t, op).heap && q in Step(t, op).heap && SameKey(Step(t, op).heap[p], Step(t, op).heap[q])
        ensures p == q
      {
        if p != a && q != a {
          assert SameKey(t.heap[p], t.heap[q]);
        }
      }
    }
  }
}

/**
 Flushing by age. The flush stops at the first young entry it may remove, which is a full filter as long as
 the update order is also a time order; results that arrive in time order make it one.
 */
module BssAge {
  import opened Seqs
  import opened RelTimes
  import opened Macs
  import opened BssModel
  import opened BssInvariant
  import opened BssRuns
  import opened BssHistory

  /** What the flush is meant to remove: an entry not in use, and not updated since the cut-off. */
  predicate IsOld(t: Table, cutoff: Time, p: Ptr) {
    p in t.heap && !InUse(t, p) && Before(t.heap[p].lastUpdate, cutoff)
  }

  function Old(t: Table, cutoff: Time): set<Ptr> {
    set p | p in t.heap && IsOld(t, cutoff, p)
  }

  predicate IsYoung(t: Table, cutoff: Time, p: Ptr) {
    p in t.heap && !InUse(t, p) && !Before(t.heap[p].lastUpdate, cutoff)
  }

  /** No old entry stands behind a young one. */
  ghost predicate OldFirst(t: Table, s: seq<Ptr>, cutoff: Time) {
    forall i, j :: 0 <= i < j < |s| && IsYoung(t, cutoff, s[i]) ==> !IsOld(t, cutoff, s[j])
  }

  lemma {:induction false} AgedRunExact(t: Table, s: seq<Ptr>, cutoff: Time)
    requires NoDup(s) && forall p :: p in s ==> p in t.heap
    ensures (forall p :: p in s && IsOld(t, cutoff, p) ==> p in AgedRun(t, s, cutoff)) <==> OldFirst(t, s, cutoff)
  {
    hide InUse;
    if s != [] {
      var rest := s[1..];
      assert s == [s[0]] + rest;
      AgedRunExact(t, rest, cutoff);
      AgedAreUnused(t, rest, cutoff);
      OldFirstTail(t, s, cutoff);
      if IsYoung(t, cutoff, s[0]) {
        assert AgedRun(t, s, cutoff) == {};
        assert (forall p :: p in s && IsOld(t, cutoff, p) ==> false) <==> forall j :: 0 < j < |s| ==> !IsOld(t, cutoff, s[j]);
      } else {
        assert forall p :: p in s && IsOld(t, cutoff, p) ==> p == s[0] || p in rest;
        assert s[0] !in rest;
        assert IsOld(t, cutoff, s[0]) ==> s[0] in AgedRun(t, s, cutoff);
        assert forall p :: p in rest ==> (p in AgedRun(t, s, cutoff) <==> p in AgedRun(t, rest, cutoff));
      }
    }
  }

  lemma OldFirstTail(t: Table, s: seq<Ptr>, cutoff: Time)
    requires s != []
    ensures OldFirst(t, s, cutoff) <==>
              OldFirst(t, s[1..], cutoff) && (IsYoung(t, cutoff, s[0]) ==> forall j :: 0 < j < |s| ==> !IsOld(t, cutoff, s[j]))
  {
    var rest := s[1..];
    if OldFirst(t, s, cutoff) {
      forall i, j | 0 <= i < j < |rest| && IsYoung(t, cutoff, rest[i]) ensures !IsOld(t, cutoff, rest[j]) {
        assert rest[i] == s[i + 1] && rest[j] == s[j + 1];
      }
    }
    if OldFirst(t, rest, cutoff) && (IsYoung(t, cutoff, s[0]) ==> forall j :: 0 < j < |s| ==> !IsOld(t, cutoff, s[j])) {
      forall i, j | 0 <= i < j < |s| && IsYoung(t, cutoff, s[i]) ensures !IsOld(t, cutoff, s[j]) {
        if i > 0 {
          assert s[i] == rest[i - 1] && s[j] == rest[j - 1];
        }
      }
    }
  }

  lemma AgedIsOld(t: Table, cutoff: Time)
    requires Valid(t)
    ensures AgedRun(t, t.bss, cutoff) <= Old(t, cutoff)
    ensures AgedRun(t, t.bss, cutoff) == Old(t, cutoff) <==> OldFirst(t, t.bss, cutoff)
  {
    hide AgedRun, InUse;
    AgedRunExact(t, t.bss, cutoff);
    AgedAreUnused(t, t.bss, cutoff);
    assert forall p :: p in Old(t, cutoff) <==> p in t.bss && IsOld(t, cutoff, p);
  }

  /** The early exit removes old entries only, and it removes all of them exactly when none stands behind a young one. */
  lemma EarlyExitExact(t: Table, age: int, now: Time)
    requires Valid(t)
    ensures t.heap.Keys - Old(t, Cutoff(now, age)) <= FlushedByAge(t, age, now).heap.Keys
    ensures FlushedByAge(t, age, now) == Restrict(t, t.heap.Keys - Old(t, Cutoff(now, age)))
            <==> OldFirst(t, t.bss, Cutoff(now, age))
  {
    var cutoff := Cutoff(now, age);
    var aged, old' := AgedRun(t, t.bss, cutoff), Old(t, cutoff);
    AgedIsOld(t, cutoff);
    hide AgedRun, Valid, OldFirst, Restrict, Old;
    assert old' <= t.heap.Keys by { OldIsLive(t, cutoff); }
    RestrictDecides(t, aged, old');
  }

  lemma OldIsLive(t: Table, cutoff: Time)
    ensures Old(t, cutoff) <= t.heap.Keys
  {
  }

  /** What is left tells what was removed. */
  lemma RestrictDecides(t: Table, a: set<Ptr>, b: set<Ptr>)
    requires a <= b <= t.heap.Keys
    ensures Restrict(t, t.heap.Keys - a).heap.Keys == t.heap.Keys - a
    ensures Restrict(t, t.heap.Keys - a) == Restrict(t, t.heap.Keys - b) <==> a == b
  {
    hide Keep, DropWork;
    assert Restrict(t, t.heap.Keys - b).heap.Keys == t.heap.Keys - b;
    if a != b {
      var p :| p in b && p !in a;
      assert p in t.heap.Keys - a && p !in t.heap.Keys - b;
    }
  }

  /**
   It does leave old entries in a run: with one result received now and, after it, one received a hundred seconds
   ago, flushing what is older than fifty seconds removes nothing.
   */
  lemma OldEntryStaysExample() returns (states: seq<Table>, ops: seq<Op>, now: Time, p: Ptr)
    ensures Run(states, ops) && |ops| == 2
    ensures p in Old(states[2], Cutoff(now, 50)) && p in FlushedByAge(states[2], 50, now).heap
  {
    now, p := RelTime(1000, 0), 2;
    var env := Env([], ZERO, ZERO, ZERO, ZERO, None, false, RelTime(0, 0), false);
    var t0 := Table(map[], [], [], 0, [], 0, None, NoWork, 0, 0, 9, 2, env);
    var recent, late := ResultOf(1, now, 0), ResultOf(2, now, 100000);
    var t1 := Step(t0, recent);
    EnterFirst(t0, recent);
    var t2 := Step(t1, late);
    EnterSecond(t1, late);
    states, ops := [t0, t1, t2], [recent, late];
    hide Step, Legal;
    assert Run(states, ops);
    YoungStops(t2, Cutoff(now, 50));
  }

  /** A result for access point number `k`, and memory at `k` for it. */
  function ResultOf(k: Byte, fetch: Time, age: nat): Op {
    var radio := Radio(false, 0, 2412, 100, 0, 0, 0, 0, 0, 0, 0);
    Result(ScanRes([2, 0, 0, 0, 0, k], radio, age, Ies(6, Some([104, 111, 109, 101]), None, false, None, NoWps)), fetch, Some(k as int))
  }

  /** Nobody is associated, and the table has room. */
  predicate Idle(t: Table) {
    && t.current.None? && t.numBss < t.maxCount
    && t.env == Env([], ZERO, ZERO, ZERO, ZERO, None, false, RelTime(0, 0), false)
  }

  lemma EnterFirst(t: Table, op: Op)
    requires Idle(t) && Fresh(t) && t.maxCount == 9 && op == ResultOf(1, RelTime(1000, 0), 0)
    ensures Legal(t, op)
    ensures var t' := Step(t, op);
            && Idle(t') && t'.bss == [1] && t'.heap.Keys == {1} && t'.numBss == 1 && t'.maxCount == 9
            && t'.heap[1].bssid == [2, 0, 0, 0, 0, 1] && t'.heap[1].lastUpdate == RelTime(1000, 0)
  {
    assert Inserts(t, op) && !Full(t);
  }

  lemma EnterSecond(t: Table, op: Op)
    requires Idle(t) && t.bss == [1] && t.heap.Keys == {1} && t.numBss == 1 && t.maxCount == 9
    requires t.heap[1].bssid == [2, 0, 0, 0, 0, 1] && t.heap[1].lastUpdate == RelTime(1000, 0)
    requires op == ResultOf(2, RelTime(1000, 0), 100000)
    ensures Legal(t, op)
    ensures var t' := Step(t, op);
            && Idle(t') && t'.bss == [1, 2] && t'.heap.Keys == {1, 2}
            && t'.heap[1] == t.heap[1]
            && t'.heap[2].bssid == [2, 0, 0, 0, 0, 2] && t'.heap[2].lastUpdate == RelTime(900, 0)
  {
    assert op.res.bssid[5] == 2 && t.heap[1].bssid[5] == 1;
    assert !HasKey(t.heap[1], op.res.bssid, op.res.ies.ssid.value);
    assert Inserts(t, op) && !Full(t);
  }

  lemma YoungStops(t: Table, cutoff: Time)
    requires Idle(t) && t.bss == [1, 2] && t.heap.Keys == {1, 2} && cutoff == RelTime(950, 0)
    requires t.heap[1].bssid == [2, 0, 0, 0, 0, 1] && t.heap[1].lastUpdate == RelTime(1000, 0)
    requires t.heap[2].bssid == [2, 0, 0, 0, 0, 2] && t.heap[2].lastUpdate == RelTime(900, 0)
    ensures 2 in Old(t, cutoff) && AgedRun(t, t.bss, cutoff) == {}
  {
    assert t.heap[1].bssid[0] == 2 && t.heap[2].bssid[0] == 2 && ZERO[0] == 0;
  }

  // ---- Time order over runs ----

  /** Results arrive in the order in which they were received over the air. */
  ghost predicate InTimeOrder(ops: seq<Op>) {
    forall i, j :: 0 <= i < j < |ops| && ops[i].Result? && ops[j].Result? ==>
      UpdateTime(ops[i].fetch, ops[i].res.age).Us() <= UpdateTime(ops[j].fetch, ops[j].res.age).Us()
  }

  /** Then the update order is a time order in every state of the run. */
  lemma TimeOrder(states: seq<Table>, ops: seq<Op>, n: nat, i: int, j: int)
    requires Run(states, ops) && InTimeOrder(ops) && n <= |ops| && 0 <= i < j < |states[n].bss|
    ensures Valid(states[n])
    ensures states[n].heap[states[n].bss[i]].lastUpdate.Us() <= states[n].heap[states[n].bss[j]].lastUpdate.Us()
  {
    hide Run, Step, Valid, Legal, Touches, LastTouch;
    RunShape(states, ops);
    UpdateOrder(states, ops, n, i, j);
    ListIsLive(states[n], i);
    ListIsLive(states[n], j);
    TouchedBy(states, ops, n, states[n].bss[i]);
    TouchedBy(states, ops, n, states[n].bss[j]);
  }

  /** And an age flush removes exactly the old entries. */
  lemma FlushByAgeExact(states: seq<Table>, ops: seq<Op>, n: nat, age: int, now: Time)
    requires Run(states, ops) && InTimeOrder(ops) && n <= |ops|
    ensures FlushedByAge(states[n], age, now)
            == Restrict(states[n], states[n].heap.Keys - Old(states[n], Cutoff(now, age)))
  {
    hide Run, Valid, InTimeOrder, InUse, FlushedByAge, Restrict;
    RunShape(states, ops);
    RunValid(states, ops, n);
    var t, cutoff := states[n], Cutoff(now, age);
    assert OldFirst(t, t.bss, cutoff) by {
      forall i, j | 0 <= i < j < |t.bss| && IsYoung(t, cutoff, t.bss[i]) ensures !IsOld(t, cutoff, t.bss[j]) {
        TimeOrder(states, ops, n, i, j);
        ListIsLive(t, i);
        ListIsLive(t, j);
        BeforeIsLess(t.heap[t.bss[i]].lastUpdate, cutoff);
        BeforeIsLess(t.heap[t.bss[j]].lastUpdate, cutoff);
      }
    }
    EarlyExitExact(t, age, now);
  }
}

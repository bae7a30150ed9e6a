/**
 What an entry's fields say about the past of its run: when it was last updated, how many rounds it missed
 since, and which of several results in one round it stands for. Entries are followed by id, which is never
 reused, so an entry that was evicted and entered again starts a new history.
 */
module BssHistory {
  import opened Seqs
  import opened RelTimes
  import opened BssModel
  import opened BssInvariant
  import opened BssRuns

  // ---- What one step does to one entry ----

  function After(t: Table, op: Op, p: Ptr): Bss
    requires p in t.heap
  {
    if Overwrites(t, op, p) then Refreshed(t, t.heap[p], op.res, op.fetch, op.alloc)
    else if op.End? && Completed(op.info, op.newScan) then t.heap[p].(miss := MissAfter(t, p, op.info))
    else t.heap[p]
  }

  function Entered(t: Table, op: Op): Bss
    requires Inserts(t, op)
  {
    NewEntry(t, Applicable(t.env, op.res, op.fetch).value, op.res, op.fetch)
  }

  /** Where a surviving entry lives after the step. */
  function Home(t: Table, op: Op, p: Ptr): Ptr
    requires p in t.heap
  {
    if Overwrites(t, op, p) then NewHome(t.heap[p], p, op.res, op.alloc) else p
  }

  /** `p'` holds, after a step, the entry that was at `p` before it. */
  predicate Comes(t: Table, op: Op, t': Table, p: Ptr, p': Ptr) {
    && p in t.heap && p' in t'.heap
    && p' == Home(t, op, p) && t'.heap[p'] == After(t, op, p)
  }

  predicate IsNew(t: Table, op: Op, t': Table, p': Ptr) {
    Inserts(t, op) && p' == op.alloc.value && p' in t'.heap && t'.heap[p'] == Entered(t, op)
  }

  /** Every entry after a step is an old entry, changed as `After` says, or the one just entered. */
  lemma StepEntry(t: Table, op: Op, p': Ptr) returns (origin: Option<Ptr>)
    requires Valid(t) && Legal(t, op) && p' in Step(t, op).heap
    ensures origin.None? ==> IsNew(t, op, Step(t, op), p')
    ensures origin.Some? ==> Comes(t, op, Step(t, op), origin.value, p')
  {
    hide Step, Comes, IsNew, Legal, Valid;
    if Inserts(t, op) {
      origin := InsertEntry(t, op, p');
    } else if op.Result? && Hit(t, op).Some? {
      origin := HitEntry(t, op, Hit(t, op).value, p');
    } else {
      PlainEntry(t, op, p');
      origin := Some(p');
    }
  }

  lemma PlainEntry(t: Table, op: Op, p': Ptr)
    requires Valid(t) && !Inserts(t, op) && Hit(t, op).None? && p' in Step(t, op).heap
    ensures Comes(t, op, Step(t, op), p', p')
  {
  }

  lemma InsertEntry(t: Table, op: Op, p': Ptr) returns (origin: Option<Ptr>)
    requires Valid(t) && Legal(t, op) && Inserts(t, op) && p' in Step(t, op).heap
    ensures origin.None? ==> IsNew(t, op, Step(t, op), p')
    ensures origin.Some? ==> Comes(t, op, Step(t, op), origin.value, p')
  {
    InsertValid(t, op);
    RoomIsSubset(t);
    InsertedIsNew(t, op);
    origin := if p' == op.alloc.value then None else Some(p');
    hide Valid, Legal, Step, MakeRoom, Lookup, Applicable, Hit, NewEntry;
  }

  lemma HitEntry(t: Table, op: Op, p: Ptr, p': Ptr) returns (origin: Option<Ptr>)
    requires Valid(t) && op.Result? && Legal(t, op) && Hit(t, op) == Some(p) && p' in Step(t, op).heap
    ensures origin.Some? && Comes(t, op, Step(t, op), origin.value, p')
  {
    hide Valid, Legal, Step, Refreshed, Applicable, Lookup, Outdated, NewHome, Hit;
    HitIsLive(t, op);
    if Overwrites(t, op, p) {
      OverwriteHeap(t, op, p);
      origin := Some(if p' == Home(t, op, p) then p else p');
    } else {
      OutdatedHeap(t, op, p);
      origin := Some(p');
    }
  }

  lemma OutdatedHeap(t: Table, op: Op, p: Ptr)
    requires Hit(t, op) == Some(p) && p in t.heap && !Overwrites(t, op, p)
    ensures Step(t, op).heap == t.heap
  {
  }

  lemma OverwriteHeap(t: Table, op: Op, p: Ptr)
    requires Valid(t) && Legal(t, op) && Overwrites(t, op, p)
    ensures Step(t, op).heap == (t.heap - {p})[Home(t, op, p) := After(t, op, p)]
    ensures Home(t, op, p) == p || Home(t, op, p) !in t.heap
  {
    OverwriteValid(t, op, p);
    HomeIsFree(t, op, p);
    RelocatedHeap(t, p, After(t, op, p), Home(t, op, p));
    hide Step, Valid, Legal, Rename, Note, Refresh;
  }

  lemma HomeIsFree(t: Table, op: Op, p: Ptr)
    requires Legal(t, op) && Overwrites(t, op, p)
    ensures Home(t, op, p) == p || Home(t, op, p) !in t.heap
  {
  }

  lemma RelocatedHeap(t: Table, p: Ptr, e: Bss, n: Ptr)
    requires p in t.heap && (n == p || n !in t.heap)
    ensures Rename(Note(Refresh(t, p, e), p), p, n).heap == (t.heap - {p})[n := e]
  {
  }

  lemma StepKeeps(t: Table, op: Op, p: Ptr)
    requires Valid(t) && Legal(t, op) && p in t.heap && Home(t, op, p) in Step(t, op).heap
    ensures Step(t, op).heap[Home(t, op, p)] == After(t, op, p)
  {
    var origin := StepEntry(t, op, Home(t, op, p));
    HitIsLive(t, op);
  }

  // ---- Touching an entry ----

  /** The op enters the entry with id `d`, or overwrites it. */
  predicate Touches(t: Table, op: Op, d: nat) {
    || (Inserts(t, op) && t.nextId == d)
    || (Hit(t, op).Some? && Overwrites(t, op, Hit(t, op).value) && t.heap[Hit(t, op).value].id == d)
  }

  /** One more than the number of the op that last touched `d` before state `n`; 0 if none did. */
  ghost function LastTouch(states: seq<Table>, ops: seq<Op>, n: nat, d: nat): (k: nat)
    requires |states| == |ops| + 1 && n <= |ops|
    ensures k <= n
    ensures k > 0 ==> Touches(states[k - 1], ops[k - 1], d)
    ensures forall i :: k <= i < n ==> !Touches(states[i], ops[i], d)
  {
    if n == 0 then 0
    else if Touches(states[n - 1], ops[n - 1], d) then n
    else LastTouch(states, ops, n - 1, d)
  }

  lemma UntouchedOrigin(t: Table, op: Op, p: Ptr)
    requires Valid(t) && p in t.heap
    ensures Touches(t, op, t.heap[p].id) <==> Overwrites(t, op, p)
  {
    HitIsLive(t, op);
    if Hit(t, op).Some? && t.heap[Hit(t, op).value].id == t.heap[p].id {
      IdsAreUnique(t, Hit(t, op).value, p);
    }
  }

  /** `e` tells the same story as `f`: the same entry, last updated by the same result. */
  predicate SameSighting(e: Bss, f: Bss) {
    e.id == f.id && e.radio == f.radio && e.lastUpdate == f.lastUpdate && e.lastIdx == f.lastIdx
  }

  predicate Records(t: Table, op: Op, e: Bss) {
    && op.Result?
    && e.radio == op.res.radio
    && e.lastUpdate == UpdateTime(op.fetch, op.res.age)
    && e.lastIdx == t.updateIdx
  }

  /** A touched entry records the op; any other is what it was, where it was. */
  lemma TouchEffect(t: Table, op: Op, p: Ptr)
    requires Valid(t) && Legal(t, op) && p in Step(t, op).heap
    ensures var e := Step(t, op).heap[p];
            if Touches(t, op, e.id) then Records(t, op, e)
            else p in t.heap && SameSighting(e, t.heap[p])
  {
    var origin := StepEntry(t, op, p);
    hide Step;
    if origin.Some? {
      UntouchedOrigin(t, op, origin.value);
    }
  }

  /** An entry carries the radio data and time of the result that last touched it, which exists. */
  lemma {:induction false} TouchedBy(states: seq<Table>, ops: seq<Op>, n: nat, p: Ptr)
    requires Run(states, ops) && n <= |ops| && p in states[n].heap
    ensures var k := LastTouch(states, ops, n, states[n].heap[p].id);
            0 < k && Records(states[k - 1], ops[k - 1], states[n].heap[p])
  {
    hide Run, Step, Valid, Legal, Touches;
    RunShape(states, ops);
    if n > 0 {
      RunStep(states, ops, n - 1);
      TouchEffect(states[n - 1], ops[n - 1], p);
      if !Touches(states[n - 1], ops[n - 1], states[n].heap[p].id) {
        TouchedBy(states, ops, n - 1, p);
      }
    }
  }

  // ---- Update order ----

  /** How the update order after a step relates to the order before: only a touched entry moves, to the end. */
  lemma StepOrder(t: Table, op: Op, i: int, j: int) returns (i': int, j': int)
    requires Valid(t) && Legal(t, op) && 0 <= i < j < |Step(t, op).bss|
    ensures 0 <= i' < |t.bss| && t.bss[i'] == Step(t, op).bss[i] && !Overwrites(t, op, t.bss[i'])
    ensures var q := Step(t, op).bss[j];
            || (i' < j' < |t.bss| && t.bss[j'] == q && !Overwrites(t, op, q))
            || (exists p :: p in t.heap && Overwrites(t, op, p) && q == Home(t, op, p))
            || (Inserts(t, op) && q == op.alloc.value)
  {
    if op.Result? {
      HitIsLive(t, op);
      var hit := Hit(t, op);
      if hit.Some? && Overwrites(t, op, hit.value) {
        OverwriteValid(t, op, hit.value);
        i', j' := OverwriteOrder(t, op, hit.value, i, j);
        return;
      } else if Inserts(t, op) {
        InsertValid(t, op);
        i', j' := InsertOrder(t, op, i, j);
        return;
      }
    }
    i', j' := PlainOrder(t, op, i, j);
  }

  lemma OverwriteOrder(t: Table, op: Op, p: Ptr, i: int, j: int) returns (i': int, j': int)
    requires Valid(t) && Legal(t, op) && Overwrites(t, op, p)
    requires 0 <= i < j < |Step(t, op).bss|
    ensures 0 <= i' < |t.bss| && t.bss[i'] == Step(t, op).bss[i] && t.bss[i'] != p
    ensures (i' < j' < |t.bss| && t.bss[j'] == Step(t, op).bss[j] && t.bss[j'] != p) || Step(t, op).bss[j] == Home(t, op, p)
  {
    assert p in t.heap;
    hide Valid, Legal, Overwrites, Step, Home, Subst, Keep;
    OverwriteList(t, op, p);
    i', j' := MovedOrder(t.bss, p, Home(t, op, p), i, j);
  }

  /** Moving an element last, under a new name, keeps the order of all others. */
  lemma MovedOrder(s: seq<Ptr>, p: Ptr, n: Ptr, i: int, j: int) returns (i': int, j': int)
    requires var r := Subst(Keep(s, Elems(s) - {p}) + [p], p, n); 0 <= i < j < |r|
    ensures var r := Subst(Keep(s, Elems(s) - {p}) + [p], p, n);
            && 0 <= i' < |s| && s[i'] == r[i] && s[i'] != p
            && ((i' < j' < |s| && s[j'] == r[j] && s[j'] != p) || r[j] == n)
  {
    var keep := Elems(s) - {p};
    var rest := Keep(s, keep);
    assert rest[i] in rest;
    if j < |rest| {
      i', j' := KeepOrder(s, keep, i, j);
      assert rest[j] in rest;
    } else {
      i' :| 0 <= i' < |s| && s[i'] == rest[i];
      j' := i';
    }
  }

  lemma OverwriteList(t: Table, op: Op, p: Ptr)
    requires Valid(t) && Legal(t, op) && Overwrites(t, op, p)
    ensures Step(t, op).bss == Subst(Keep(t.bss, Elems(t.bss) - {p}) + [p], p, Home(t, op, p))
  {
    OverwriteValid(t, op, p);
    hide Valid, Legal, Step, Overwrites, Refreshed;
  }

  lemma InsertOrder(t: Table, op: Op, i: int, j: int) returns (i': int, j': int)
    requires Valid(t) && Legal(t, op) && Inserts(t, op)
    requires 0 <= i < j < |Step(t, op).bss|
    ensures 0 <= i' < |t.bss| && t.bss[i'] == Step(t, op).bss[i]
    ensures (i' < j' < |t.bss| && t.bss[j'] == Step(t, op).bss[j]) || Step(t, op).bss[j] == op.alloc.value
  {
    hide Valid, Legal, Step, MakeRoom, NewEntry;
    InsertValid(t, op);
    var s := MakeRoom(t).bss;
    assert Step(t, op).bss == s + [op.alloc.value];
    var keep := MakeRoomKeeps(t);
    assert s[i] in s;
    if j < |s| {
      i', j' := KeepOrder(t.bss, keep, i, j);
    } else {
      i' :| 0 <= i' < |t.bss| && t.bss[i'] == s[i];
      j' := i';
    }
  }

  lemma MakeRoomKeeps(t: Table) returns (keep: set<Ptr>)
    requires Valid(t)
    ensures MakeRoom(t).bss == Keep(t.bss, keep)
  {
    if Full(t) && Victim(t).Some? {
      keep := t.heap.Keys - {Victim(t).value};
    } else {
      keep := t.heap.Keys;
      KeepAll(t.bss, keep);
    }
  }

  lemma PlainOrder(t: Table, op: Op, i: int, j: int) returns (i': int, j': int)
    requires Valid(t) && Legal(t, op) && !Inserts(t, op)
    requires Hit(t, op).Some? ==> !Overwrites(t, op, Hit(t, op).value)
    requires 0 <= i < j < |Step(t, op).bss|
    ensures 0 <= i' < j' < |t.bss| && t.bss[i'] == Step(t, op).bss[i] && t.bss[j'] == Step(t, op).bss[j]
  {
    match op
    case End(info, newScan) =>
      if Completed(info, newScan) {
        i', j' := KeepOrder(t.bss, Unexpired(t, info), i, j);
      } else {
        i', j' := i, j;
      }
    case Flush => i', j' := KeepOrder(t.bss, (set p | p in t.heap && InUse(t, p)), i, j);
    case FlushByAge(age, now) =>
      i', j' := KeepOrder(t.bss, t.heap.Keys - AgedRun(t, t.bss, Cutoff(now, age)), i, j);
    case Remove(p) => i', j' := KeepOrder(t.bss, t.heap.Keys - {p}, i, j);
    case _ => i', j' := i, j;
  }

  /** The update list is ordered by when its entries were last touched, strictly, in every state of every run. */
  lemma {:induction false} UpdateOrder(states: seq<Table>, ops: seq<Op>, n: nat, i: int, j: int)
    requires Run(states, ops) && n <= |ops| && 0 <= i < j < |states[n].bss|
    ensures Valid(states[n])
    ensures var t := states[n];
            LastTouch(states, ops, n, t.heap[t.bss[i]].id) < LastTouch(states, ops, n, t.heap[t.bss[j]].id)
  {
    hide Run, Step, Valid, Legal, Touches;
    RunShape(states, ops);
    RunValid(states, ops, n);
    ListIsLive(states[n], i);
    ListIsLive(states[n], j);
    if n > 0 {
      RunStep(states, ops, n - 1);
      var i', j' := TouchOrder(states[n - 1], ops[n - 1], i, j);
      if !Touches(states[n - 1], ops[n - 1], states[n].heap[states[n].bss[j]].id) {
        UpdateOrder(states, ops, n - 1, i', j');
        ListIsLive(states[n - 1], i');
        ListIsLive(states[n - 1], j');
      }
    }
  }

  lemma ListIsLive(t: Table, i: int)
    requires Valid(t) && 0 <= i < |t.bss|
    ensures t.bss[i] in t.heap
  {
    assert t.bss[i] in t.bss;
  }

  /** A step keeps the relative order of untouched entries and puts a touched one last. */
  lemma TouchOrder(t: Table, op: Op, i: int, j: int) returns (i': int, j': int)
    requires Valid(t) && Legal(t, op)
    requires var t' := Step(t, op); 0 <= i < j < |t'.bss| && t'.bss[i] in t'.heap && t'.bss[j] in t'.heap
    ensures var t' := Step(t, op);
            && !Touches(t, op, t'.heap[t'.bss[i]].id)
            && (|| Touches(t, op, t'.heap[t'.bss[j]].id)
                || (&& 0 <= i' < j' < |t.bss|
                    && t.heap[t.bss[i']].id == t'.heap[t'.bss[i]].id
                    && t.heap[t.bss[j']].id == t'.heap[t'.bss[j]].id))
  {
    i', j' := StepOrder(t, op, i, j);
    var t' := Step(t, op);
    var p', q' := t'.bss[i], t'.bss[j];
    assert t.bss[i'] in t.bss;
    StepKeeps(t, op, p');
    UntouchedOrigin(t, op, p');
    hide Step, Valid, Legal;
    if i' < j' < |t.bss| && t.bss[j'] == q' && !Overwrites(t, op, q') {
      assert t.bss[j'] in t.bss;
      StepKeeps(t, op, q');
    } else if q :| q in t.heap && Overwrites(t, op, q) && q' == Home(t, op, q) {
      StepKeeps(t, op, q);
    } else {
      var origin := InsertEntry(t, op, q');
      InsertedIsNew(t, op);
    }
  }

  lemma InsertedIsNew(t: Table, op: Op)
    requires Valid(t) && Legal(t, op) && Inserts(t, op)
    ensures op.alloc.value !in t.heap
  {
  }
}

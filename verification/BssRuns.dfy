/**
 Runs of the BSS table: any sequence of table operations and outside events, from an empty table.
 The invariant holds in every state of every run, and the entries keep exact books on what happened to them.
 */
module BssRuns {
  import opened Seqs
  import opened RelTimes
  import opened BssModel
  import opened BssInvariant

  datatype Op =
    | Start
    | Result(res: ScanRes, fetch: Time, alloc: Option<Ptr>)
    | End(info: Option<Info>, newScan: bool)
    | Flush
    | FlushByAge(age: int, now: Time)
    | Remove(p: Ptr)
    // outside events: association, radio work and configuration
    | SetCurrent(c: Option<Ptr>)
    | SetPending(w: Work)
    | Configure(env: Env)
    | SetMaximum(max: int)

  function Step(t: Table, op: Op): Table {
    match op
    case Start => Started(t)
    case Result(res, fetch, alloc) => Scanned(t, res, fetch, alloc)
    case End(info, newScan) => Ended(t, info, newScan)
    case Flush => Flushed(t)
    case FlushByAge(age, now) => FlushedByAge(t, age, now)
    case Remove(p) => Removed(t, p)
    case SetCurrent(c) => t.(current := c)
    case SetPending(w) => t.(pending := w)
    case Configure(env) => t.(env := env)
    case SetMaximum(max) => t.(maxCount := max)
  }

  /** The entry an op finds in the table for its scan result. */
  function Hit(t: Table, op: Op): Option<Ptr> {
    if op.Result? && Applicable(t.env, op.res, op.fetch).Some?
    then Lookup(t, op.res.bssid, Applicable(t.env, op.res, op.fetch).value)
    else None
  }

  /** The op enters a new entry, at address `op.alloc.value`. */
  predicate Inserts(t: Table, op: Op) {
    && op.Result? && Applicable(t.env, op.res, op.fetch).Some?
    && Hit(t, op).None? && op.alloc.Some?
  }

  /** The op overwrites the entry at `p`. */
  predicate Overwrites(t: Table, op: Op, p: Ptr) {
    Hit(t, op) == Some(p) && p in t.heap && !Outdated(t, p, op.res, op.fetch)
  }

  /**
   What callers owe the table: results pass the BSSID filter; the allocator never hands out a live address
   (reallocation may answer the old one); an entry is only removed from outside after the current entry was
   let go; references are only set to live entries; and the maximum is not set below the number of entries.
   */
  predicate CallersSide(t: Table, op: Op) {
    match op
    case Result(res, fetch, alloc) =>
      FilterMatch(t.env, res.bssid) && (alloc.Some? ==> alloc.value !in t.heap || Hit(t, op) == alloc)
    case Remove(p) => p in t.heap && t.current != Some(p)
    case SetCurrent(c) => c.Some? ==> c.value in t.heap
    case SetPending(w) => w.Work? && w.bss.Some? ==> w.bss.value in t.heap
    case SetMaximum(max) => t.numBss <= max
    case _ => true
  }

  /** And the one thing that the table itself does not see to: an eviction does not pick the current entry. */
  predicate Legal(t: Table, op: Op) {
    CallersSide(t, op) && (Inserts(t, op) ==> !EvictsCurrent(t))
  }

  predicate Fresh(t: Table) {
    && t.heap == map[] && t.bss == [] && t.bssId == [] && t.numBss == 0 && t.lastRes == []
    && t.current.None? && t.pending == NoWork
    && 0 <= t.maxCount && 0 < t.expireCount
  }

  /** `states` is what a table goes through under the operations `ops`, starting empty. */
  ghost predicate Run(states: seq<Table>, ops: seq<Op>) {
    && |states| == |ops| + 1
    && Fresh(states[0])
    && forall i :: 0 <= i < |ops| ==> Legal(states[i], ops[i]) && states[i + 1] == Step(states[i], ops[i])
  }

  // ---- The invariant over runs ----

  lemma HitIsLive(t: Table, op: Op)
    requires Valid(t)
    ensures Hit(t, op).Some? ==>
              && Hit(t, op).value in t.heap
              && HasKey(t.heap[Hit(t, op).value], op.res.bssid, Applicable(t.env, op.res, op.fetch).value)
    ensures op.Result? && Applicable(t.env, op.res, op.fetch).Some? && Hit(t, op).None? && FilterMatch(t.env, op.res.bssid) ==>
              forall p :: p in t.heap ==> !HasKey(t.heap[p], op.res.bssid, Applicable(t.env, op.res, op.fetch).value)
  {
  }

  lemma ScannedValid(t: Table, op: Op)
    requires Valid(t) && op.Result? && Legal(t, op)
    ensures Valid(Step(t, op))
  {
    HitIsLive(t, op);
    var hit := Hit(t, op);
    if hit.Some? {
      if Overwrites(t, op, hit.value) {
        OverwriteValid(t, op, hit.value);
      }
    } else if Inserts(t, op) {
      InsertValid(t, op);
    }
  }

  lemma OverwriteValid(t: Table, op: Op, p: Ptr)
    requires Valid(t) && Legal(t, op) && Overwrites(t, op, p)
    ensures Valid(Step(t, op))
    ensures var e := Refreshed(t, t.heap[p], op.res, op.fetch, op.alloc);
            Step(t, op) == Rename(Note(Refresh(t, p, e), p), p, NewHome(t.heap[p], p, op.res, op.alloc))
  {
    HitIsLive(t, op);
    var e := Refreshed(t, t.heap[p], op.res, op.fetch, op.alloc);
    var n := NewHome(t.heap[p], p, op.res, op.alloc);
    RefreshValid(t, p, e);
    NoteRename(Refresh(t, p, e), p, n);
    RenameValid(Note(Refresh(t, p, e), p), p, n);
  }

  lemma InsertValid(t: Table, op: Op)
    requires Valid(t) && Legal(t, op) && Inserts(t, op)
    ensures Valid(Step(t, op))
    ensures var e := NewEntry(t, Applicable(t.env, op.res, op.fetch).value, op.res, op.fetch);
            Step(t, op) == Note(Link(Allocated(MakeRoom(t), op.alloc.value, e), op.alloc.value), op.alloc.value)
  {
    HitIsLive(t, op);
    var e := NewEntry(t, Applicable(t.env, op.res, op.fetch).value, op.res, op.fetch);
    MakeRoomValid(t);
    MakeRoomAllocated(t, op.alloc.value, e);
    AppendValid(MakeRoom(t), op.alloc.value, e);
  }

  lemma StepValid(t: Table, op: Op)
    requires Valid(t) && Legal(t, op)
    ensures Valid(Step(t, op))
  {
    match op
    case Start => StartedValid(t);
    case Result(_, _, _) => ScannedValid(t, op);
    case End(info, newScan) => EndedValid(t, info, newScan);
    case Flush => RestrictValid(t, set p | p in t.heap && InUse(t, p));
    case FlushByAge(age, now) =>
      AgedAreUnused(t, t.bss, Cutoff(now, age));
      RestrictValid(t, t.heap.Keys - AgedRun(t, t.bss, Cutoff(now, age)));
    case Remove(p) => RestrictValid(t, t.heap.Keys - {p});
    case _ =>
  }

  lemma StartedValid(t: Table)
    requires Valid(t)
    ensures Valid(Started(t))
  {
  }

  lemma {:induction false} AgedAreUnused(t: Table, s: seq<Ptr>, cutoff: Time)
    ensures forall p :: p in AgedRun(t, s, cutoff) ==>
              p in s && p in t.heap && !InUse(t, p) && Before(t.heap[p].lastUpdate, cutoff)
  {
    if s != [] {
      AgedAreUnused(t, s[1..], cutoff);
    }
  }

  /** Every state of every run satisfies the invariant; in particular no reference ever dangles. */
  lemma {:induction false} RunValid(states: seq<Table>, ops: seq<Op>, n: nat)
    requires Run(states, ops) && n <= |ops|
    ensures Valid(states[n])
  {
    if n > 0 {
      hide Step, Legal;
      RunValid(states, ops, n - 1);
      StepValid(states[n - 1], ops[n - 1]);
    }
  }

  lemma RunStep(states: seq<Table>, ops: seq<Op>, n: nat)
    requires Run(states, ops) && n < |ops|
    ensures Valid(states[n]) && Legal(states[n], ops[n]) && states[n + 1] == Step(states[n], ops[n])
    ensures Valid(states[n + 1])
  {
    hide Valid, Legal, Step, Fresh;
    RunValid(states, ops, n);
    RunValid(states, ops, n + 1);
  }

  lemma RunShape(states: seq<Table>, ops: seq<Op>)
    requires Run(states, ops)
    ensures |states| == |ops| + 1 && Fresh(states[0])
  {
  }

  // ---- When the current entry is known ----

  predicate CurrentKnown(t: Table) {
    t.current.Some? && t.current.value in t.heap ==> Known(t.env, t.heap[t.current.value])
  }

  /** While the current entry is known, callers keeping their side is all it takes: no reference ever dangles. */
  lemma KnownNeverDangles(states: seq<Table>, ops: seq<Op>, n: nat)
    requires |states| == |ops| + 1 && Fresh(states[0]) && n <= |ops|
    requires forall i :: 0 <= i < |ops| ==>
               CallersSide(states[i], ops[i]) && CurrentKnown(states[i]) && states[i + 1] == Step(states[i], ops[i])
    ensures Run(states, ops) && References(states[n])
  {
    hide Step, Known, CallersSide, EvictsCurrent, Inserts, Fresh;
    forall i | 0 <= i < |ops| ensures Legal(states[i], ops[i]) {
      KnownIsSpared(states[i]);
    }
    RunValid(states, ops, n);
  }
}

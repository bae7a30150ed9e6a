/** Several results for one entry in one round: which of them the table keeps. */
module BssRounds {
  import opened Seqs
  import opened RelTimes
  import opened BssModel
  import opened BssInvariant
  import opened BssRuns
  import opened BssHistory

  /** The op brings a scan result for the entry with id `d`, whether it is taken or not. */
  predicate Concerns(t: Table, op: Op, d: nat) {
    || (Inserts(t, op) && t.nextId == d)
    || (Hit(t, op).Some? && Hit(t, op).value in t.heap && t.heap[Hit(t, op).value].id == d)
  }

  /** Where the current round began: after the last `Start`. */
  function RoundStart(ops: seq<Op>, n: nat): (k: nat)
    requires n <= |ops|
    ensures k <= n
    ensures forall i :: k <= i < n ==> !ops[i].Start?
  {
    if n == 0 then 0 else if ops[n - 1].Start? then n else RoundStart(ops, n - 1)
  }

  ghost predicate InRound(states: seq<Table>, ops: seq<Op>, n: nat, d: nat, i: nat)
    requires |states| == |ops| + 1 && n <= |ops|
  {
    RoundStart(ops, n) <= i < n && ops[i].Result? && Concerns(states[i], ops[i], d)
  }

  function Seen(op: Op): int
    requires op.Result?
  {
    UpdateTime(op.fetch, op.res.age).Us()
  }

  /** Result `w` is the one a round should keep for `d`: the first associated one, else the first most recent one. */
  ghost predicate Wins(states: seq<Table>, ops: seq<Op>, n: nat, d: nat, w: nat)
    requires |states| == |ops| + 1 && n <= |ops|
  {
    && InRound(states, ops, n, d, w)
    && if ops[w].res.radio.associated
       then forall i: nat :: i < w && InRound(states, ops, n, d, i) ==> !ops[i].res.radio.associated
       else forall i: nat :: InRound(states, ops, n, d, i) ==>
              && !ops[i].res.radio.associated
              && Seen(ops[i]) <= Seen(ops[w])
              && (i < w ==> Seen(ops[i]) < Seen(ops[w]))
  }

  lemma WinnerIsUnique(states: seq<Table>, ops: seq<Op>, n: nat, d: nat, v: nat, w: nat)
    requires |states| == |ops| + 1 && n <= |ops|
    requires Wins(states, ops, n, d, v) && Wins(states, ops, n, d, w)
    ensures v == w
  {
  }

  /** The last touch of `d` is the winner of the round so far, or the round has brought nothing for `d`. */
  ghost predicate Settled(states: seq<Table>, ops: seq<Op>, n: nat, e: Bss)
    requires |states| == |ops| + 1 && n <= |ops|
  {
    if e.lastIdx == states[n].updateIdx
    then LastTouch(states, ops, n, e.id) > 0 && Wins(states, ops, n, e.id, LastTouch(states, ops, n, e.id) - 1)
    else forall i: nat :: !InRound(states, ops, n, e.id, i)
  }

  // ---- One step ----

  lemma RoundNumber(t: Table, op: Op)
    ensures Step(t, op).updateIdx == if op.Start? then t.updateIdx + 1 else t.updateIdx
    ensures Step(t, op).nextId == if Inserts(t, op) then t.nextId + 1 else t.nextId
  {
  }

  lemma ConcernedIdIsUsed(t: Table, op: Op, d: nat)
    requires Valid(t) && Concerns(t, op, d)
    ensures d < Step(t, op).nextId
  {
    RoundNumber(t, op);
    hide Step;
  }

  lemma {:induction false} NextIdGrows(states: seq<Table>, ops: seq<Op>, i: nat, n: nat)
    requires Run(states, ops) && i <= n <= |ops|
    ensures states[i].nextId <= states[n].nextId
  {
    hide Run, Step, Valid, Legal;
    RunShape(states, ops);
    if i < n {
      RunStep(states, ops, n - 1);
      RoundNumber(states[n - 1], ops[n - 1]);
      NextIdGrows(states, ops, i, n - 1);
    }
  }

  /** No earlier result was for an entry that has just been entered. */
  lemma NewIdIsNew(states: seq<Table>, ops: seq<Op>, i: nat, n: nat, d: nat)
    requires Run(states, ops) && i < n <= |ops| && states[n].nextId <= d
    ensures !Concerns(states[i], ops[i], d)
  {
    hide Run, Step, Valid, Legal, Concerns;
    RunShape(states, ops);
    RunStep(states, ops, i);
    NextIdGrows(states, ops, i + 1, n);
    if Concerns(states[i], ops[i], d) {
      ConcernedIdIsUsed(states[i], ops[i], d);
    }
  }

  /** Whether a further result for an entry is taken. */
  lemma TakenOrNot(t: Table, op: Op, p: Ptr)
    requires Valid(t) && Legal(t, op) && p in Step(t, op).heap
    ensures var e := Step(t, op).heap[p];
            && (Touches(t, op, e.id) ==> op.Result? && Concerns(t, op, e.id))
            && (!Touches(t, op, e.id) && p in t.heap && Concerns(t, op, e.id) ==>
                  && op.Result? && t.heap[p].lastIdx == t.updateIdx
                  && (t.heap[p].radio.associated ||
                      (!op.res.radio.associated && t.heap[p].lastUpdate.Us() >= Seen(op))))
  {
    TouchEffect(t, op, p);
    hide Step;
    HitIsLive(t, op);
    if !Touches(t, op, Step(t, op).heap[p].id) && Concerns(t, op, Step(t, op).heap[p].id) {
      IdBelowNext(t, p);
      IdsAreUnique(t, p, Hit(t, op).value);
      BeforeIsLess(t.heap[p].lastUpdate, UpdateTime(op.fetch, op.res.age));
    }
  }

  lemma IdBelowNext(t: Table, p: Ptr)
    requires Valid(t) && p in t.heap
    ensures t.heap[p].id < t.nextId && t.heap[p].lastIdx <= t.updateIdx
  {
  }

  /** A result that is taken for an entry already there beats what the entry held, unless that is from an earlier round. */
  lemma TakenBeats(t: Table, op: Op, p: Ptr) returns (origin: Option<Ptr>)
    requires Valid(t) && Legal(t, op) && p in Step(t, op).heap && Touches(t, op, Step(t, op).heap[p].id)
    ensures origin.None? ==> Step(t, op).heap[p].id == t.nextId
    ensures origin.Some? ==>
              && op.Result? && origin.value in t.heap
              && t.heap[origin.value].id == Step(t, op).heap[p].id
              && (t.heap[origin.value].lastIdx == t.updateIdx ==>
                    && !t.heap[origin.value].radio.associated
                    && (op.res.radio.associated || t.heap[origin.value].lastUpdate.Us() < Seen(op)))
  {
    origin := StepEntry(t, op, p);
    hide Step, Valid;
    if origin.Some? {
      UntouchedOrigin(t, op, origin.value);
      BeforeIsLess(t.heap[origin.value].lastUpdate, UpdateTime(op.fetch, op.res.age));
    }
  }

  lemma EnteredWins(states: seq<Table>, ops: seq<Op>, n: nat, d: nat)
    requires Run(states, ops) && 0 < n <= |ops| && d == states[n - 1].nextId
    requires ops[n - 1].Result? && Concerns(states[n - 1], ops[n - 1], d)
    ensures Wins(states, ops, n, d, n - 1)
  {
    hide Run, Concerns;
    RunShape(states, ops);
    forall i: nat | InRound(states, ops, n, d, i) ensures i == n - 1 {
      if i < n - 1 {
        NewIdIsNew(states, ops, i, n - 1, d);
      }
    }
  }

  /** The op's result takes over from `f`, the entry before it. */
  lemma TakenWins(states: seq<Table>, ops: seq<Op>, n: nat, f: Bss)
    requires |states| == |ops| + 1 && 0 < n <= |ops|
    requires ops[n - 1].Result? && Concerns(states[n - 1], ops[n - 1], f.id)
    requires Settled(states, ops, n - 1, f)
    requires var k := LastTouch(states, ops, n - 1, f.id); 0 < k && Records(states[k - 1], ops[k - 1], f)
    requires f.lastIdx == states[n - 1].updateIdx ==>
               !f.radio.associated && (ops[n - 1].res.radio.associated || f.lastUpdate.Us() < Seen(ops[n - 1]))
    ensures Wins(states, ops, n, f.id, n - 1)
  {
    hide Concerns, Touches;
    SameRound(states, ops, n, f.id);
  }

  /** Without a new start, the round of state `n` is the round of state `n - 1` and one more op. */
  lemma SameRound(states: seq<Table>, ops: seq<Op>, n: nat, d: nat)
    requires |states| == |ops| + 1 && 0 < n <= |ops| && !ops[n - 1].Start?
    ensures forall i: nat :: i < n - 1 ==> (InRound(states, ops, n, d, i) <==> InRound(states, ops, n - 1, d, i))
  {
  }

  /** The op leaves `f` as it was, apart from its miss count. */
  lemma LeftWins(states: seq<Table>, ops: seq<Op>, n: nat, f: Bss, e: Bss)
    requires |states| == |ops| + 1 && 0 < n <= |ops| && SameSighting(e, f)
    requires states[n].updateIdx == if ops[n - 1].Start? then states[n - 1].updateIdx + 1 else states[n - 1].updateIdx
    requires !Touches(states[n - 1], ops[n - 1], f.id) && f.lastIdx <= states[n - 1].updateIdx
    requires Settled(states, ops, n - 1, f)
    requires var k := LastTouch(states, ops, n - 1, f.id); 0 < k && Records(states[k - 1], ops[k - 1], f)
    requires Concerns(states[n - 1], ops[n - 1], f.id) ==>
               && ops[n - 1].Result? && f.lastIdx == states[n - 1].updateIdx
               && (f.radio.associated || (!ops[n - 1].res.radio.associated && f.lastUpdate.Us() >= Seen(ops[n - 1])))
    ensures Settled(states, ops, n, e)
  {
    hide Concerns, Touches;
    if !ops[n - 1].Start? {
      SameRound(states, ops, n, f.id);
    }
  }

  // ---- The theorem ----

  /** In every state of every run, each entry holds exactly the winner of the current round's results for it. */
  lemma {:induction false} RoundWinner(states: seq<Table>, ops: seq<Op>, n: nat, p: Ptr)
    requires Run(states, ops) && n <= |ops| && p in states[n].heap
    ensures Settled(states, ops, n, states[n].heap[p])
  {
    hide Run, Step, Valid, Legal, Touches, Concerns;
    RunShape(states, ops);
    if n > 0 {
      var t, op := states[n - 1], ops[n - 1];
      var e := states[n].heap[p];
      RunStep(states, ops, n - 1);
      RoundNumber(t, op);
      TouchEffect(t, op, p);
      TakenOrNot(t, op, p);
      if Touches(t, op, e.id) {
        var origin := TakenBeats(t, op, p);
        if origin.Some? {
          RoundWinner(states, ops, n - 1, origin.value);
          TouchedBy(states, ops, n - 1, origin.value);
          TakenWins(states, ops, n, t.heap[origin.value]);
        } else {
          EnteredWins(states, ops, n, e.id);
        }
      } else {
        RoundWinner(states, ops, n - 1, p);
        TouchedBy(states, ops, n - 1, p);
        IdBelowNext(t, p);
        LeftWins(states, ops, n, t.heap[p], e);
      }
    }
  }
}

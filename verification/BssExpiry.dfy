/** Expiry over runs: the miss count is an exact count of missed rounds, and it decides removal. */
module BssExpiry {
  import opened Seqs
  import opened BssModel
  import opened BssInvariant
  import opened BssRuns
  import opened BssHistory

  /** A completed new-scan round covered the entry with id `d`, did not see it, and found it not in use. */
  predicate MissedRound(t: Table, op: Op, d: nat) {
    && op.End? && Completed(op.info, op.newScan)
    && exists p :: p in t.heap && t.heap[p].id == d && CountsAgainst(t, p, op.info)
  }

  /** The rounds entry `d` missed since it was last touched. */
  ghost function MissedRounds(states: seq<Table>, ops: seq<Op>, n: nat, d: nat): set<nat>
    requires |states| == |ops| + 1 && n <= |ops|
  {
    set i: nat | LastTouch(states, ops, n, d) <= i < n && MissedRound(states[i], ops[i], d)
  }

  lemma MissEffect(t: Table, op: Op, p: Ptr)
    requires Valid(t) && Legal(t, op) && p in Step(t, op).heap
    ensures var e := Step(t, op).heap[p];
            if Touches(t, op, e.id) then e.miss == 0
            else
              && p in t.heap && t.heap[p].id == e.id
              && e.miss == t.heap[p].miss + if MissedRound(t, op, e.id) then 1 else 0
  {
    hide Valid, Legal, Step;
    var origin := StepEntry(t, op, p);
    if origin.Some? {
      UntouchedOrigin(t, op, origin.value);
      if op.End? {
        MissedOrigin(t, op, p);
      }
    }
  }

  lemma MissedOrigin(t: Table, op: Op, p: Ptr)
    requires Valid(t) && p in t.heap && op.End?
    ensures MissedRound(t, op, t.heap[p].id) <==> Completed(op.info, op.newScan) && CountsAgainst(t, p, op.info)
  {
    if MissedRound(t, op, t.heap[p].id) {
      var q :| q in t.heap && t.heap[q].id == t.heap[p].id && CountsAgainst(t, q, op.info);
      IdsAreUnique(t, p, q);
    }
  }

  /** In every state of every run, an entry's miss count is the number of rounds it missed since its last update. */
  lemma {:induction false} MissCountIsExact(states: seq<Table>, ops: seq<Op>, n: nat, p: Ptr)
    requires Run(states, ops) && n <= |ops| && p in states[n].heap
    ensures states[n].heap[p].miss == |MissedRounds(states, ops, n, states[n].heap[p].id)|
  {
    hide Run, Step, Valid, Legal, Touches, MissedRound;
    RunShape(states, ops);
    if n > 0 {
      RunStep(states, ops, n - 1);
      MissEffect(states[n - 1], ops[n - 1], p);
      var d := states[n].heap[p].id;
      if Touches(states[n - 1], ops[n - 1], d) {
        assert MissedRounds(states, ops, n, d) == {};
      } else {
        MissCountIsExact(states, ops, n - 1, p);
        var before := MissedRounds(states, ops, n - 1, d);
        if MissedRound(states[n - 1], ops[n - 1], d) {
          assert MissedRounds(states, ops, n, d) == before + {n - 1};
        } else {
          assert MissedRounds(states, ops, n, d) == before;
        }
      }
    }
  }

  /** The end of a round removes an entry exactly when this round is the miss that reaches the limit. */
  lemma ExpiryIsExact(states: seq<Table>, ops: seq<Op>, n: nat, p: Ptr)
    requires Run(states, ops) && n < |ops| && ops[n].End? && p in states[n].heap
    ensures var t, d := states[n], states[n].heap[p].id;
            p !in states[n + 1].heap <==>
              MissedRound(t, ops[n], d) && |MissedRounds(states, ops, n, d)| + 1 == t.expireCount
  {
    RunStep(states, ops, n);
    MissCountIsExact(states, ops, n, p);
    MissedOrigin(states[n], ops[n], p);
    RoundRemoves(states[n], ops[n], p);
    hide Run, Step, Valid, Legal, MissedRound, MissedRounds, CountsAgainst;
  }

  lemma RoundRemoves(t: Table, op: Op, p: Ptr)
    requires Valid(t) && op.End? && p in t.heap
    ensures p !in Step(t, op).heap <==>
              Completed(op.info, op.newScan) && CountsAgainst(t, p, op.info) && t.heap[p].miss + 1 == t.expireCount
  {
    RoundMiss(t, p);
  }

  /** An entry seen in the current round has no misses, so the limit cannot hit it. */
  lemma RoundMiss(t: Table, p: Ptr)
    requires Valid(t) && p in t.heap
    ensures t.heap[p].miss < t.expireCount && t.heap[p].lastIdx <= t.updateIdx
  {
  }
}

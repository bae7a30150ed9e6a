/** How long a BSSID stays ignored: the answers after its last failure, by the seconds that have passed. */
module IgnoreTimes {
  import opened Seqs
  import opened RelTimes
  import opened Macs
  import opened IgnoreModel

  /** Seconds for the first failure, the second, and so on; the last value is for all further ones. */
  const PENALTY := [10, 10, 60, 120, 600, 1800]

  function PenaltyOf(n: int): int
    requires n >= 1
  {
    PENALTY[if n <= 6 then n - 1 else 5]
  }

  lemma PenaltyIsTimeout(n: int)
    requires n >= 1
    ensures PenaltyOf(n) == TimeoutFor(n)
  {
  }

  /** The event leaves the failures of `b` alone. */
  predicate Leaves(op: Op, b: Mac) {
    !op.Clear? && !op.Reconfigure? && ((op.Add? || op.Del?) ==> op.b != b)
  }

  /** Event `i` is the last failure of `b`, and nothing since has taken it back. */
  ghost predicate LastFailure(evs: seq<Event>, b: Mac, i: int) {
    0 <= i < |evs| && evs[i].op == Add(b) && forall j :: i < j < |evs| ==> Leaves(evs[j].op, b)
  }

  lemma FailureRecorded(evs: seq<Event>, b: Mac, now: Time)
    requires Ordered(evs + [Event(Add(b), now)])
    ensures var n := Answer(Exec(evs), Event(Add(b), now));
            n >= 1 && Recorded(evs + [Event(Add(b), now)], b) == Some(Record(n, now))
  {
    var ev := Event(Add(b), now);
    AnswersByRecord(evs, ev);
    CountsUp(evs, b);
    assert (evs + [ev])[..|evs|] == evs;
    hide Answer, Exec, Ordered, Live;
  }

  lemma {:induction false} CountsUp(evs: seq<Event>, b: Mac)
    ensures Recorded(evs, b).Some? ==> Recorded(evs, b).value.count >= 1
  {
    hide Stale;
    if evs != [] {
      CountsUp(evs[..|evs| - 1], b);
      assert Live(Recorded(evs[..|evs| - 1], b), b, evs[|evs| - 1].now) ==> Recorded(evs[..|evs| - 1], b).Some?;
    }
  }

  lemma {:induction false} FailureStays(evs: seq<Event>, b: Mac, i: nat)
    requires Ordered(evs) && LastFailure(evs, b, i)
    ensures var n := Answer(Exec(evs[..i]), evs[i]);
            n >= 1 && Recorded(evs, b) == Some(Record(n, evs[i].now))
  {
    hide Answer, Exec, Live;
    var front, last := evs[..|evs| - 1], evs[|evs| - 1];
    assert evs == front + [last];
    if i == |front| {
      FailureRecorded(front, b, last.now);
    } else {
      assert front[i] == evs[i] && front[..i] == evs[..i] && last == evs[|front|];
      FailureStays(front, b, i);
      assert Leaves(last.op, b);
    }
  }

  /**
   The last failure of a BSSID answered n. Until something takes it back, the BSSID is listed with n exactly while the
   penalty for n failures lasts; for one hour more it is known, and a new failure is number n + 1; later it is the first
   one again.
   */
  lemma PenaltyExactly(evs: seq<Event>, b: Mac, i: nat, ev: Event)
    requires Ordered(evs + [ev]) && LastFailure(evs, b, i)
    ensures var n := Answer(Exec(evs[..i]), evs[i]);
            var waited := ev.now.Us() - evs[i].now.Us();
            && n >= 1
            && (ev.op == IsListed(b) ==> Answer(Exec(evs), ev) == if waited <= PenaltyOf(n) * 1000000 then n else 0)
            && (ev.op == Get(b) ==> Answer(Exec(evs), ev) == if waited <= (PenaltyOf(n) + 3600) * 1000000 then 1 else 0)
            && (ev.op == Add(b) ==> Answer(Exec(evs), ev) == if waited <= (PenaltyOf(n) + 3600) * 1000000 then n + 1 else 1)
  {
    assert Ordered(evs) by { OrderedPrefix(evs, ev); }
    FailureStays(evs, b, i);
    var n := Answer(Exec(evs[..i]), evs[i]);
    PenaltyIsTimeout(n);
    ExpiredIsMore(ev.now, evs[i].now, PenaltyOf(n));
    ExpiredIsMore(ev.now, evs[i].now, PenaltyOf(n) + 3600);
    if ev.op in {IsListed(b), Get(b), Add(b)} {
      AnswersByRecord(evs, ev);
    }
    hide Answer, Exec, Ordered, Expired, PenaltyOf, TimeoutFor, LastFailure;
  }
}

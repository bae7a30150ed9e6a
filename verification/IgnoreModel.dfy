/**
 The list of temporarily ignored BSSIDs as a value, and what it amounts to: one small record per BSSID that
 lookups do not influence.
 */
module IgnoreModel {
  import opened Seqs
  import opened RelTimes
  import opened Macs

  datatype Entry = Entry(bssid: Mac, count: int, start: Time, timeoutSecs: int)

  /** The list, and whether the current network was reconfigured since it was last looked at. */
  datatype Ignore = Ignore(entries: seq<Entry>, reconfigured: bool)

  const FORGET_SECS := 3600

  function TimeoutFor(count: int): int {
    if count > 5 then 1800
    else if count == 5 then 600
    else if count == 4 then 120
    else if count == 3 then 60
    else 10
  }

  /** Expired for over an hour. */
  predicate Stale(e: Entry, now: Time) {
    Expired(now, e.start, e.timeoutSecs + FORGET_SECS)
  }

  function Prune(es: seq<Entry>, now: Time): (r: seq<Entry>)
    ensures |r| <= |es|
    ensures forall e :: e in r <==> e in es && !Stale(e, now)
  {
    if es == [] then []
    else
      var front := Prune(es[..|es| - 1], now);
      if Stale(es[|es| - 1], now) then front else front + [es[|es| - 1]]
  }

  /** Position of the entry for a BSSID, or the length of the list. */
  function Position(es: seq<Entry>, b: Mac): (k: nat)
    ensures k <= |es|
    ensures k < |es| ==> es[k].bssid == b
    ensures forall i :: 0 <= i < k ==> es[i].bssid != b
  {
    if es == [] || es[0].bssid == b then 0 else 1 + Position(es[1..], b)
  }

  function Find(es: seq<Entry>, b: Mac): Option<Entry> {
    var k := Position(es, b);
    if k < |es| then Some(es[k]) else None
  }

  // ---- Operations: new state and answer ----

  /** What every lookup does to the list before it looks. */
  function Looked(s: Ignore, now: Time): Ignore {
    if s.reconfigured then Ignore([], false) else Ignore(Prune(s.entries, now), false)
  }

  function Counted(e: Entry, now: Time): Entry {
    Entry(e.bssid, e.count + 1, now, TimeoutFor(e.count + 1))
  }

  function Added(s: Ignore, b: Mac, now: Time): (Ignore, int) {
    var es := Looked(s, now).entries;
    var k := Position(es, b);
    if k < |es| then (Ignore(es[k := Counted(es[k], now)], false), es[k].count + 1)
    else (Ignore([Entry(b, 1, now, 10)] + es, false), 1)
  }

  function Deleted(s: Ignore, b: Mac): (Ignore, int) {
    var k := Position(s.entries, b);
    if k < |s.entries| then (s.(entries := s.entries[..k] + s.entries[k + 1..]), 0) else (s, -1)
  }

  function Cleared(s: Ignore): Ignore {
    s.(entries := [])
  }

  function Updated(s: Ignore, now: Time): Ignore {
    s.(entries := Prune(s.entries, now))
  }

  function Listed(s: Ignore, b: Mac, now: Time): int {
    match Find(Looked(s, now).entries, b)
    case None => 0
    case Some(e) => if Expired(now, e.start, e.timeoutSecs) then 0 else e.count
  }

  datatype Op = Add(b: Mac) | Del(b: Mac) | Clear | Get(b: Mac) | IsListed(b: Mac) | Update | Reconfigure

  datatype Event = Event(op: Op, now: Time)

  function Step(s: Ignore, ev: Event): Ignore {
    match ev.op
    case Add(b) => Added(s, b, ev.now).0
    case Del(b) => Deleted(s, b).0
    case Clear => Cleared(s)
    case Get(_) => Looked(s, ev.now)
    case IsListed(_) => Looked(s, ev.now)
    case Update => Updated(s, ev.now)
    case Reconfigure => s.(reconfigured := true)
  }

  /** What the caller learns: a count for add and is_listed, whether an entry was found for get. */
  function Answer(s: Ignore, ev: Event): int {
    match ev.op
    case Add(b) => Added(s, b, ev.now).1
    case Del(b) => Deleted(s, b).1
    case Get(b) => if Find(Looked(s, ev.now).entries, b).Some? then 1 else 0
    case IsListed(b) => Listed(s, b, ev.now)
    case _ => 0
  }

  const EMPTY := Ignore([], false)

  function Exec(evs: seq<Event>): Ignore {
    if evs == [] then EMPTY else Step(Exec(evs[..|evs| - 1]), evs[|evs| - 1])
  }

  /** The clock is monotone. */
  ghost predicate Ordered(evs: seq<Event>) {
    forall i, j :: 0 <= i < j < |evs| ==> evs[i].now.Us() <= evs[j].now.Us()
  }

  // ---- Well-formed lists ----

  /** Each BSSID at most once, and every timeout is the step function of its count. */
  ghost predicate WellFormed(es: seq<Entry>) {
    && (forall i, j :: 0 <= i < j < |es| ==> es[i].bssid != es[j].bssid)
    && (forall i :: 0 <= i < |es| ==> es[i].count >= 1 && es[i].timeoutSecs == TimeoutFor(es[i].count))
  }

  lemma {:induction false} PruneOrder(es: seq<Entry>, now: Time, i: int, j: int) returns (i': int, j': int)
    requires 0 <= i < j < |Prune(es, now)|
    ensures 0 <= i' < j' < |es| && es[i'] == Prune(es, now)[i] && es[j'] == Prune(es, now)[j]
  {
    var front := es[..|es| - 1];
    if j < |Prune(front, now)| {
      i', j' := PruneOrder(front, now, i, j);
    } else {
      assert Prune(es, now)[i] in Prune(front, now);
      i' :| 0 <= i' < |front| && front[i'] == Prune(es, now)[i];
      j' := |es| - 1;
    }
  }

  lemma PruneWellFormed(es: seq<Entry>, now: Time)
    requires WellFormed(es)
    ensures WellFormed(Prune(es, now))
  {
    var r := Prune(es, now);
    forall i, j | 0 <= i < j < |r| ensures r[i].bssid != r[j].bssid {
      var i', j' := PruneOrder(es, now, i, j);
    }
    forall i | 0 <= i < |r| ensures r[i].count >= 1 && r[i].timeoutSecs == TimeoutFor(r[i].count) {
      assert r[i] in r;
    }
  }

  lemma StepWellFormed(s: Ignore, ev: Event)
    requires WellFormed(s.entries)
    ensures WellFormed(Step(s, ev).entries)
  {
    PruneWellFormed(s.entries, ev.now);
    hide WellFormed;
    match ev.op
    case Add(b) => AddWellFormed(s, b, ev.now);
    case Del(b) => DeleteWellFormed(s.entries, Position(s.entries, b));
    case _ => EmptyWellFormed();
  }

  lemma AddWellFormed(s: Ignore, b: Mac, now: Time)
    requires WellFormed(Looked(s, now).entries)
    ensures WellFormed(Added(s, b, now).0.entries)
  {
    hide Looked;
    var es := Looked(s, now).entries;
    var r := Added(s, b, now).0.entries;
    if Position(es, b) < |es| {
      assert forall i :: 0 <= i < |r| ==> r[i].bssid == es[i].bssid;
    }
  }

  lemma EmptyWellFormed()
    ensures WellFormed([])
  {
  }

  lemma DeleteWellFormed(es: seq<Entry>, k: int)
    requires WellFormed(es) && 0 <= k <= |es|
    ensures k < |es| ==> WellFormed(es[..k] + es[k + 1..])
  {
    if k < |es| {
      var r := es[..k] + es[k + 1..];
      assert forall i :: 0 <= i < |r| ==> r[i] == es[if i < k then i else i + 1];
    }
  }

  /** In every run, every BSSID is listed at most once and carries the timeout of its count. */
  lemma {:induction false} RunWellFormed(evs: seq<Event>)
    ensures WellFormed(Exec(evs).entries)
  {
    if evs != [] {
      RunWellFormed(evs[..|evs| - 1]);
      StepWellFormed(Exec(evs[..|evs| - 1]), evs[|evs| - 1]);
    }
  }

  // ---- The reference: one record per BSSID ----

  datatype Record = Record(count: int, start: Time)

  function AsEntry(r: Record, b: Mac): Entry {
    Entry(b, r.count, r.start, TimeoutFor(r.count))
  }

  predicate Live(r: Option<Record>, b: Mac, now: Time) {
    r.Some? && !Stale(AsEntry(r.value, b), now)
  }

  /** One more failure counts up a record that is still remembered, and opens a new one otherwise. */
  function AddRecord(r: Option<Record>, b: Mac, now: Time): Option<Record> {
    if Live(r, b, now) then Some(Record(r.value.count + 1, now)) else Some(Record(1, now))
  }

  /** The record of `b` after some events. Lookups play no part in it, and neither do other BSSIDs. */
  function Recorded(evs: seq<Event>, b: Mac): Option<Record> {
    if evs == [] then None
    else
      var r := Recorded(evs[..|evs| - 1], b);
      var ev := evs[|evs| - 1];
      match ev.op
      case Add(b') =>
        if b' != b then r
        else AddRecord(r, b, ev.now)
      case Del(b') => if b' == b then None else r
      case Clear => None
      case Reconfigure => None
      case _ => r
  }

  /** What `ev` should answer, according to the record of its BSSID. */
  function Expected(r: Option<Record>, ev: Event): int {
    match ev.op
    case Add(b) => if Live(r, b, ev.now) then r.value.count + 1 else 1
    case Get(b) => if Live(r, b, ev.now) then 1 else 0
    case IsListed(b) =>
      if Live(r, b, ev.now) && !Expired(ev.now, r.value.start, TimeoutFor(r.value.count)) then r.value.count else 0
    case _ => 0
  }

  function Held(s: Ignore, b: Mac): Option<Entry> {
    if s.reconfigured then None else Find(s.entries, b)
  }

  /** As far as entries that are not stale go, the list and the record say the same. */
  predicate Agrees(s: Ignore, r: Option<Record>, b: Mac, now: Time) {
    var f := Held(s, b);
    if f.Some? && !Stale(f.value, now) then r.Some? && f.value == AsEntry(r.value, b)
    else !Live(r, b, now)
  }

  lemma StaleForever(e: Entry, now: Time, later: Time)
    requires Stale(e, now) && now.Us() <= later.Us()
    ensures Stale(e, later)
  {
    ExpiredIsMore(now, e.start, e.timeoutSecs + FORGET_SECS);
    ExpiredIsMore(later, e.start, e.timeoutSecs + FORGET_SECS);
  }

  lemma AgreesLater(s: Ignore, r: Option<Record>, b: Mac, now: Time, later: Time)
    requires Agrees(s, r, b, now) && now.Us() <= later.Us()
    ensures Agrees(s, r, b, later)
  {
    if Held(s, b).Some? && Stale(Held(s, b).value, now) {
      StaleForever(Held(s, b).value, now, later);
    }
    if r.Some? && Stale(AsEntry(r.value, b), now) {
      StaleForever(AsEntry(r.value, b), now, later);
    }
  }

  lemma FindIs(es: seq<Entry>, k: int)
    requires WellFormed(es) && 0 <= k < |es|
    ensures Find(es, es[k].bssid) == Some(es[k])
  {
    var k' := Position(es, es[k].bssid);
    if k' < k { } else if k < k' { }
  }

  lemma FindNot(es: seq<Entry>, b: Mac)
    ensures Find(es, b).None? <==> forall i :: 0 <= i < |es| ==> es[i].bssid != b
  {
  }

  /** Pruning drops a stale entry and keeps every other findable. */
  lemma FindPruned(es: seq<Entry>, b: Mac, now: Time)
    requires WellFormed(es)
    ensures var f := Find(es, b);
            Find(Prune(es, now), b) == if f.Some? && !Stale(f.value, now) then f else None
  {
    var r := Prune(es, now);
    PruneWellFormed(es, now);
    var f := Find(es, b);
    if f.Some? && !Stale(f.value, now) {
      assert f.value in r;
      var k :| 0 <= k < |r| && r[k] == f.value;
      FindIs(r, k);
    } else {
      forall i | 0 <= i < |r| ensures r[i].bssid != b {
        assert r[i] in r;
        var k :| 0 <= k < |es| && es[k] == r[i];
        FindIs(es, k);
      }
      FindNot(r, b);
    }
  }

  lemma FindInserted(es: seq<Entry>, e: Entry, b: Mac)
    ensures Find([e] + es, b) == if e.bssid == b then Some(e) else Find(es, b)
  {
    assert ([e] + es)[1..] == es;
  }

  lemma FindReplaced(es: seq<Entry>, k: int, e: Entry, b: Mac)
    requires WellFormed(es) && 0 <= k < |es| && e.bssid == es[k].bssid
    ensures Find(es[k := e], b) == if e.bssid == b then Some(e) else Find(es, b)
  {
    var r := es[k := e];
    if Find(r, b).Some? {
      var i := Position(r, b);
      FindIs(es, i);
    } else {
      FindNot(r, b);
      FindNot(es, b);
      assert r[k].bssid != b;
      assert forall i :: 0 <= i < |es| ==> es[i].bssid == r[i].bssid;
    }
  }

  lemma FindRemoved(es: seq<Entry>, k: int, b: Mac)
    requires WellFormed(es) && 0 <= k < |es|
    ensures Find(es[..k] + es[k + 1..], b) == if es[k].bssid == b then None else Find(es, b)
  {
    var r := es[..k] + es[k + 1..];
    if Find(r, b).Some? {
      var i := Position(r, b);
      assert r[i] == es[if i < k then i else i + 1];
      FindIs(es, if i < k then i else i + 1);
    } else {
      FindNot(r, b);
      FindNot(es, b);
      assert forall i :: 0 <= i < |es| && i != k ==> es[i] == r[if i < k then i else i - 1];
    }
  }

  /** One step of the list matches one step of the record. */
  lemma StepAgrees(evs: seq<Event>, ev: Event, b: Mac)
    requires WellFormed(Exec(evs).entries) && Agrees(Exec(evs), Recorded(evs, b), b, ev.now)
    ensures Agrees(Exec(evs + [ev]), Recorded(evs + [ev], b), b, ev.now)
  {
    assert (evs + [ev])[..|evs|] == evs;
    var s, r := Exec(evs), Recorded(evs, b);
    hide WellFormed, Stale, TimeoutFor, Position, Agrees, Exec, Added;
    FindPruned(s.entries, b, ev.now);
    assert Exec(evs + [ev]) == Step(s, ev) by { ExecSnoc(evs, ev); }
    match ev.op
    case Add(b') =>
      PruneWellFormed(s.entries, ev.now);
      AddAgrees(s, r, b', b, ev.now);
    case Del(b') => DelAgrees(s, r, b', b, ev.now);
    case _ => OtherAgrees(s, r, ev, b);
  }

  lemma ExecSnoc(evs: seq<Event>, ev: Event)
    ensures Exec(evs + [ev]) == Step(Exec(evs), ev)
  {
    assert (evs + [ev])[..|evs|] == evs;
  }

  lemma OtherAgrees(s: Ignore, r: Option<Record>, ev: Event, b: Mac)
    requires Agrees(s, r, b, ev.now) && !ev.op.Add? && !ev.op.Del?
    requires var f := Find(s.entries, b);
             Find(Prune(s.entries, ev.now), b) == if f.Some? && !Stale(f.value, ev.now) then f else None
    ensures Agrees(Step(s, ev), if ev.op.Clear? || ev.op.Reconfigure? then None else r, b, ev.now)
  {
    hide Stale, Prune;
  }

  lemma DelAgrees(s: Ignore, r: Option<Record>, b': Mac, b: Mac, now: Time)
    requires WellFormed(s.entries) && Agrees(s, r, b, now)
    ensures Agrees(Deleted(s, b').0, if b' == b then None else r, b, now)
  {
    hide WellFormed, Stale;
    var k := Position(s.entries, b');
    if k < |s.entries| {
      FindRemoved(s.entries, k, b);
    } else {
      FindNot(s.entries, b');
    }
  }

  lemma AddAgrees(s: Ignore, r: Option<Record>, b': Mac, b: Mac, now: Time)
    requires WellFormed(Prune(s.entries, now)) && Agrees(s, r, b, now)
    requires var f := Find(s.entries, b);
             Find(Prune(s.entries, now), b) == if f.Some? && !Stale(f.value, now) then f else None
    ensures Agrees(Added(s, b', now).0, if b' == b then AddRecord(r, b, now) else r, b, now)
  {
    hide WellFormed, Stale, Prune, TimeoutFor;
    var es := Looked(s, now).entries;
    var k := Position(es, b');
    if k < |es| {
      FindReplaced(es, k, Counted(es[k], now), b);
      NowIsFresh(Counted(es[k], now), now);
    } else {
      FindInserted(es, Entry(b', 1, now, 10), b);
      NowIsFresh(Entry(b', 1, now, TimeoutFor(1)), now);
      assert TimeoutFor(1) == 10 by { FirstTimeout(); }
    }
  }

  lemma FirstTimeout()
    ensures TimeoutFor(1) == 10
  {
  }

  lemma NowIsFresh(e: Entry, now: Time)
    requires e.start == now && e.timeoutSecs == TimeoutFor(e.count)
    ensures !Stale(e, now)
  {
    ExpiredIsMore(now, now, e.timeoutSecs + FORGET_SECS);
  }

  /** In every run the list agrees with the record of every BSSID, at any time after the last event. */
  lemma {:induction false} RunAgrees(evs: seq<Event>, b: Mac, later: Time)
    requires Ordered(evs) && forall i :: 0 <= i < |evs| ==> evs[i].now.Us() <= later.Us()
    ensures Agrees(Exec(evs), Recorded(evs, b), b, later)
  {
    if evs != [] {
      var front, ev := evs[..|evs| - 1], evs[|evs| - 1];
      assert evs == front + [ev];
      RunAgrees(front, b, ev.now);
      RunWellFormed(front);
      StepAgrees(front, ev, b);
      AgreesLater(Exec(evs), Recorded(evs, b), b, ev.now, later);
    }
  }

  lemma OrderedPrefix(evs: seq<Event>, ev: Event)
    requires Ordered(evs + [ev])
    ensures Ordered(evs) && forall i :: 0 <= i < |evs| ==> evs[i].now.Us() <= ev.now.Us()
  {
    var all := evs + [ev];
    assert forall i :: 0 <= i < |evs| ==> all[i] == evs[i];
    assert all[|evs|] == ev;
  }

  predicate Asks(op: Op) {
    op.Add? || op.Get? || op.IsListed?
  }

  /** After any run, add, get and is_listed answer what the record of their BSSID says. */
  lemma AnswersByRecord(evs: seq<Event>, ev: Event)
    requires Ordered(evs + [ev]) && Asks(ev.op)
    ensures Answer(Exec(evs), ev) == Expected(Recorded(evs, ev.op.b), ev)
  {
    var s, b := Exec(evs), ev.op.b;
    OrderedPrefix(evs, ev);
    RunAgrees(evs, b, ev.now);
    RunWellFormed(evs);
    FindPruned(s.entries, b, ev.now);
    hide Ordered, Exec, Recorded, WellFormed, Answer, Expected;
    AnswerOf(s, Recorded(evs, b), ev);
  }

  lemma AnswerOf(s: Ignore, r: Option<Record>, ev: Event)
    requires Asks(ev.op) && Agrees(s, r, ev.op.b, ev.now)
    requires var f := Find(s.entries, ev.op.b);
             Find(Prune(s.entries, ev.now), ev.op.b) == if f.Some? && !Stale(f.value, ev.now) then f else None
    ensures Answer(s, ev) == Expected(r, ev)
  {
    hide Stale, Prune, TimeoutFor, Position, Expired;
  }

  // ---- Lookups are transparent ----

  predicate Matters(op: Op) {
    op.Add? || op.Del? || op.Clear? || op.Reconfigure?
  }

  /** The events of a run that are not lookups. */
  function Essential(evs: seq<Event>): seq<Event> {
    if evs == [] then []
    else
      var front := Essential(evs[..|evs| - 1]);
      if Matters(evs[|evs| - 1].op) then front + [evs[|evs| - 1]] else front
  }

  lemma {:induction false} RecordedEssential(evs: seq<Event>, b: Mac)
    ensures Recorded(evs, b) == Recorded(Essential(evs), b)
  {
    if evs != [] {
      var front, ev := evs[..|evs| - 1], evs[|evs| - 1];
      RecordedEssential(front, b);
      if Matters(ev.op) {
        assert Essential(evs)[..|Essential(evs)| - 1] == Essential(front);
      }
    }
  }

  /**
   Two runs with the same adds, deletes, clears and reconfigurations give the same answers afterwards,
   however many lookups and updates either of them contains.
   */
  lemma LookupsAreTransparent(evs: seq<Event>, evs': seq<Event>, ev: Event)
    requires Ordered(evs + [ev]) && Ordered(evs' + [ev]) && Asks(ev.op)
    requires Essential(evs) == Essential(evs')
    ensures Answer(Exec(evs), ev) == Answer(Exec(evs'), ev)
  {
    AnswersByRecord(evs, ev);
    AnswersByRecord(evs', ev);
    RecordedEssential(evs, ev.op.b);
    RecordedEssential(evs', ev.op.b);
  }

  // ---- Deletes are not ----

  /** An entry still linked that the next lookup would drop: it is stale, or the network was reconfigured. */
  predicate Leftover(s: Ignore, b: Mac, now: Time) {
    var f := Find(s.entries, b);
    f.Some? && (s.reconfigured || Stale(f.value, now))
  }

  /** A delete answers what the record of its BSSID says, except exactly when it meets a leftover. */
  lemma DeleteExactly(evs: seq<Event>, del: Event)
    requires Ordered(evs + [del]) && del.op.Del?
    ensures var s, b, now := Exec(evs), del.op.b, del.now;
            var live := Live(Recorded(evs, b), b, now);
            && (live ==> !Leftover(s, b, now))
            && Answer(s, del) == (if live || Leftover(s, b, now) then 0 else -1)
            && (Answer(s, del) == (if live then 0 else -1) <==> !Leftover(s, b, now))
  {
    OrderedPrefix(evs, del);
    RunAgrees(evs, del.op.b, del.now);
    hide Recorded, Exec, Stale, Ordered, TimeoutFor;
  }

  /**
   Two runs with the same adds, deletes, clears and reconfigurations can differ in what a delete answers then,
   and do so exactly when a leftover is there in one of them only.
   */
  lemma DeletesAgreeExactly(evs: seq<Event>, evs': seq<Event>, del: Event)
    requires Ordered(evs + [del]) && Ordered(evs' + [del]) && del.op.Del?
    requires Essential(evs) == Essential(evs')
    ensures Answer(Exec(evs), del) == Answer(Exec(evs'), del)
            <==> Leftover(Exec(evs), del.op.b, del.now) == Leftover(Exec(evs'), del.op.b, del.now)
  {
    DeleteExactly(evs, del);
    DeleteExactly(evs', del);
    RecordedEssential(evs, del.op.b);
    RecordedEssential(evs', del.op.b);
    hide Recorded, Exec, Essential, Ordered, Answer, Live, Leftover;
  }

  /** A lookup right before the delete leaves no leftover. */
  lemma NoLeftoverAfterLookup(evs: seq<Event>, ask: Event, b: Mac)
    requires Asks(ask.op) && !ask.op.Add?
    ensures !Leftover(Exec(evs + [ask]), b, ask.now)
  {
    ExecSnoc(evs, ask);
    var es := Looked(Exec(evs), ask.now).entries;
    assert forall e :: e in es ==> !Stale(e, ask.now);
    hide Exec, Stale;
  }

  /** It does happen by pruning: a delete after the entry has gone stale, without and with an update before it. */
  lemma DeleteSeesPruning(b: Mac)
    ensures var add, update, del := Event(Add(b), RelTime(0, 0)), Event(Update, RelTime(5000, 0)), Event(Del(b), RelTime(5000, 0));
            && Essential([add, update]) == Essential([add])
            && Answer(Exec([add]), del) == 0
            && Answer(Exec([add, update]), del) == -1
  {
    var add, update, del := Event(Add(b), RelTime(0, 0)), Event(Update, RelTime(5000, 0)), Event(Del(b), RelTime(5000, 0));
    hide *;
    AddFirst(b);
    assert [add] + [update] == [add, update];
    UpdateIsNoMatter([add], update);
    ExecSnoc([add], update);
    FirstIsForgotten(b);
    DeleteAnswers(b, del.now);
  }

  lemma UpdateIsNoMatter(evs: seq<Event>, ev: Event)
    requires ev.op.Update?
    ensures Essential(evs + [ev]) == Essential(evs)
  {
    EssentialSnoc(evs, ev);
    hide Essential;
  }

  lemma FirstIsForgotten(b: Mac)
    ensures Step(Ignore([Entry(b, 1, RelTime(0, 0), 10)], false), Event(Update, RelTime(5000, 0))) == EMPTY
  {
    var e, now := Entry(b, 1, RelTime(0, 0), 10), RelTime(5000, 0);
    hide *;
    OverAnHour(e, now);
    PruneAllStale([e], now);
    UpdateIs([e], now);
  }

  lemma OverAnHour(e: Entry, now: Time)
    requires now.Us() - e.start.Us() > (e.timeoutSecs + 3600) * 1000000
    ensures Stale(e, now)
  {
    ExpiredIsMore(now, e.start, e.timeoutSecs + FORGET_SECS);
    hide Expired;
  }

  lemma UpdateIs(es: seq<Entry>, now: Time)
    requires Prune(es, now) == []
    ensures Step(Ignore(es, false), Event(Update, now)) == EMPTY
  {
    hide Prune;
  }

  lemma {:induction false} PruneAllStale(es: seq<Entry>, now: Time)
    requires forall e :: e in es ==> Stale(e, now)
    ensures Prune(es, now) == []
  {
    hide Stale;
    if es != [] {
      assert es[|es| - 1] in es;
      PruneAllStale(es[..|es| - 1], now);
    }
  }

  lemma DeleteAnswers(b: Mac, now: Time)
    ensures Answer(Ignore([Entry(b, 1, RelTime(0, 0), 10)], false), Event(Del(b), now)) == 0
    ensures Answer(EMPTY, Event(Del(b), now)) == -1
  {
  }

  /** And by a reconfiguration: a delete while the clearing is still due, and after a lookup has done it. */
  lemma DeleteSeesReconfiguration(b: Mac)
    ensures var now := RelTime(0, 0);
            var add, conf, get, del := Event(Add(b), now), Event(Reconfigure, now), Event(Get(b), now), Event(Del(b), now);
            && Essential([add, conf, get]) == Essential([add, conf])
            && Answer(Exec([add, conf]), del) == 0
            && Answer(Exec([add, conf, get]), del) == -1
  {
    var now := RelTime(0, 0);
    var add, conf, get := Event(Add(b), now), Event(Reconfigure, now), Event(Get(b), now);
    AddFirst(b);
    assert [add] + [conf] == [add, conf] && [add, conf] + [get] == [add, conf, get];
    ExecSnoc([add], conf);
    ExecSnoc([add, conf], get);
    EssentialSnoc([add, conf], get);
    hide Exec, Essential;
  }

  lemma AddFirst(b: Mac)
    ensures Exec([Event(Add(b), RelTime(0, 0))]) == Ignore([Entry(b, 1, RelTime(0, 0), 10)], false)
  {
    var add := Event(Add(b), RelTime(0, 0));
    assert [] + [add] == [add];
    ExecSnoc([], add);
    assert Exec([]) == EMPTY;
  }

  lemma EssentialSnoc(evs: seq<Event>, ev: Event)
    ensures Essential(evs + [ev]) == if Matters(ev.op) then Essential(evs) + [ev] else Essential(evs)
  {
    assert (evs + [ev])[..|evs|] == evs;
  }
}

/** The ignore list as the program keeps it: a singly linked list of nodes, relinked in place. */
module IgnoreList {
  import opened RelTimes
  import opened Macs
  import opened Seqs
  import IgnoreModel

  type Entry = IgnoreModel.Entry

  class Node {
    var bssid: Mac
    var count: int
    var start: Time
    var timeoutSecs: int
    var next: Node?

    constructor (bssid: Mac, count: int, start: Time, timeoutSecs: int, next: Node?)
      ensures Value() == IgnoreModel.Entry(bssid, count, start, timeoutSecs) && this.next == next
    {
      this.bssid, this.count, this.start, this.timeoutSecs, this.next := bssid, count, start, timeoutSecs, next;
    }

    function Value(): Entry
      reads this
    {
      IgnoreModel.Entry(bssid, count, start, timeoutSecs)
    }

    /** Once more: start over, and wait longer. */
    method CountUp(now: Time)
      modifies this
      ensures Value() == IgnoreModel.Counted(old(Value()), now) && next == old(next)
    {
      start := now;
      count := count + 1;
      if count > 5 {
        timeoutSecs := 1800;
      } else if count == 5 {
        timeoutSecs := 600;
      } else if count == 4 {
        timeoutSecs := 120;
      } else if count == 3 {
        timeoutSecs := 60;
      } else {
        timeoutSecs := 10;
      }
    }
  }

  class IgnoredBssids {
    var head: Node?
    var reconfigured: bool            // the flag of the current network
    ghost var nodes: seq<Node>        // the linked nodes, in order
    ghost var entries: seq<Entry>     // and what they hold

    ghost function At(i: int): Node?
      reads this
    {
      if 0 <= i < |nodes| then nodes[i] else null
    }

    ghost predicate Valid()
      reads this, nodes
    {
      && |entries| == |nodes| && head == At(0)
      && NoDup(nodes)
      && (forall i {:trigger nodes[i].next} :: 0 <= i < |nodes| ==> nodes[i].next == At(i + 1))
      && (forall i {:trigger nodes[i].bssid} {:trigger entries[i]} :: 0 <= i < |nodes| ==> nodes[i].Value() == entries[i])
    }

    ghost function Model(): IgnoreModel.Ignore
      reads this
    {
      IgnoreModel.Ignore(entries, reconfigured)
    }

    constructor ()
      ensures Valid() && Model() == IgnoreModel.EMPTY && nodes == []
    {
      head, reconfigured, nodes, entries := null, false, [], [];
    }

    /** The links skip node number `i`, which still counts as one of the nodes. */
    ghost predicate Skipped(i: int)
      reads this, nodes
    {
      && |entries| == |nodes| && head == At(if i == 0 then 1 else 0)
      && (forall k {:trigger nodes[k].next} :: 0 <= k < |nodes| && k != i ==> nodes[k].next == At(if k == i - 1 then i + 1 else k + 1))
      && (forall k {:trigger nodes[k].bssid} {:trigger entries[k]} :: 0 <= k < |nodes| ==> nodes[k].Value() == entries[k])
    }

    /** Make the links skip node number `i`. */
    method Relink(ghost i: int, prev: Node?, e: Node)
      requires Valid() && 0 <= i < |nodes| && e == At(i) && prev == At(i - 1)
      modifies this`head, if prev == null then {} else {prev}
      ensures Skipped(i) && nodes == old(nodes) && entries == old(entries) && reconfigured == old(reconfigured)
    {
      if prev != null {
        prev.next := e.next;
      } else {
        head := e.next;
      }
    }

    ghost method Renumber(i: int)
      requires Skipped(i) && 0 <= i < |nodes| && NoDup(nodes)
      modifies this`nodes, this`entries
      ensures Valid() && nodes == old(nodes)[..i] + old(nodes)[i + 1..]
      ensures entries == old(entries)[..i] + old(entries)[i + 1..]
    {
      hide NoDup;
      var was, es := nodes, entries;
      NoDupWithout(was, i);
      nodes := nodes[..i] + nodes[i + 1..];
      entries := entries[..i] + entries[i + 1..];
      forall k {:trigger nodes[k].next} {:trigger nodes[k].bssid} {:trigger entries[k]} | 0 <= k < |nodes|
        ensures nodes[k].next == At(k + 1) && nodes[k].Value() == entries[k]
      {
        var m := if k < i then k else k + 1;
        assert nodes[k] == was[m] && entries[k] == es[m];
      }
    }

    /** Unlink node number `i`, whose predecessor is `prev` (null for the first node). */
    method Unlink(ghost i: int, prev: Node?, e: Node)
      requires Valid() && 0 <= i < |nodes| && e == At(i) && prev == At(i - 1)
      modifies this, if prev == null then {} else {prev}
      ensures Valid() && nodes == old(nodes)[..i] + old(nodes)[i + 1..]
      ensures entries == old(entries)[..i] + old(entries)[i + 1..]
      ensures reconfigured == old(reconfigured)
      ensures At(i) == old(At(i + 1)) && At(i - 1) == prev
    {
      Relink(i, prev, e);
      Renumber(i);
    }

    /** Delete the entries that have been expired for over an hour. */
    method Update(now: Time)
      requires Valid()
      modifies this, nodes
      ensures Valid() && forall n :: n in nodes ==> n in old(nodes)
      ensures Model() == IgnoreModel.Updated(old(Model()), now)
    {
      hide PrunedTo;
      ghost var es := entries;
      ghost var i, m := 0, 0;     // entries kept, of those looked at
      PruneStart(es, now);
      var e, prev := head, null;
      while e != null
        invariant Valid() && reconfigured == old(reconfigured)
        invariant forall n :: n in nodes ==> n in old(nodes)
        invariant 0 <= i <= |entries| && 0 <= m <= |es| && e == At(i) && prev == At(i - 1)
        invariant PrunedTo(entries, es, i, m, now)
        decreases |entries| - i
      {
        PruneOne(entries, es, i, m, now);
        if Expired(now, e.start, e.timeoutSecs + IgnoreModel.FORGET_SECS) {
          var next := e.next;
          assert prev == null || prev in nodes;
          Unlink(i, prev, e);
          e := next;
        } else {
          prev := e;
          e := e.next;
          i := i + 1;
        }
        m := m + 1;
      }
      PruneEnd(entries, es, i, m, now);
    }

    method Clear()
      requires Valid()
      modifies this
      ensures Valid() && Model() == IgnoreModel.Cleared(old(Model())) && nodes == []
    {
      head := null;
      nodes, entries := [], [];
    }

    /** The entry for a BSSID after the list was brought up to date, or null. */
    method Get(b: Mac, now: Time) returns (e: Node?)
      requires Valid()
      modifies this, nodes
      ensures Valid() && forall n :: n in nodes ==> n in old(nodes)
      ensures Model() == IgnoreModel.Looked(old(Model()), now)
      ensures e == At(IgnoreModel.Position(entries, b))
    {
      if reconfigured {
        Clear();
        reconfigured := false;
        return null;
      }
      Update(now);
      ghost var i := 0;
      e := head;
      while e != null
        invariant 0 <= i <= |nodes| && e == At(i)
        invariant forall k :: 0 <= k < i ==> entries[k].bssid != b
        decreases |nodes| - i
      {
        if e.bssid == b {
          break;
        }
        e := e.next;
        i := i + 1;
      }
      PositionIs(entries, b, i);
    }

    method Add(b: Mac, now: Time) returns (count: int)
      requires Valid()
      modifies this, nodes
      ensures Valid() && forall n :: n in nodes ==> n in old(nodes) || fresh(n)
      ensures (Model(), count) == IgnoreModel.Added(old(Model()), b, now)
    {
      hide IgnoreModel.Position, IgnoreModel.Counted, IgnoreModel.Prune;
      var e := Get(b, now);
      if e != null {
        assert e in nodes;
        Recount(IgnoreModel.Position(entries, b), e, now);
        return e.count;
      }
      Push(b, now);
      return 1;
    }

    /** A further failure of a listed BSSID. */
    method Recount(ghost k: int, e: Node, now: Time)
      requires Valid() && 0 <= k < |nodes| && e == nodes[k]
      modifies this, e
      ensures Valid() && nodes == old(nodes) && reconfigured == old(reconfigured)
      ensures entries == old(entries)[k := IgnoreModel.Counted(old(entries)[k], now)] && e.count == old(entries)[k].count + 1
    {
      e.CountUp(now);
      entries := entries[k := IgnoreModel.Counted(entries[k], now)];
    }

    /** A first failure: a new node at the head of the list. */
    method Push(b: Mac, now: Time)
      requires Valid()
      modifies this
      ensures Valid() && |nodes| == |old(nodes)| + 1 && fresh(nodes[0]) && nodes[1..] == old(nodes)
      ensures entries == [IgnoreModel.Entry(b, 1, now, 10)] + old(entries) && reconfigured == old(reconfigured)
    {
      var n := new Node(b, 1, now, 10, head);
      head := n;
      nodes := [n] + nodes;
      entries := [IgnoreModel.Entry(b, 1, now, 10)] + entries;
    }

    method Del(b: Mac) returns (r: int)
      requires Valid()
      modifies this, nodes
      ensures Valid() && forall n :: n in nodes ==> n in old(nodes)
      ensures (Model(), r) == IgnoreModel.Deleted(old(Model()), b)
    {
      ghost var i := 0;
      var e, prev := head, null;
      while e != null
        invariant 0 <= i <= |nodes| && e == At(i) && prev == At(i - 1)
        invariant forall k :: 0 <= k < i ==> entries[k].bssid != b
        decreases |nodes| - i
      {
        if e.bssid == b {
          PositionIs(entries, b, i);
          Unlink(i, prev, e);
          return 0;
        }
        prev := e;
        e := e.next;
        i := i + 1;
      }
      PositionIs(entries, b, i);
      return -1;
    }

    method IsListed(b: Mac, now: Time) returns (count: int)
      requires Valid()
      modifies this, nodes
      ensures Valid() && forall n :: n in nodes ==> n in old(nodes)
      ensures Model() == IgnoreModel.Looked(old(Model()), now)
      ensures count == IgnoreModel.Listed(old(Model()), b, now)
    {
      var e := Get(b, now);
      if e == null {
        return 0;
      }
      if Expired(now, e.start, e.timeoutSecs) {
        return 0;
      }
      return e.count;
    }
  }

  lemma PositionIs(es: seq<Entry>, b: Mac, i: int)
    requires 0 <= i <= |es| && (forall k :: 0 <= k < i ==> es[k].bssid != b)
    requires i < |es| ==> es[i].bssid == b
    ensures IgnoreModel.Position(es, b) == i
  {
  }

  /** The list `es` with its first `m` entries pruned down to `i`. */
  ghost predicate PrunedTo(entries: seq<Entry>, es: seq<Entry>, i: int, m: int, now: Time) {
    && 0 <= i <= |entries| && 0 <= m <= |es|
    && entries[i..] == es[m..] && entries[..i] == IgnoreModel.Prune(es[..m], now)
  }

  lemma PruneStart(es: seq<Entry>, now: Time)
    ensures PrunedTo(es, es, 0, 0, now)
  {
  }

  lemma PruneEnd(entries: seq<Entry>, es: seq<Entry>, i: int, m: int, now: Time)
    requires PrunedTo(entries, es, i, m, now) && i == |entries|
    ensures entries == IgnoreModel.Prune(es, now)
  {
    assert |entries[i..]| == 0 && m == |es|;
    assert es[..m] == es && entries[..i] == entries;
  }

  /** Looking at one more entry: it goes if it is stale, else it stays. */
  lemma PruneOne(entries: seq<Entry>, es: seq<Entry>, i: int, m: int, now: Time)
    requires PrunedTo(entries, es, i, m, now) && i < |entries|
    ensures m < |es|
    ensures if IgnoreModel.Stale(entries[i], now)
            then PrunedTo(entries[..i] + entries[i + 1..], es, i, m + 1, now)
            else PrunedTo(entries, es, i + 1, m + 1, now)
  {
    assert |entries[i..]| == |es[m..]|;
    assert entries[i] == entries[i..][0] == es[m..][0];
    assert entries[i + 1..] == entries[i..][1..] == es[m..][1..] == es[m + 1..];
    assert es[..m + 1][..m] == es[..m];
    assert entries[..i + 1] == entries[..i] + [entries[i]];
    var cut := entries[..i] + entries[i + 1..];
    assert cut[..i] == entries[..i] && cut[i..] == entries[i + 1..];
  }
}

/** The table invariant, and why each table operation keeps it. */
module BssInvariant {
  import opened Seqs
  import opened BssModel

  /** Both lists hold exactly the live entries, once each, and the counter agrees. */
  ghost predicate Structure(t: Table) {
    && NoDup(t.bss) && NoDup(t.bssId)
    && (forall p :: p in t.bss <==> p in t.heap)
    && (forall p :: p in t.bssId <==> p in t.heap)
    && t.numBss == |t.bss|
  }

  /** The id list is in strictly increasing id order. */
  ghost predicate IdOrder(t: Table)
    requires Structure(t)
  {
    && (forall i, j :: 0 <= i < j < |t.bssId| ==> t.heap[t.bssId[i]].id < t.heap[t.bssId[j]].id)
    && (forall p :: p in t.heap ==> t.heap[p].id < t.nextId)
  }

  /** Along the update order, the round of the last update never goes back. */
  ghost predicate RoundOrder(t: Table)
    requires Structure(t)
  {
    && (forall i, j :: 0 <= i < j < |t.bss| ==> t.heap[t.bss[i]].lastIdx <= t.heap[t.bss[j]].lastIdx)
    && (forall p :: p in t.heap ==> t.heap[p].lastIdx <= t.updateIdx)
  }

  /** The round index holds exactly the entries updated in the current round, once each. */
  ghost predicate RoundIndex(t: Table) {
    && NoDup(t.lastRes)
    && (forall p :: p in t.lastRes <==> p in t.heap && t.heap[p].lastIdx == t.updateIdx)
    && |t.lastRes| <= t.lastResSize
  }

  predicate CurrentLive(t: Table) {
    t.current.Some? ==> t.current.value in t.heap
  }

  /** No reference kept outside the lists dangles. */
  predicate References(t: Table) {
    && CurrentLive(t)
    && (t.pending.Work? && t.pending.bss.Some? ==> t.pending.bss.value in t.heap)
  }

  predicate SameKey(e: Bss, f: Bss) {
    e.bssid == f.bssid && e.ssid == f.ssid
  }

  ghost predicate UniqueKeys(t: Table) {
    forall p, q {:trigger SameKey(t.heap[p], t.heap[q])} ::
      p in t.heap && q in t.heap && SameKey(t.heap[p], t.heap[q]) ==> p == q
  }

  predicate Capacity(t: Table) {
    t.numBss <= t.maxCount
  }

  /** No entry stays once its miss count reaches the limit, which is at least one. */
  ghost predicate MissBound(t: Table) {
    && 0 < t.expireCount
    && forall p :: p in t.heap ==> t.heap[p].miss < t.expireCount
  }

  ghost predicate Valid(t: Table) {
    && Structure(t)
    && IdOrder(t) && RoundOrder(t) && RoundIndex(t)
    && References(t) && UniqueKeys(t) && Capacity(t) && MissBound(t)
  }

  lemma IdsAreUnique(t: Table, p: Ptr, q: Ptr)
    requires Structure(t) && IdOrder(t)
    requires p in t.heap && q in t.heap && t.heap[p].id == t.heap[q].id
    ensures p == q
  {
    var i :| 0 <= i < |t.bssId| && t.bssId[i] == p;
    var j :| 0 <= j < |t.bssId| && t.bssId[j] == q;
    assert i == j;
  }

  /** The entries of the current round are a suffix of the update order. */
  lemma RoundIsSuffix(t: Table) returns (k: int)
    requires Valid(t)
    ensures 0 <= k <= |t.bss|
    ensures forall i :: 0 <= i < |t.bss| ==> (t.bss[i] in t.lastRes <==> k <= i)
  {
    k := |t.bss|;
    while k > 0 && t.bss[k - 1] in t.lastRes
      invariant 0 <= k <= |t.bss| && forall i :: k <= i < |t.bss| ==> t.bss[i] in t.lastRes
    {
      k := k - 1;
    }
    if k > 0 {
      var y := t.bss[k - 1];
      assert y in t.bss && t.heap[y].lastIdx < t.updateIdx;
      forall i | 0 <= i < k ensures t.bss[i] !in t.lastRes {
        assert t.bss[i] in t.bss && t.heap[t.bss[i]].lastIdx <= t.heap[y].lastIdx;
      }
    }
  }

  // ---- Removal ----

  lemma RestrictStructure(t: Table, keep: set<Ptr>)
    requires Structure(t)
    ensures Structure(Restrict(t, keep))
  {
    KeepNoDup(t.bss, keep);
    KeepNoDup(t.bssId, keep);
  }

  /** Any removal keeps the invariant, as long as the current entry is not among the removed. */
  lemma RestrictValid(t: Table, keep: set<Ptr>)
    requires Valid(t)
    requires t.current.Some? ==> t.current.value in keep
    ensures Valid(Restrict(t, keep))
  {
    var t' := Restrict(t, keep);
    RestrictStructure(t, keep);
    KeepNoDup(t.lastRes, keep);
    forall i, j | 0 <= i < j < |t'.bssId| ensures t'.heap[t'.bssId[i]].id < t'.heap[t'.bssId[j]].id {
      var i', j' := KeepOrder(t.bssId, keep, i, j);
      assert t'.bssId[i] in t'.bssId && t'.bssId[j] in t'.bssId;
    }
    forall i, j | 0 <= i < j < |t'.bss| ensures t'.heap[t'.bss[i]].lastIdx <= t'.heap[t'.bss[j]].lastIdx {
      var i', j' := KeepOrder(t.bss, keep, i, j);
      assert t'.bss[i] in t'.bss && t'.bss[j] in t'.bss;
    }
  }

  /** Removing in two steps is removing at once. */
  lemma RestrictRestrict(t: Table, a: set<Ptr>, b: set<Ptr>)
    ensures Restrict(Restrict(t, a), b) == Restrict(t, a * b)
  {
    KeepKeep(t.bss, a, b);
    KeepKeep(t.bssId, a, b);
    KeepKeep(t.lastRes, a, b);
  }

  // ---- Eviction and insertion ----

  /** The current entry goes when the table is full and it is the first one that stage one does not spare. */
  predicate EvictsCurrent(t: Table) {
    Full(t) && FirstIn(t.bss, Unretained(t)).Some? && FirstIn(t.bss, Unretained(t)) == t.current
  }

  /** A known current entry is spared; that its network is configured is not enough, as one without SSID knows none. */
  lemma KnownIsSpared(t: Table)
    requires t.current.Some? && t.current.value in t.heap ==> Known(t.env, t.heap[t.current.value])
    ensures !EvictsCurrent(t)
  {
    hide Known;
  }

  lemma MakeRoomValid(t: Table)
    requires Valid(t) && !EvictsCurrent(t)
    ensures Valid(MakeRoom(t)) && !Full(MakeRoom(t))
  {
    if Full(t) {
      var v := Victim(t);
      if v.Some? {
        RestrictValid(t, t.heap.Keys - {v.value});
        RemovedCount(t, v.value);
      }
    }
  }

  lemma RoomIsSubset(t: Table)
    requires Valid(t)
    ensures UniqueKeys(t)
    ensures forall p :: p in MakeRoom(t).heap ==> p in t.heap && MakeRoom(t).heap[p] == t.heap[p]
  {
  }

  lemma RemovedCount(t: Table, p: Ptr)
    requires Structure(t) && p in t.heap
    ensures Removed(t, p).numBss == t.numBss - 1
    ensures Removed(t, p).heap == t.heap - {p}
  {
    var k :| 0 <= k < |t.bss| && t.bss[k] == p;
    assert |Keep(t.bss, t.heap.Keys - {p})| == |t.bss| - 1 by {
      KeepRemoveAt(t.bss, k, t.heap.Keys - {p});
    }
  }

  /** The victim is chosen without looking at the entry being added. */
  lemma MakeRoomAllocated(t: Table, a: Ptr, e: Bss)
    requires Structure(t) && RoundIndex(t) && References(t) && a !in t.heap
    ensures MakeRoom(Allocated(t, a, e)) == Allocated(MakeRoom(t), a, e)
  {
    VictimAllocated(t, a, e);
    if Full(t) && Victim(t).Some? {
      RemovedAllocated(t, a, e, Victim(t).value);
    }
  }

  /**
   Without assuming that the table keeps to its maximum, which may have been lowered: adding an entry to a table that
   is over it replaces an entry, so the table does not grow, but neither does it ever get back to the maximum.
   */
  lemma CapacityExactly(t: Table, a: Ptr, e: Bss)
    requires Structure(t) && RoundIndex(t) && References(t) && a !in t.heap
    ensures Capacity(Added(t, a, e)) <==> Capacity(t) || Victim(t).None?
    ensures Added(t, a, e).numBss == if Full(t) && Victim(t).Some? then t.numBss else t.numBss + 1
  {
    MakeRoomAllocated(t, a, e);
    if Full(t) && Victim(t).Some? {
      RemovedCount(t, Victim(t).value);
    }
  }

  lemma RemovedAllocated(t: Table, a: Ptr, e: Bss, v: Ptr)
    requires Structure(t) && RoundIndex(t) && References(t) && a !in t.heap && v in t.heap
    ensures Removed(Allocated(t, a, e), v) == Allocated(Removed(t, v), a, e)
  {
    var keep, keep' := t.heap.Keys - {v}, Allocated(t, a, e).heap.Keys - {v};
    KeepAgree(t.bss, keep, keep');
    KeepAgree(t.bssId, keep, keep');
    KeepAgree(t.lastRes, keep, keep');
    KeepRest(t, a, e, keep, keep');
  }

  lemma VictimAllocated(t: Table, a: Ptr, e: Bss)
    requires Structure(t) && References(t) && a !in t.heap
    ensures Victim(Allocated(t, a, e)) == Victim(t)
  {
    var ta := Allocated(t, a, e);
    assert forall p :: p in t.heap ==> InUse(t, p) == InUse(ta, p);
    FirstInAgree(t.bss, Unretained(t), Unretained(ta));
    FirstInAgree(t.bss, Unused(t), Unused(ta));
  }

  lemma KeepRest(t: Table, a: Ptr, e: Bss, keep: set<Ptr>, keep': set<Ptr>)
    requires References(t) && a !in t.heap && keep <= t.heap.Keys && keep' == keep + {a}
    requires Keep(t.bss, keep) == Keep(t.bss, keep') && Keep(t.bssId, keep) == Keep(t.bssId, keep')
    requires Keep(t.lastRes, keep) == Keep(t.lastRes, keep')
    ensures Restrict(Allocated(t, a, e), keep') == Allocated(Restrict(t, keep), a, e)
  {
    assert Restrict(Allocated(t, a, e), keep').heap == Allocated(Restrict(t, keep), a, e).heap;
  }

  /** Linking a fresh entry into a table with room. */
  lemma AppendValid(t: Table, a: Ptr, e: Bss)
    requires Valid(t) && a !in t.heap && !Full(t)
    requires e.id == t.nextId && e.lastIdx == t.updateIdx && e.miss == 0
    requires forall p :: p in t.heap ==> !SameKey(t.heap[p], e)
    ensures Valid(Note(Link(Allocated(t, a, e), a), a))
  {
    AppendStructure(t, a, e);
    AppendOrder(t, Note(Link(Allocated(t, a, e), a), a), a, e);
    AppendIndex(t, a, e);
  }

  lemma AppendStructure(t: Table, a: Ptr, e: Bss)
    requires Structure(t) && a !in t.heap
    ensures Structure(Note(Link(Allocated(t, a, e), a), a))
  {
    NoDupAppend(t.bss, a);
    NoDupAppend(t.bssId, a);
  }

  lemma AppendIndex(t: Table, a: Ptr, e: Bss)
    requires RoundIndex(t) && a !in t.heap && e.lastIdx == t.updateIdx
    ensures RoundIndex(Note(Link(Allocated(t, a, e), a), a))
  {
    NoDupAppend(t.lastRes, a);
  }

  lemma AppendOrder(t: Table, t': Table, a: Ptr, e: Bss)
    requires Structure(t) && Structure(t') && IdOrder(t) && RoundOrder(t)
    requires a !in t.heap && t'.heap == t.heap[a := e] && t'.bss == t.bss + [a] && t'.bssId == t.bssId + [a]
    requires e.id == t.nextId && t'.nextId == t.nextId + 1
    requires e.lastIdx == t.updateIdx && t'.updateIdx == t.updateIdx
    ensures IdOrder(t') && RoundOrder(t')
  {
    AppendIdOrder(t, t', a, e);
    AppendRoundOrder(t, t', a, e);
    hide Structure, IdOrder, RoundOrder;
  }

  lemma AppendIdOrder(t: Table, t': Table, a: Ptr, e: Bss)
    requires Structure(t) && Structure(t') && IdOrder(t)
    requires a !in t.heap && t'.heap == t.heap[a := e] && t'.bssId == t.bssId + [a]
    requires e.id == t.nextId && t'.nextId == t.nextId + 1
    ensures IdOrder(t')
  {
    hide NoDup;
    forall i, j | 0 <= i < j < |t'.bssId| ensures t'.heap[t'.bssId[i]].id < t'.heap[t'.bssId[j]].id {
      AppendLookup(t, t', t.bssId, a, e, i);
      AppendLookup(t, t', t.bssId, a, e, j);
    }
  }

  lemma AppendRoundOrder(t: Table, t': Table, a: Ptr, e: Bss)
    requires Structure(t) && Structure(t') && RoundOrder(t)
    requires a !in t.heap && t'.heap == t.heap[a := e] && t'.bss == t.bss + [a]
    requires e.lastIdx == t.updateIdx && t'.updateIdx == t.updateIdx
    ensures RoundOrder(t')
  {
    hide NoDup;
    forall i, j | 0 <= i < j < |t'.bss| ensures t'.heap[t'.bss[i]].lastIdx <= t'.heap[t'.bss[j]].lastIdx {
      AppendLookup(t, t', t.bss, a, e, i);
      AppendLookup(t, t', t.bss, a, e, j);
    }
  }

  lemma AppendLookup(t: Table, t': Table, s: seq<Ptr>, a: Ptr, e: Bss, i: int)
    requires a !in t.heap && t'.heap == t.heap[a := e] && 0 <= i <= |s| && forall q :: q in s ==> q in t.heap
    ensures (s + [a])[i] in t'.heap
    ensures t'.heap[(s + [a])[i]] == if i < |s| && s[i] in t.heap then t.heap[s[i]] else e
    ensures i < |s| ==> s[i] in t.heap
  {
    if i < |s| {
      assert s[i] in s;
    }
  }

  // ---- Update in place and relocation ----

  lemma RefreshValid(t: Table, p: Ptr, e: Bss)
    requires Valid(t) && p in t.heap
    requires e.id == t.heap[p].id && SameKey(e, t.heap[p])
    requires e.lastIdx == t.updateIdx && e.miss == 0
    ensures Valid(Note(Refresh(t, p, e), p))
  {
    RefreshStructure(t, p, e);
    RefreshOrder(t, p, e);
    RefreshIds(t, p, e);
    RefreshIndex(t, p, e);
    RefreshRest(t, p, e);
  }

  lemma RefreshRest(t: Table, p: Ptr, e: Bss)
    requires References(t) && UniqueKeys(t) && Capacity(t) && MissBound(t) && p in t.heap
    requires SameKey(e, t.heap[p]) && e.miss == 0
    ensures var t' := Note(Refresh(t, p, e), p);
            References(t') && UniqueKeys(t') && Capacity(t') && MissBound(t')
  {
    SameKeys(t, Note(Refresh(t, p, e), p));
  }

  lemma RefreshIds(t: Table, p: Ptr, e: Bss)
    requires Structure(t) && IdOrder(t) && p in t.heap && e.id == t.heap[p].id
    requires Structure(Note(Refresh(t, p, e), p))
    ensures IdOrder(Note(Refresh(t, p, e), p))
  {
    var t' := Note(Refresh(t, p, e), p);
    assert forall i :: 0 <= i < |t.bssId| ==> t.bssId[i] in t.bssId && t'.heap[t.bssId[i]].id == t.heap[t.bssId[i]].id;
  }

  lemma RefreshIndex(t: Table, p: Ptr, e: Bss)
    requires RoundIndex(t) && p in t.heap && e.lastIdx == t.updateIdx
    ensures RoundIndex(Note(Refresh(t, p, e), p))
  {
    if p !in t.lastRes {
      NoDupAppend(t.lastRes, p);
    }
  }

  /** Keys stay unique when every entry keeps its key. */
  lemma SameKeys(t: Table, t': Table)
    requires UniqueKeys(t) && t'.heap.Keys == t.heap.Keys
    requires forall q :: q in t'.heap ==> SameKey(t'.heap[q], t.heap[q])
    ensures UniqueKeys(t')
  {
    forall q, r | q in t'.heap && r in t'.heap && SameKey(t'.heap[q], t'.heap[r]) ensures q == r {
      assert SameKey(t.heap[q], t.heap[r]);
    }
  }

  lemma RefreshStructure(t: Table, p: Ptr, e: Bss)
    requires Structure(t) && p in t.heap
    ensures Structure(Note(Refresh(t, p, e), p))
    ensures Refresh(t, p, e).bss[..|t.bss| - 1] == Keep(t.bss, Elems(t.bss) - {p})
  {
    var keep := Elems(t.bss) - {p};
    KeepNoDup(t.bss, keep);
    var k :| 0 <= k < |t.bss| && t.bss[k] == p;
    KeepRemoveAt(t.bss, k, keep);
    NoDupAppend(Keep(t.bss, keep), p);
  }

  lemma RefreshOrder(t: Table, p: Ptr, e: Bss)
    requires Structure(t) && RoundOrder(t) && p in t.heap && e.lastIdx == t.updateIdx
    requires Structure(Note(Refresh(t, p, e), p))
    ensures RoundOrder(Note(Refresh(t, p, e), p))
  {
    hide Keep, NoDup, Note, Refresh;
    var t' := Note(Refresh(t, p, e), p);
    RefreshFields(t, p, e);
    assert forall k :: 0 <= k < |t.bss| ==> t.bss[k] in t.bss;
    forall i, j | 0 <= i < j < |t'.bss| ensures t'.heap[t'.bss[i]].lastIdx <= t'.heap[t'.bss[j]].lastIdx {
      RefreshPair(t.bss, t.heap, p, e, i, j);
    }
  }

  lemma RefreshFields(t: Table, p: Ptr, e: Bss)
    ensures var t' := Note(Refresh(t, p, e), p);
            t'.bss == Keep(t.bss, Elems(t.bss) - {p}) + [p] && t'.heap == t.heap[p := e] && t'.updateIdx == t.updateIdx
  {
    hide Keep;
  }

  lemma RefreshPair(s: seq<Ptr>, h: map<Ptr, Bss>, p: Ptr, e: Bss, i: int, j: int)
    requires forall k :: 0 <= k < |s| ==> s[k] in h && h[s[k]].lastIdx <= e.lastIdx
    requires forall k, l :: 0 <= k < l < |s| ==> h[s[k]].lastIdx <= h[s[l]].lastIdx
    requires 0 <= i < j < |Keep(s, Elems(s) - {p}) + [p]|
    ensures var r, h' := Keep(s, Elems(s) - {p}) + [p], h[p := e];
            r[i] in h' && r[j] in h' && h'[r[i]].lastIdx <= h'[r[j]].lastIdx
  {
    hide Keep;
    var keep := Elems(s) - {p};
    var rest := Keep(s, keep);
    assert rest[i] in rest;
    if j < |rest| {
      var i', j' := KeepOrder(s, keep, i, j);
      assert rest[j] in rest;
    }
  }

  /** Moving an entry to an unused address, with every reference patched, loses nothing. */
  lemma RenameValid(t: Table, p: Ptr, n: Ptr)
    requires Valid(t) && p in t.heap && (n == p || n !in t.heap)
    ensures Valid(Rename(t, p, n))
  {
    RenameStructure(t, p, n);
    RenameOrder(t, p, n);
    RenameIndex(t, p, n);
    RenameKeys(t, p, n);
  }

  lemma RenameStructure(t: Table, p: Ptr, n: Ptr)
    requires Structure(t) && p in t.heap && (n == p || n !in t.heap)
    ensures Structure(Rename(t, p, n))
  {
    SubstRenames(t.bss, p, n);
    SubstRenames(t.bssId, p, n);
  }

  lemma RenameIndex(t: Table, p: Ptr, n: Ptr)
    requires RoundIndex(t) && p in t.heap && (n == p || n !in t.heap)
    ensures RoundIndex(Rename(t, p, n))
  {
    SubstRenames(t.lastRes, p, n);
  }

  lemma RenameKeys(t: Table, p: Ptr, n: Ptr)
    requires UniqueKeys(t) && p in t.heap && (n == p || n !in t.heap)
    ensures UniqueKeys(Rename(t, p, n))
  {
    var t' := Rename(t, p, n);
    forall q, r | q in t'.heap && r in t'.heap && SameKey(t'.heap[q], t'.heap[r]) ensures q == r {
      var q0, r0 := if q == n then p else q, if r == n then p else r;
      assert SameKey(t.heap[q0], t.heap[r0]);
    }
  }

  lemma RenameOrder(t: Table, p: Ptr, n: Ptr)
    requires Structure(t) && IdOrder(t) && RoundOrder(t) && p in t.heap && (n == p || n !in t.heap)
    requires Structure(Rename(t, p, n))
    ensures IdOrder(Rename(t, p, n)) && RoundOrder(Rename(t, p, n))
  {
    hide Structure;
    RenameIdOrder(t, p, n);
    RenameRoundOrder(t, p, n);
  }

  lemma RenameIdOrder(t: Table, p: Ptr, n: Ptr)
    requires Structure(t) && IdOrder(t) && p in t.heap && (n == p || n !in t.heap)
    requires Structure(Rename(t, p, n))
    ensures IdOrder(Rename(t, p, n))
  {
    hide NoDup, Subst;
    var t' := Rename(t, p, n);
    assert |t'.bssId| == |t.bssId|;
    forall i, j | 0 <= i < j < |t'.bssId| ensures t'.heap[t'.bssId[i]].id < t'.heap[t'.bssId[j]].id {
      RenameLookup(t, t.bssId, p, n, i);
      RenameLookup(t, t.bssId, p, n, j);
    }
  }

  lemma RenameRoundOrder(t: Table, p: Ptr, n: Ptr)
    requires Structure(t) && RoundOrder(t) && p in t.heap && (n == p || n !in t.heap)
    requires Structure(Rename(t, p, n))
    ensures RoundOrder(Rename(t, p, n))
  {
    hide NoDup, Subst;
    var t' := Rename(t, p, n);
    assert |t'.bss| == |t.bss|;
    forall i, j | 0 <= i < j < |t'.bss| ensures t'.heap[t'.bss[i]].lastIdx <= t'.heap[t'.bss[j]].lastIdx {
      RenameLookup(t, t.bss, p, n, i);
      RenameLookup(t, t.bss, p, n, j);
    }
  }

  /** Following the renamed list into the renamed heap finds the same entries. */
  lemma RenameLookup(t: Table, s: seq<Ptr>, p: Ptr, n: Ptr, i: int)
    requires 0 <= i < |s| && s[i] in t.heap && p in t.heap && (n == p || n !in t.heap)
    ensures |Subst(s, p, n)| == |s|
    ensures var h, q := (t.heap - {p})[n := t.heap[p]], Subst(s, p, n)[i];
            q in h && h[q] == t.heap[s[i]]
  {
  }

  lemma SubstRenames(s: seq<Ptr>, p: Ptr, n: Ptr)
    requires NoDup(s) && (n == p || n !in s)
    ensures NoDup(Subst(s, p, n))
    ensures forall q :: q in Subst(s, p, n) <==> (q == n && p in s) || (q != p && q in s)
  {
    var r := Subst(s, p, n);
    forall q ensures q in r <==> (q == n && p in s) || (q != p && q in s) {
      if q == n && p in s {
        var k :| 0 <= k < |s| && s[k] == p;
        assert r[k] == n;
      }
      if q != p && q in s {
        var k :| 0 <= k < |s| && s[k] == q;
        assert r[k] == q;
      }
    }
  }

  /** Recording the entry and relocating it may be done in either order. */
  lemma NoteRename(t: Table, p: Ptr, n: Ptr)
    requires p in t.heap && (n == p || n !in t.lastRes)
    ensures Note(Rename(t, p, n), n) == Rename(Note(t, p), p, n)
  {
    var r := Subst(t.lastRes, p, n);
    if p in t.lastRes {
      var k :| 0 <= k < |t.lastRes| && t.lastRes[k] == p;
      assert r[k] == n;
    } else {
      assert r == t.lastRes;
      assert Subst(t.lastRes + [p], p, n) == t.lastRes + [n];
      assert n !in r;
    }
  }

  // ---- Rounds ----

  lemma EndedValid(t: Table, info: Option<Info>, newScan: bool)
    requires Valid(t)
    ensures Valid(Ended(t, info, newScan))
  {
    if Completed(info, newScan) {
      var t0 := Restrict(t, Unexpired(t, info));
      assert t.current.Some? ==> InUse(t, t.current.value);
      RestrictValid(t, Unexpired(t, info));
      EndedCounts(t, info, newScan);
      MissesOnly(t0, Ended(t, info, newScan));
    }
  }

  /** A completed round removes the expired entries and adds to the miss counts of others; nothing else. */
  lemma EndedCounts(t: Table, info: Option<Info>, newScan: bool)
    requires Completed(info, newScan)
    ensures var t' := Ended(t, info, newScan);
            var t0 := Restrict(t, Unexpired(t, info));
            && t' == t0.(heap := t'.heap) && t'.heap.Keys == t0.heap.Keys
            && forall p :: p in t'.heap ==> t'.heap[p] == t.heap[p].(miss := MissAfter(t, p, info))
    ensures MissBound(t) ==> MissBound(Ended(t, info, newScan))
  {
  }

  /** Miss counts play no role in the rest of the invariant. */
  lemma MissesOnly(t: Table, t': Table)
    requires Valid(t)
    requires t'.heap.Keys == t.heap.Keys
    requires forall p :: p in t.heap ==> t'.heap[p] == t.heap[p].(miss := t'.heap[p].miss)
    requires t' == t.(heap := t'.heap)
    ensures Structure(t') && IdOrder(t') && RoundOrder(t') && RoundIndex(t') && References(t') && UniqueKeys(t') && Capacity(t')
  {
    assert forall i :: 0 <= i < |t.bssId| ==> t.bssId[i] in t.bssId;
    assert forall i :: 0 <= i < |t.bss| ==> t.bss[i] in t.bss;
    SameKeys(t, t');
  }
}

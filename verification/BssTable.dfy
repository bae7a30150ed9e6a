/**
 The BSS table as the program keeps it: fields updated in place by loops over the lists.
 Every method is proved to do to the whole state what the model says.
 */
module BssTable {
  import opened Seqs
  import opened RelTimes
  import opened Macs
  import opened BssModel
  import opened BssInvariant
  import opened BssSurgery
  import BssFields

  class WpaSupplicant {
    var heap: map<Ptr, Bss>
    var bss: seq<Ptr>
    var bssId: seq<Ptr>
    var numBss: int
    var lastRes: seq<Ptr>
    var lastResSize: nat
    var current: Option<Ptr>
    var pending: Work
    var updateIdx: nat
    var nextId: nat
    var maxCount: int
    var expireCount: nat
    var env: Env

    function Model(): Table
      reads this
    {
      Table(heap, bss, bssId, numBss, lastRes, lastResSize, current, pending,
            updateIdx, nextId, maxCount, expireCount, env)
    }

    constructor (maxCount: int, expireCount: nat, env: Env)
      ensures Model() == Table(map[], [], [], 0, [], 0, None, NoWork, 0, 0, maxCount, expireCount, env)
    {
      heap, bss, bssId, numBss := map[], [], [], 0;
      lastRes, lastResSize := [], 0;
      current, pending := None, NoWork;
      updateIdx, nextId := 0, 0;
      this.maxCount, this.expireCount, this.env := maxCount, expireCount, env;
    }

    // ---- Looking at entries ----

    method Known(e: Bss) returns (known: bool)
      ensures known == BssModel.Known(env, e)
      ensures known == (BssFields.Joining(env, e) || BssFields.Configured(env, e.ssid))
    {
      BssFields.KnownExactly(env, e);
      hide BssFields.Joining, BssFields.Configured;
      if P2pPending(env, e) {
        return true;
      }
      for i := 0 to |env.networks|
        invariant forall n :: n in env.networks[..i] ==> n.ssid == [] || n.ssid != e.ssid
      {
        var n := env.networks[i];
        if n.ssid == [] {
          continue;
        }
        if n.ssid == e.ssid {
          assert n in env.networks;
          return true;
        }
      }
      assert env.networks[..|env.networks|] == env.networks;
      return false;
    }

    method IsWpsCandidate(e: Bss) returns (candidate: bool)
      ensures candidate == WpsCandidate(env, e) == BssFields.WpsWanted(env, e)
    {
      BssFields.WpsExactly(env.networks, e);
      hide BssFields.FirstFit;
      if e.ies.wps.NoWps? || e.ies.wps.Unauthorized? {
        return false;
      }
      for i := 0 to |env.networks|
        invariant WpsNetworkAccepts(env.networks, e) == WpsNetworkAccepts(env.networks[i..], e)
      {
        var n := env.networks[i];
        assert env.networks[i..][1..] == env.networks[i + 1..];
        if !n.wps || (n.ssid != [] && n.ssid != e.ssid) {
          continue;
        }
        return if e.ies.wps.SelectedPbc? then n.pbcEnrollee else n.pinEnrollee;
      }
      return false;
    }

    method IsInUse(p: Ptr) returns (inUse: bool)
      requires p in heap && CurrentLive(Model())
      ensures inUse == InUse(Model(), p) == BssFields.Serves(Model(), p)
    {
      BssFields.InUseExactly(Model(), p);
      hide BssFields.Serves;
      if current == Some(p) {
        return true;
      }
      if current.Some? && heap[p].ssid != heap[current.value].ssid {
        return false;
      }
      return heap[p].bssid != ZERO && (heap[p].bssid == env.bssid || heap[p].bssid == env.pendingBssid);
    }

    method FreqListed(freqs: seq<int>, freq: int) returns (found: bool)
      ensures found <==> freq in freqs
    {
      for i := 0 to |freqs|
        invariant freq !in freqs[..i]
      {
        if freq == freqs[i] {
          return true;
        }
      }
      assert freqs[..|freqs|] == freqs;
      return false;
    }

    method SsidListed(ssids: seq<Ssid>, ssid: Ssid) returns (found: bool)
      ensures found <==> exists s :: s in ssids && (s == [] || s == ssid)
    {
      for i := 0 to |ssids|
        invariant forall k :: 0 <= k < i ==> ssids[k] != [] && ssids[k] != ssid
      {
        if ssids[i] == [] || ssids[i] == ssid {
          assert ssids[i] in ssids;
          return true;
        }
      }
      return false;
    }

    method IncludedInScan(e: Bss, info: Option<Info>) returns (included: bool)
      ensures included == Included(info, e)
    {
      if info.None? {
        return true;
      }
      if info.value.freqs != [] {
        var found := FreqListed(info.value.freqs, e.radio.freq);
        if !found {
          return false;
        }
      }
      if info.value.ssids != [] {
        var found := SsidListed(info.value.ssids, e.ssid);
        if !found {
          return false;
        }
      }
      return true;
    }

    /** The entry for a (BSSID, SSID), the oldest one first. */
    method Get(bssid: Mac, ssid: Ssid) returns (r: Option<Ptr>)
      requires forall p :: p in bss ==> p in heap
      ensures r == Lookup(Model(), bssid, ssid)
    {
      if !FilterMatch(env, bssid) {
        return None;
      }
      ghost var wanted := set p | p in heap && HasKey(heap[p], bssid, ssid);
      for i := 0 to |bss|
        invariant forall k :: 0 <= k < i ==> bss[k] !in wanted
      {
        if heap[bss[i]].bssid == bssid && heap[bss[i]].ssid == ssid {
          FirstInIs(bss, wanted, i);
          return Some(bss[i]);
        }
      }
      return None;
    }

    /** The entry with the smallest id in a range. */
    method GetIdRange(idf: nat, idl: nat) returns (r: Option<Ptr>)
      requires Valid(Model())
      ensures r.None? <==> forall p :: p in heap ==> !(idf <= heap[p].id <= idl)
      ensures r.Some? ==> r.value in heap && idf <= heap[r.value].id <= idl
      ensures r.Some? ==> forall p :: p in heap && idf <= heap[p].id <= idl ==> heap[r.value].id <= heap[p].id
    {
      for i := 0 to |bssId|
        invariant forall k :: 0 <= k < i ==> !(idf <= heap[bssId[k]].id <= idl)
      {
        assert bssId[i] in bssId;
        if idf <= heap[bssId[i]].id <= idl {
          return Some(bssId[i]);
        }
      }
      return None;
    }

    // ---- Removing ----

    method UpdatePendingConnect(oldBss: Ptr, newBss: Option<Ptr>)
      modifies this`pending
      ensures pending == if old(pending).Work? && old(pending).bss == Some(oldBss)
                         then Work(newBss, old(pending).removed || newBss.None?) else old(pending)
    {
      if pending.NoWork? {
        return;
      }
      if pending.bss != Some(oldBss) {
        return;
      }
      pending := pending.(bss := newBss);
      if newBss.None? {
        pending := pending.(removed := true);
      }
    }

    method Remove(p: Ptr)
      requires Linked(Model()) && p in bss
      modifies this
      ensures Model() == Removed(old(Model()), p)
    {
      RemovedFields(Model(), p);
      hide Removed, Unlink, Linked;
      ForgetResult(p);
      UpdatePendingConnect(p, None);
      bss := Unlink(bss, p);
      bssId := Unlink(bssId, p);
      numBss := numBss - 1;
      heap := heap - {p};
    }

    /** Close the gap that `p` leaves in the round index. */
    method ForgetResult(p: Ptr)
      requires Linked(Model())
      modifies this`lastRes
      ensures lastRes == Keep(old(lastRes), heap.Keys - {p})
    {
      ghost var keep := heap.Keys - {p};
      for i := 0 to |lastRes|
        invariant lastRes == old(lastRes) && p !in lastRes[..i]
      {
        if lastRes[i] == p {
          KeepRemoveAt(lastRes, i, keep);
          lastRes := lastRes[..i] + lastRes[i + 1..];
          return;
        }
      }
      assert p !in lastRes[..|lastRes|];
      KeepAll(lastRes, keep);
    }

    // ---- Making room and adding ----

    method RemoveOldestUnknown() returns (ok: bool)
      requires Linked(Model())
      modifies this
      ensures ok <==> FirstIn(old(bss), Unretained(old(Model()))).Some?
      ensures Model() == if ok then Removed(old(Model()), FirstIn(old(bss), Unretained(old(Model()))).value)
                         else old(Model())
    {
      ghost var wanted := Unretained(Model());
      for i := 0 to |bss|
        invariant Model() == old(Model())
        invariant forall k :: 0 <= k < i ==> bss[k] !in wanted
      {
        hide Removed;
        assert bss[i] in bss;
        var known := Known(heap[bss[i]]);
        var candidate := IsWpsCandidate(heap[bss[i]]);
        if !known && !candidate {
          FirstInIs(bss, wanted, i);
          Remove(bss[i]);
          return true;
        }
      }
      return false;
    }

    method RemoveOldest() returns (ok: bool)
      requires Linked(Model())
      modifies this
      ensures ok <==> Victim(old(Model())).Some?
      ensures Model() == if ok then Removed(old(Model()), Victim(old(Model())).value) else old(Model())
    {
      hide Removed, Linked, Unretained;
      ok := RemoveOldestUnknown();
      if ok {
        return;
      }
      ok := RemoveOldestUnused();
    }

    method RemoveOldestUnused() returns (ok: bool)
      requires Linked(Model())
      modifies this
      ensures ok <==> FirstIn(old(bss), Unused(old(Model()))).Some?
      ensures Model() == if ok then Removed(old(Model()), FirstIn(old(bss), Unused(old(Model()))).value)
                         else old(Model())
    {
      ghost var wanted := Unused(Model());
      for i := 0 to |bss|
        invariant Model() == old(Model())
        invariant forall k :: 0 <= k < i ==> bss[k] !in wanted
      {
        hide Removed, InUse;
        assert bss[i] in bss;
        var inUse := IsInUse(bss[i]);
        if !inUse {
          FirstInIs(bss, wanted, i);
          Remove(bss[i]);
          return true;
        }
      }
      return false;
    }

    /** Evict an entry when the table is full, or raise the maximum when none may go. */
    method EnsureRoom()
      requires Linked(Model())
      modifies this
      ensures Model() == MakeRoom(old(Model()))
    {
      hide Removed, Linked, Victim;
      if numBss + 1 > maxCount {
        var ok := RemoveOldest();
        if !ok {
          maxCount := numBss + 1;
        }
      }
    }

    /** Returns the address of the new entry, or None when there was no memory for it. */
    method Add(ssid: Ssid, res: ScanRes, fetch: Time, alloc: Option<Ptr>) returns (r: Option<Ptr>)
      requires BssInvariant.Valid(Model()) && (alloc.Some? ==> alloc.value !in heap)
      modifies this
      ensures r == alloc
      ensures Model() == if alloc.None? then old(Model())
                         else Added(old(Model()), alloc.value, NewEntry(old(Model()), ssid, res, fetch))
    {
      hide Linked, BssInvariant.Valid, MakeRoom;
      if alloc.None? {
        return None;
      }
      var a := alloc.value;
      ghost var t := Model();
      var update := CalculateUpdateTime(fetch, res.age);
      var e := Bss(nextId, 0, updateIdx, res.bssid, ssid, res.radio, update, res.ies);
      AllocatedLinked(Model(), a, e);
      nextId := nextId + 1;
      heap := heap[a := e];
      assert Model() == Allocated(t, a, e);
      EnsureRoom();
      bss := bss + [a];
      bssId := bssId + [a];
      numBss := numBss + 1;
      return Some(a);
    }

    // ---- Updating ----

    /** Overwrite an entry with a result, unless a better one was seen this round; returns where it lives now. */
    method Update(p: Ptr, res: ScanRes, fetch: Time, alloc: Option<Ptr>) returns (r: Ptr)
      requires BssInvariant.Valid(Model()) && p in heap
      requires alloc.Some? ==> alloc.value !in heap || alloc.value == p
      modifies this
      ensures var t := old(Model());
              if Outdated(t, p, res, fetch) then r == p && Model() == t
              else
                && r == NewHome(t.heap[p], p, res, alloc)
                && Model() == Rename(Refresh(t, p, Refreshed(t, t.heap[p], res, fetch, alloc)), p, r)
    {
      ghost var t := Model();
      EntryIsLinked(t, p);
      RefreshedIs(t, p, res, fetch, alloc);
      hide BssInvariant.Valid, Unlink, Rename, Refresh, NewHome, Grows, KeepsIes, NoDup, Refreshed;
      var update := CalculateUpdateTime(fetch, res.age);
      if heap[p].lastIdx == updateIdx {
        if heap[p].radio.associated || (!res.radio.associated && !Before(heap[p].lastUpdate, update)) {
          return p;
        }
      }
      r := Overwrite(p, res, update, alloc);
      MovedIs(t, p, Refreshed(t, t.heap[p], res, fetch, alloc), r);
    }

    /** The accepted half of an update. */
    method Overwrite(p: Ptr, res: ScanRes, update: Time, alloc: Option<Ptr>) returns (r: Ptr)
      requires p in heap && p in bss && p in bssId && NoDup(bssId) && NoDup(lastRes)
      modifies this
      ensures var t := old(Model());
              var e := Copied(t, t.heap[p], res, update);
              && r == NewHome(e, p, res, alloc)
              && Model() == t.(
                   heap := (t.heap - {p})[r := e.(ies := NewIes(e, res, alloc))],
                   bss := Unlink(t.bss, p) + [r],
                   bssId := Subst(t.bssId, p, r),
                   lastRes := Subst(t.lastRes, p, r),
                   current := SubstRef(t.current, p, r),
                   pending := RenamedWork(t.pending, p, r))
    {
      hide Unlink, NewHome, NoDup, NewIes;
      ghost var h := heap;
      var e := heap[p].(miss := 0, lastIdx := updateIdx, bssid := res.bssid, radio := res.radio, lastUpdate := update);
      heap := heap[p := e];
      bss := Unlink(bss, p);
      r := StoreIes(p, res, alloc);
      bss := bss + [r];
      SetThenMove(h, p, e, r, e.(ies := NewIes(e, res, alloc)));
    }

    /** Replace the stored elements where that is wanted, in place when they fit. */
    method StoreIes(p: Ptr, res: ScanRes, alloc: Option<Ptr>) returns (r: Ptr)
      requires p in heap && p in bssId && NoDup(bssId) && NoDup(lastRes)
      modifies this`heap, this`bssId, this`lastRes, this`current, this`pending
      ensures var e := old(heap)[p];
              && r == NewHome(e, p, res, alloc)
              && heap == (old(heap) - {p})[r := e.(ies := NewIes(e, res, alloc))]
      ensures bssId == Subst(old(bssId), p, r)
      ensures lastRes == Subst(old(lastRes), p, r)
      ensures current == SubstRef(old(current), p, r)
      ensures pending == RenamedWork(old(pending), p, r)
    {
      SubstSelf(bssId, p);
      SubstSelf(lastRes, p);
      hide NoDup;
      r := p;
      if heap[p].ies.p2p && !res.ies.p2p {
        // the stored elements stay
      } else if heap[p].ies.len >= res.ies.len {
        heap := heap[p := heap[p].(ies := res.ies)];
      } else {
        r := Reallocate(p, res.ies, alloc);
      }
    }

    /** Make room for larger elements; the entry may move, and everything that points at it is told. */
    method Reallocate(p: Ptr, ies: Ies, alloc: Option<Ptr>) returns (r: Ptr)
      requires p in heap && p in bssId && NoDup(bssId) && NoDup(lastRes)
      modifies this`heap, this`bssId, this`lastRes, this`current, this`pending
      ensures r == if alloc.Some? then alloc.value else p
      ensures heap == if alloc.None? then old(heap) else (old(heap) - {p})[r := old(heap)[p].(ies := ies)]
      ensures bssId == Subst(old(bssId), p, r)
      ensures lastRes == Subst(old(lastRes), p, r)
      ensures current == SubstRef(old(current), p, r)
      ensures pending == RenamedWork(old(pending), p, r)
    {
      hide Unlink, IndexOf, NoDup, Subst;
      var prev := IndexOf(bssId, p);
      r := if alloc.Some? then alloc.value else p;
      Relink(bssId, p, r);
      SubstSelf(lastRes, p);
      bssId := Unlink(bssId, p);
      if alloc.Some? {
        MoveEntry(p, r);
        heap := heap[r := heap[r].(ies := ies)];
      }
      bssId := bssId[..prev] + [r] + bssId[prev..];
    }

    /** The allocator moved the entry: follow it with every reference outside the lists. */
    method MoveEntry(p: Ptr, r: Ptr)
      requires p in heap && NoDup(lastRes)
      modifies this`heap, this`lastRes, this`current, this`pending
      ensures heap == (old(heap) - {p})[r := old(heap)[p]]
      ensures lastRes == Subst(old(lastRes), p, r)
      ensures current == SubstRef(old(current), p, r)
      ensures pending == RenamedWork(old(pending), p, r)
    {
      heap := (heap - {p})[r := heap[p]];
      ReplaceResult(p, r);
      if current == Some(p) {
        current := Some(r);
      }
      UpdatePendingConnect(p, Some(r));
    }

    method ReplaceResult(p: Ptr, n: Ptr)
      requires NoDup(lastRes)
      modifies this`lastRes
      ensures lastRes == Subst(old(lastRes), p, n)
    {
      for i := 0 to |lastRes|
        invariant lastRes == old(lastRes)
        invariant forall k :: 0 <= k < i ==> lastRes[k] != p
      {
        if lastRes[i] == p {
          lastRes := lastRes[i := n];
          assert lastRes == Subst(old(lastRes), p, n);
          return;
        }
      }
      assert lastRes == Subst(lastRes, p, n);
    }

    // ---- Update rounds ----

    method UpdateStart()
      modifies this
      ensures Model() == Started(old(Model()))
    {
      updateIdx := updateIdx + 1;
      lastRes := [];
    }

    /** Whether an entry is already recorded as seen in this round. */
    method IsNoted(p: Ptr) returns (noted: bool)
      ensures noted <==> p in lastRes
    {
      for i := 0 to |lastRes|
        invariant p !in lastRes[..i]
      {
        if p == lastRes[i] {
          return true;
        }
      }
      assert lastRes[..|lastRes|] == lastRes;
      return false;
    }

    /** Record an entry as seen in this round. */
    method NoteResult(p: Ptr)
      requires p !in lastRes
      modifies this`lastRes, this`lastResSize
      ensures Model() == Note(old(Model()), p)
    {
      if |lastRes| >= lastResSize {
        lastResSize := if lastResSize == 0 then 32 else lastResSize * 2;
      }
      lastRes := lastRes + [p];
    }

    method UpdateScanRes(res: ScanRes, fetch: Time, alloc: Option<Ptr>)
      requires BssInvariant.Valid(Model())
      requires alloc.Some? ==> alloc.value !in heap || Some(alloc.value) == Lookup(Model(), res.bssid, MatchSsid(res))
      modifies this
      ensures Model() == Scanned(old(Model()), res, fetch, alloc)
    {
      ghost var t := Model();
      LookupIsLive(t, res.bssid, MatchSsid(res));
      ApplicableIs(t.env, res, fetch);
      hide BssInvariant.Valid, Rename, Refresh, Lookup, Note, Added, NewEntry, Refreshed;
      if env.ignoreOld {
        var update := CalculateUpdateTime(fetch, res.age);
        if Before(update, env.scanTrigger) {
          return;
        }
      }
      if res.ies.ssid.None? {
        return;
      }
      var ssid := res.ies.ssid.value;
      if |ssid| > SSID_MAX_LEN {
        return;
      }
      if !res.ies.p2p && env.p2pGroup {
        return;
      }
      if res.ies.p2p && ssid == P2P_WILDCARD_SSID {
        return;
      }
      if res.ies.mesh.Some? && |res.ies.mesh.value| <= SSID_MAX_LEN {
        ssid := res.ies.mesh.value;
      }
      var found := Get(res.bssid, ssid);
      if found.None? {
        found := Add(ssid, res, fetch, alloc);
        if found.None? {
          return;
        }
        AddedIsUnseen(t, alloc.value, NewEntry(t, ssid, res, fetch));
        NoteResult(found.value);
      } else {
        var p := Update(found.value, res, fetch, alloc);
        var noted := IsNoted(p);
        if !noted {
          NoteResult(p);
        }
      }
    }

    // ---- Expiry and flushing: the safe iteration keeps a cursor while entries around it go ----

    method UpdateEnd(info: Option<Info>, newScan: bool)
      requires BssInvariant.Valid(Model())
      modifies this
      ensures Model() == Ended(old(Model()), info, newScan)
    {
      hide BssInvariant.Valid, Removed, ExpiredSoFar, Mid, InUse, Included, MissAfter, Linked, Unexpired;
      if (info.Some? && info.value.aborted) || !newScan {
        return;
      }
      ghost var t := Model();
      ghost var m := 0;
      MidStart(t, info);
      var i := 0;
      while i < |bss|
        invariant m <= |t.bss| && i <= |bss| && bss[i..] == t.bss[m..]
        invariant Model() == Mid(t, info, m, ExpiredSoFar(t, info, m))
        decreases |t.bss| - m
      {
        MidFacts(t, info, m, i);
        i := JudgeOne(t, info, m, i);
        m := m + 1;
      }
      MidDone(t, info, m);
    }

    /** One entry of a completed round: count a miss, and remove the entry when that is one too many. */
    method JudgeOne(ghost t: Table, info: Option<Info>, ghost m: int, i: int) returns (next: int)
      requires BssInvariant.Valid(t) && 0 <= m < |t.bss| && 0 <= i < |bss| && bss[i..] == t.bss[m..]
      requires Model() == Mid(t, info, m, ExpiredSoFar(t, info, m))
      requires bss[i] == t.bss[m] && bss[i] in heap && heap[bss[i]] == t.heap[bss[i]] && CurrentLive(Model())
      requires InUse(Model(), bss[i]) == InUse(t, bss[i]) && updateIdx == t.updateIdx && expireCount == t.expireCount
      modifies this
      ensures 0 <= next <= |bss| && bss[next..] == t.bss[m + 1..]
      ensures Model() == Mid(t, info, m + 1, ExpiredSoFar(t, info, m + 1))
    {
      hide BssInvariant.Valid, Removed, ExpiredSoFar, Mid, InUse, Included, Linked, Unexpired;
      var p := bss[i];
      MidAdvance(t, info, m, i);
      assert t.bss[m + 1..] == t.bss[m..][1..] == bss[i + 1..];
      var inUse := IsInUse(p);
      var included := IncludedInScan(heap[p], info);
      if inUse || !included {
        return i + 1;
      }
      if heap[p].lastIdx < updateIdx {
        heap := heap[p := heap[p].(miss := heap[p].miss + 1)];
      }
      if heap[p].miss >= expireCount {
        MidRemoved(t, info, m, i);
        Remove(p);
        return i;
      }
      return i + 1;
    }

    method Flush()
      requires BssInvariant.Valid(Model())
      modifies this
      ensures Model() == Flushed(old(Model()))
    {
      hide BssInvariant.Valid, Removed, Restrict, InUse, UnusedSoFar, Linked;
      ghost var t := Model();
      ghost var m := 0;
      PartStart(t);
      var i := 0;
      while i < |bss|
        invariant m <= |t.bss| && i <= |bss| && bss[i..] == t.bss[m..]
        invariant Model() == Part(t, m)
        decreases |t.bss| - m
      {
        PartFacts(t, m, i);
        var inUse := IsInUse(bss[i]);
        if inUse {
          i := i + 1;
        } else {
          Remove(bss[i]);
        }
        m := m + 1;
      }
      FlushDone(t, m);
    }

    method FlushByAge(age: int, now: Time)
      requires BssInvariant.Valid(Model())
      modifies this
      ensures Model() == FlushedByAge(old(Model()), age, now)
    {
      hide BssInvariant.Valid, Removed, Restrict, InUse, UnusedSoFar, Linked;
      ghost var t := Model();
      ghost var m := 0;
      PartStart(t);
      var cutoff := Cutoff(now, age);
      assert t.bss[0..] == t.bss;
      var i := 0;
      while i < |bss|
        invariant m <= |t.bss| && i <= |bss| && bss[i..] == t.bss[m..]
        invariant Model() == Part(t, m)
        invariant AgedRun(t, t.bss, cutoff) == UnusedSoFar(t, m) + AgedRun(t, t.bss[m..], cutoff)
        decreases |t.bss| - m
      {
        PartFacts(t, m, i);
        AgedStep(t, m, cutoff);
        var inUse := IsInUse(bss[i]);
        if inUse {
          i, m := i + 1, m + 1;
          continue;
        }
        if Before(heap[bss[i]].lastUpdate, cutoff) {
          Remove(bss[i]);
          m := m + 1;
        } else {
          break;
        }
      }
      AgedEnd(t, m, cutoff);
    }
  }
}

/**
 What the table's decisions mean, in terms of configuration, scan results and stored fields alone: which results are
 taken and under which SSID, which entry makes room, what a round, a flush and an age flush remove, and which elements
 an entry ends up with. Nothing here is defined by the predicates that the table's loops compute.
 */
module BssFields {
  import opened Seqs
  import opened Bits
  import opened RelTimes
  import opened Macs
  import opened BssModel
  import opened BssInvariant
  import opened BssRuns
  import opened BssHistory
  import BssAge
  import BssEviction

  // ---- Which results are taken ----

  function Ascii(s: string): (r: seq<Byte>)
    requires forall i :: 0 <= i < |s| ==> s[i] as int < 256
    ensures |r| == |s| && forall i :: 0 <= i < |s| ==> r[i] as int == s[i] as int
  {
    seq(|s|, i requires 0 <= i < |s| => s[i] as int as Byte)
  }

  /** Recent enough, with an SSID that fits, with a P2P element on a P2P group interface, and not P2P device discovery. */
  predicate Takes(env: Env, res: ScanRes, fetch: Time) {
    && (!env.ignoreOld || fetch.Us() - 1000 * res.age >= env.scanTrigger.Us())
    && res.ies.ssid.Some? && |res.ies.ssid.value| <= 32
    && (res.ies.p2p || !env.p2pGroup)
    && !(res.ies.p2p && res.ies.ssid.value == Ascii("DIRECT-"))
  }

  /** The mesh ID stands for the SSID when there is one that fits. */
  function NameOf(res: ScanRes): Ssid {
    if res.ies.mesh.Some? && |res.ies.mesh.value| <= 32 then res.ies.mesh.value
    else if res.ies.ssid.Some? then res.ies.ssid.value
    else []
  }

  /** An entry for this BSSID and SSID is noted as seen in the current round. */
  ghost predicate NotedAs(t: Table, bssid: Mac, ssid: Ssid) {
    exists p :: p in t.lastRes && p in t.heap && t.heap[p].bssid == bssid && t.heap[p].ssid == ssid
  }

  lemma ApplicableExactly(env: Env, res: ScanRes, fetch: Time)
    ensures Applicable(env, res, fetch) == if Takes(env, res, fetch) then Some(NameOf(res)) else None
  {
    BeforeIsLess(UpdateTime(fetch, res.age), env.scanTrigger);
    assert Ascii("DIRECT-") == P2P_WILDCARD_SSID;
  }

  /**
   A result that is not to be taken changes nothing. Any other one leaves an entry for its BSSID and name noted; so when
   there was none before, the table changes exactly for the results to be taken.
   */
  lemma TakenExactly(t: Table, res: ScanRes, fetch: Time, alloc: Ptr)
    requires Valid(t) && (t.env.filter.None? || res.bssid in t.env.filter.value)
    requires alloc !in t.heap
    ensures var t' := Scanned(t, res, fetch, Some(alloc));
            && (!Takes(t.env, res, fetch) ==> t' == t)
            && (Takes(t.env, res, fetch) ==> NotedAs(t', res.bssid, NameOf(res)))
            && (!NotedAs(t, res.bssid, NameOf(res)) ==> (t' != t <==> Takes(t.env, res, fetch)))
  {
    ApplicableExactly(t.env, res, fetch);
    if Takes(t.env, res, fetch) {
      var op := Result(res, fetch, Some(alloc));
      HitIsLive(t, op);
      hide Takes, Valid, NameOf, Applicable;
      var hit := Hit(t, op);
      if hit.Some? {
        HitIsNoted(t, hit.value, res, fetch, Some(alloc));
      } else {
        InsertIsNoted(t, res, fetch, alloc);
      }
    }
  }

  lemma HitIsNoted(t: Table, p: Ptr, res: ScanRes, fetch: Time, alloc: Option<Ptr>)
    requires p in t.heap && t.heap[p].bssid == res.bssid && (alloc.Some? ==> alloc.value !in t.heap)
    ensures NotedAs(Updated(t, p, res, fetch, alloc), res.bssid, t.heap[p].ssid)
  {
    hide Outdated, Grows;
    var t' := Updated(t, p, res, fetch, alloc);
    if Outdated(t, p, res, fetch) {
      assert p in t'.lastRes && t'.heap[p] == t.heap[p];
    } else {
      var n := NewHome(t.heap[p], p, res, alloc);
      assert n in t'.lastRes && n in t'.heap;
    }
  }

  lemma InsertIsNoted(t: Table, res: ScanRes, fetch: Time, alloc: Ptr)
    requires Valid(t) && Applicable(t.env, res, fetch).Some? && alloc !in t.heap
    ensures var ssid := Applicable(t.env, res, fetch).value;
            NotedAs(Note(Added(t, alloc, NewEntry(t, ssid, res, fetch)), alloc), res.bssid, ssid)
  {
    var e := NewEntry(t, Applicable(t.env, res, fetch).value, res, fetch);
    MakeRoomAllocated(t, alloc, e);
    hide MakeRoom, Valid, Applicable;
    var t' := Note(Added(t, alloc, e), alloc);
    assert alloc in t'.lastRes && t'.heap[alloc] == e;
  }

  /** Lookups go by BSSID and SSID together, oldest first, and find nothing behind the filter. */
  lemma LookupExactly(t: Table, bssid: Mac, ssid: Ssid)
    requires Structure(t)
    ensures var r := Lookup(t, bssid, ssid);
            && (r.None? <==> (t.env.filter.Some? && bssid !in t.env.filter.value)
                             || forall p :: p in t.heap ==> !(t.heap[p].bssid == bssid && t.heap[p].ssid == ssid))
            && (r.Some? ==> exists k :: 0 <= k < |t.bss| && t.bss[k] == r.value && t.bss[k] in t.heap
                                     && t.heap[t.bss[k]].bssid == bssid && t.heap[t.bss[k]].ssid == ssid
                                     && forall j :: 0 <= j < k && t.bss[j] in t.heap ==>
                                          !(t.heap[t.bss[j]].bssid == bssid && t.heap[t.bss[j]].ssid == ssid))
  {
    var wanted := set p | p in t.heap && HasKey(t.heap[p], bssid, ssid);
    hide NoDup;
    if Lookup(t, bssid, ssid).Some? {
      var k := FirstInPosition(t.bss, wanted);
    }
  }

  /** A result whose BSSID the filter rejects is entered again each time, whatever is in the table. */
  lemma RejectedIsEntered(t: Table, res: ScanRes, fetch: Time, alloc: Ptr)
    requires Valid(t) && t.env.filter.Some? && res.bssid !in t.env.filter.value
    requires alloc !in t.heap && Takes(t.env, res, fetch)
    ensures var t' := Scanned(t, res, fetch, Some(alloc));
            && t'.nextId == t.nextId + 1 && alloc in t'.heap && t'.heap[alloc].id == t.nextId
            && t'.heap[alloc].bssid == res.bssid && t'.heap[alloc].ssid == NameOf(res)
  {
    ApplicableExactly(t.env, res, fetch);
    var e := NewEntry(t, NameOf(res), res, fetch);
    MakeRoomAllocated(t, alloc, e);
    hide Valid, Applicable, Takes, NameOf;
    NextIdStays(t);
    hide MakeRoom;
  }

  lemma NextIdStays(t: Table)
    ensures MakeRoom(t).nextId == t.nextId
  {
  }

  // ---- Which entry makes room ----

  predicate FitsNetwork(n: Network, e: Bss) {
    n.wps && (n.ssid == [] || n.ssid == e.ssid)
  }

  /** Network i is the first one that fits, and is set up for the way the entry asks for. */
  ghost predicate FirstFit(networks: seq<Network>, e: Bss, i: int) {
    && 0 <= i < |networks| && FitsNetwork(networks[i], e)
    && (forall j :: 0 <= j < i ==> !FitsNetwork(networks[j], e))
    && (if e.ies.wps == SelectedPbc then networks[i].pbcEnrollee else networks[i].pinEnrollee)
  }

  /** The entry announces WPS for this station, by push button or for it by name, and the first network that fits is set up for that. */
  ghost predicate WpsWanted(env: Env, e: Bss) {
    && e.ies.wps != NoWps && e.ies.wps != Unauthorized
    && exists i :: FirstFit(env.networks, e, i)
  }

  ghost predicate Configured(env: Env, ssid: Ssid) {
    exists i :: 0 <= i < |env.networks| && env.networks[i].ssid != [] && env.networks[i].ssid == ssid
  }

  /** Of a P2P join under way. */
  predicate Joining(env: Env, e: Bss) {
    e.bssid == env.joinIface || (env.joinDev != [0, 0, 0, 0, 0, 0] && e.ies.p2pDev == Some(env.joinDev))
  }

  /** Of a P2P join under way, of a configured network, or a WPS candidate. */
  ghost predicate Wanted(env: Env, e: Bss) {
    Joining(env, e) || Configured(env, e.ssid) || WpsWanted(env, e)
  }

  /** The current entry, or one of the BSSID that the station has or is about to have, unless under another SSID. */
  predicate Serves(t: Table, p: Ptr)
    requires p in t.heap && CurrentLive(t)
  {
    var b := t.heap[p].bssid;
    || t.current == Some(p)
    || (&& b != [0, 0, 0, 0, 0, 0] && b in {t.env.bssid, t.env.pendingBssid}
        && (t.current.Some? ==> t.heap[t.current.value].ssid == t.heap[p].ssid))
  }

  lemma {:induction false} WpsExactly(networks: seq<Network>, e: Bss)
    ensures WpsNetworkAccepts(networks, e) <==> exists i :: FirstFit(networks, e, i)
  {
    if networks != [] {
      if FitsNetwork(networks[0], e) {
        assert FirstFit(networks, e, 0) <==> WpsNetworkAccepts(networks, e);
      } else {
        var rest := networks[1..];
        WpsExactly(rest, e);
        assert networks == [networks[0]] + rest;
        forall i ensures FirstFit(networks, e, i) <==> FirstFit(rest, e, i - 1) {
          FitBehind(networks[0], rest, e, i);
        }
        assert (exists i :: FirstFit(rest, e, i)) ==> exists i :: FirstFit(networks, e, i) by {
          if i :| FirstFit(rest, e, i) {
            assert FirstFit(networks, e, i + 1);
          }
        }
      }
    }
  }

  lemma FitBehind(n: Network, rest: seq<Network>, e: Bss, i: int)
    requires !FitsNetwork(n, e)
    ensures FirstFit([n] + rest, e, i) <==> FirstFit(rest, e, i - 1)
  {
    var s := [n] + rest;
    assert forall j :: 0 <= j < |rest| ==> s[j + 1] == rest[j];
    if FirstFit(rest, e, i - 1) {
      forall j | 0 <= j < i ensures !FitsNetwork(s[j], e) {
        assert j > 0 ==> s[j] == rest[j - 1];
      }
    }
    if FirstFit(s, e, i) {
      forall j | 0 <= j < i - 1 ensures !FitsNetwork(rest[j], e) {
        assert s[j + 1] == rest[j];
      }
    }
  }

  lemma RetainedExactly(env: Env, e: Bss)
    ensures Retained(env, e) <==> Wanted(env, e)
  {
    KnownExactly(env, e);
    WpsExactly(env.networks, e);
    hide WpsNetworkAccepts, Known, Configured, Joining;
  }

  lemma KnownExactly(env: Env, e: Bss)
    ensures Known(env, e) <==> Joining(env, e) || Configured(env, e.ssid)
  {
    if Configured(env, e.ssid) {
      var i :| 0 <= i < |env.networks| && env.networks[i].ssid != [] && env.networks[i].ssid == e.ssid;
      assert env.networks[i] in env.networks;
    }
  }

  lemma InUseExactly(t: Table, p: Ptr)
    requires p in t.heap && CurrentLive(t)
    ensures InUse(t, p) <==> Serves(t, p)
  {
  }

  /** Place k of the update order is the first one that is not wanted. */
  ghost predicate FirstUnwanted(t: Table, k: int)
    requires Structure(t)
  {
    && 0 <= k < |t.bss| && !Wanted(t.env, t.heap[t.bss[k]])
    && forall j :: 0 <= j < k ==> Wanted(t.env, t.heap[t.bss[j]])
  }

  ghost predicate FirstIdle(t: Table, k: int)
    requires Structure(t) && CurrentLive(t)
  {
    && 0 <= k < |t.bss| && !Serves(t, t.bss[k])
    && forall j :: 0 <= j < k ==> Serves(t, t.bss[j])
  }

  lemma FirstUnwantedGoes(t: Table, p: Ptr)
    requires Structure(t) && Full(t) && p in t.heap && !Wanted(t.env, t.heap[p])
    ensures exists k :: FirstUnwanted(t, k) && MakeRoom(t).heap.Keys == t.heap.Keys - {t.bss[k]}
  {
    forall q | q in t.heap ensures q in Unretained(t) <==> !Wanted(t.env, t.heap[q]) {
      RetainedExactly(t.env, t.heap[q]);
    }
    assert p in t.bss && p in Unretained(t);
    hide Retained, Wanted, NoDup, Unretained, Keep;
    var k := FirstInPosition(t.bss, Unretained(t));
    assert FirstUnwanted(t, k);
  }

  lemma FirstIdleGoes(t: Table, p: Ptr)
    requires Structure(t) && CurrentLive(t) && Full(t) && p in t.heap && !Serves(t, p)
    requires forall q :: q in t.heap ==> Wanted(t.env, t.heap[q])
    ensures exists k :: FirstIdle(t, k) && MakeRoom(t).heap.Keys == t.heap.Keys - {t.bss[k]}
  {
    assert Unretained(t) == {} by {
      forall q | q in t.heap ensures Retained(t.env, t.heap[q]) {
        RetainedExactly(t.env, t.heap[q]);
      }
    }
    forall q | q in t.heap ensures q in Unused(t) <==> !Serves(t, q) {
      InUseExactly(t, q);
    }
    assert p in t.bss && p in Unused(t);
    hide Retained, Wanted, InUse, Serves, NoDup, Unretained, Unused, Keep;
    var k := FirstInPosition(t.bss, Unused(t));
    assert FirstIdle(t, k);
  }

  lemma NobodyGoes(t: Table)
    requires Structure(t) && CurrentLive(t) && Full(t)
    requires forall q :: q in t.heap ==> Wanted(t.env, t.heap[q]) && Serves(t, q)
    ensures MakeRoom(t) == t.(maxCount := t.numBss + 1)
  {
    forall q | q in t.heap ensures Retained(t.env, t.heap[q]) && InUse(t, q) {
      RetainedExactly(t.env, t.heap[q]);
      InUseExactly(t, q);
    }
    assert Unretained(t) == {} && Unused(t) == {};
  }

  /**
   When one more entry would be too many, the first unwanted entry in update order goes; when all are wanted, the first
   one that does not serve; and when all serve as well, none goes and the maximum is raised.
   */
  lemma RoomExactly(t: Table)
    requires Structure(t) && CurrentLive(t)
    ensures t.numBss + 1 <= t.maxCount ==> MakeRoom(t) == t
    ensures t.numBss + 1 > t.maxCount ==>
              var keys := MakeRoom(t).heap.Keys;
              if exists p :: p in t.heap && !Wanted(t.env, t.heap[p])
              then exists k :: FirstUnwanted(t, k) && keys == t.heap.Keys - {t.bss[k]}
              else if exists p :: p in t.heap && !Serves(t, p)
              then exists k :: FirstIdle(t, k) && keys == t.heap.Keys - {t.bss[k]}
              else MakeRoom(t) == t.(maxCount := t.numBss + 1)
  {
    assert Full(t) <==> t.numBss + 1 > t.maxCount;
    assert !Full(t) ==> MakeRoom(t) == t;
    hide MakeRoom, Wanted, Serves, FirstUnwanted, FirstIdle, Structure, NoDup;
    if Full(t) {
      if p :| p in t.heap && !Wanted(t.env, t.heap[p]) {
        FirstUnwantedGoes(t, p);
      } else if p :| p in t.heap && !Serves(t, p) {
        FirstIdleGoes(t, p);
      } else {
        NobodyGoes(t);
      }
    }
  }

  /** An entry of a configured network stays as long as there is an unwanted one. */
  lemma ConfiguredStays(t: Table, p: Ptr)
    requires Structure(t) && CurrentLive(t) && p in t.heap && Configured(t.env, t.heap[p].ssid)
    requires exists q :: q in t.heap && !Wanted(t.env, t.heap[q])
    ensures p in MakeRoom(t).heap
  {
    RoomExactly(t);
    assert Wanted(t.env, t.heap[p]);
    hide MakeRoom, Wanted, Serves;
  }

  ghost function UnwantedOf(t: Table): set<Ptr> {
    set p | p in t.heap && !Wanted(t.env, t.heap[p])
  }

  ghost function IdleOf(t: Table): set<Ptr>
    requires CurrentLive(t)
  {
    set p | p in t.heap && !Serves(t, p)
  }

  lemma SetsExactly(t: Table)
    requires CurrentLive(t)
    ensures Unretained(t) == UnwantedOf(t) && Unused(t) == IdleOf(t)
  {
    forall p | p in t.heap ensures (Retained(t.env, t.heap[p]) <==> Wanted(t.env, t.heap[p])) && (InUse(t, p) <==> Serves(t, p)) {
      RetainedExactly(t.env, t.heap[p]);
      InUseExactly(t, p);
    }
    hide Retained, Wanted, InUse, Serves;
  }

  /**
   In every run: a new entry in a full table takes the place of the least recently touched unwanted entry, else of the
   least recently touched one that does not serve; and when there is neither, the maximum grows by one.
   */
  lemma LeastRecentGoes(states: seq<Table>, ops: seq<Op>, n: nat)
    requires Run(states, ops) && n < |ops| && Inserts(states[n], ops[n])
    requires states[n].numBss + 1 > states[n].maxCount
    ensures CurrentLive(states[n])
    ensures var t, t', a := states[n], states[n + 1], ops[n].alloc.value;
            if UnwantedOf(t) != {} then
              exists v :: BssEviction.LeastRecent(states, ops, n, UnwantedOf(t), v) && t'.heap.Keys == t.heap.Keys - {v} + {a}
            else if IdleOf(t) != {} then
              exists v :: BssEviction.LeastRecent(states, ops, n, IdleOf(t), v) && t'.heap.Keys == t.heap.Keys - {v} + {a}
            else
              t'.heap.Keys == t.heap.Keys + {a} && t'.maxCount == t.maxCount + 1
  {
    RunValid(states, ops, n);
    assert CurrentLive(states[n]) && Full(states[n]);
    hide *;
    SetsExactly(states[n]);
    BssEviction.EvictionIsLeastRecent(states, ops, n);
  }

  // ---- Rounds and flushes ----

  /** The scan went over the entry's frequency and asked for its SSID, or for any. */
  ghost predicate Covered(info: Option<Info>, e: Bss) {
    info.Some? ==>
      && (info.value.freqs != [] ==> exists i :: 0 <= i < |info.value.freqs| && info.value.freqs[i] == e.radio.freq)
      && (info.value.ssids != [] ==> exists i :: 0 <= i < |info.value.ssids| && info.value.ssids[i] in {[], e.ssid})
  }

  lemma IncludedExactly(info: Option<Info>, e: Bss)
    ensures Included(info, e) <==> Covered(info, e)
  {
    if info.Some? {
      var freqs, ssids := info.value.freqs, info.value.ssids;
      assert e.radio.freq in freqs <==> exists i :: 0 <= i < |freqs| && freqs[i] == e.radio.freq;
      if s :| s in ssids && (s == [] || s == e.ssid) {
        var i :| 0 <= i < |ssids| && ssids[i] == s;
        assert ssids[i] in {[], e.ssid};
      }
      if i :| 0 <= i < |ssids| && ssids[i] in {[], e.ssid} {
        assert ssids[i] in ssids;
      }
    }
  }

  /**
   An aborted round, or one without a new scan, changes nothing. Any other one leaves entries that serve or were not
   covered as they are; of the others, it counts up those not seen in it, and keeps those still below the limit.
   */
  lemma RoundExactly(t: Table, info: Option<Info>, newScan: bool, p: Ptr)
    requires Valid(t) && p in t.heap
    ensures var t', e := Ended(t, info, newScan), t.heap[p];
            if !newScan || (info.Some? && info.value.aborted) then t' == t
            else if Serves(t, p) || !Covered(info, e) then p in t'.heap && t'.heap[p] == e
            else
              var miss := if e.lastIdx == t.updateIdx then e.miss else e.miss + 1;
              && (p in t'.heap <==> miss < t.expireCount)
              && (p in t'.heap ==> t'.heap[p] == e.(miss := miss))
  {
    assert CurrentLive(t) && t.heap[p].lastIdx <= t.updateIdx && t.heap[p].miss < t.expireCount;
    hide *;
    InUseExactly(t, p);
    IncludedExactly(info, t.heap[p]);
    EndedEntry(t, info, newScan, p);
  }

  lemma EndedEntry(t: Table, info: Option<Info>, newScan: bool, p: Ptr)
    requires p in t.heap
    ensures var t', e, miss := Ended(t, info, newScan), t.heap[p], MissAfter(t, p, info);
            && (Completed(info, newScan) <==> newScan && !(info.Some? && info.value.aborted))
            && (miss == if !InUse(t, p) && Included(info, e) && e.lastIdx < t.updateIdx then e.miss + 1 else e.miss)
            && if !Completed(info, newScan) then t' == t
               else
                 && (p in t'.heap <==> InUse(t, p) || !Included(info, e) || miss < t.expireCount)
                 && (p in t'.heap ==> t'.heap[p] == e.(miss := miss))
  {
    assert CountsAgainst(t, p, info) <==> !InUse(t, p) && Included(info, t.heap[p]) && t.heap[p].lastIdx < t.updateIdx;
    hide InUse, Included, Keep;
  }

  /** A flush keeps exactly what serves. */
  lemma FlushExactly(t: Table, p: Ptr)
    requires Valid(t) && p in t.heap
    ensures p in Flushed(t).heap <==> Serves(t, p)
  {
    InUseExactly(t, p);
    hide Valid, InUse, Serves, Keep;
  }

  /** With results in time order, an age flush keeps exactly what serves or was updated at most `age` seconds ago. */
  lemma AgeFlushExactly(states: seq<Table>, ops: seq<Op>, n: nat, age: int, now: Time, p: Ptr)
    requires Run(states, ops) && BssAge.InTimeOrder(ops) && n <= |ops| && p in states[n].heap
    ensures CurrentLive(states[n])
    ensures p in FlushedByAge(states[n], age, now).heap <==>
              Serves(states[n], p) || now.Us() - states[n].heap[p].lastUpdate.Us() <= 1000000 * age
  {
    RunValid(states, ops, n);
    BssAge.FlushByAgeExact(states, ops, n, age, now);
    var t := states[n];
    assert CurrentLive(t);
    InUseExactly(t, p);
    BeforeIsLess(t.heap[p].lastUpdate, Cutoff(now, age));
    assert Cutoff(now, age).Us() == now.Us() - 1000000 * age;
    hide Run, Valid, InUse, Serves, Keep, FlushedByAge, BssAge.InTimeOrder, Before;
  }

  // ---- Which elements an entry has ----

  /** Once an entry has a P2P element, nothing takes it away. */
  lemma P2pStays(t: Table, op: Op, p: Ptr)
    requires Valid(t) && Legal(t, op) && p in t.heap && t.heap[p].ies.p2p
    ensures Home(t, op, p) in Step(t, op).heap ==> Step(t, op).heap[Home(t, op, p)].ies.p2p
  {
    if Home(t, op, p) in Step(t, op).heap {
      StepKeeps(t, op, p);
    }
    hide Valid, Legal, Step;
  }

  /**
   A result that is taken over an entry brings its elements, unless the entry would lose a P2P element or there is no
   memory for more of them; the entry moves only for more elements. A new entry has the elements of its result.
   */
  lemma ElementsExactly(t: Table, op: Op, p: Ptr)
    requires Valid(t) && Legal(t, op) && Overwrites(t, op, p)
    requires Home(t, op, p) in Step(t, op).heap
    ensures var was, ies := t.heap[p].ies, op.res.ies;
            var loses, more := was.p2p && !ies.p2p, ies.len > was.len;
            && Home(t, op, p) == (if !loses && more && op.alloc.Some? then op.alloc.value else p)
            && Step(t, op).heap[Home(t, op, p)].ies == if loses || (more && op.alloc.None?) then was else ies
  {
    StepKeeps(t, op, p);
    hide Valid, Legal, Step;
  }

  lemma NewElements(t: Table, op: Op)
    requires Valid(t) && Legal(t, op) && Inserts(t, op)
    ensures var t', a := Step(t, op), op.alloc.value;
            a in t'.heap && t'.heap[a].ies == op.res.ies && t'.heap[a].radio == op.res.radio && t'.heap[a].miss == 0
  {
    InsertValid(t, op);
    hide Valid, Legal, Step, MakeRoom, Applicable;
  }

  // ---- The size of the index ----

  /** Nothing, or 32 doubled some times. */
  ghost predicate IndexSize(n: nat) {
    n == 0 || exists k: nat :: n == 32 * Pow2(k)
  }

  /** The index grows only when it is full, and then as little as it may. */
  lemma IndexGrows(t: Table, p: Ptr)
    requires |t.lastRes| <= t.lastResSize && IndexSize(t.lastResSize)
    ensures var t' := Note(t, p);
            && |t'.lastRes| <= t'.lastResSize && IndexSize(t'.lastResSize)
            && (t'.lastResSize != t.lastResSize ==>
                  |t.lastRes| == t.lastResSize && forall n: nat :: t.lastResSize < n < t'.lastResSize ==> !IndexSize(n))
  {
    if t.lastResSize == 0 {
      assert Pow2(0) == 1;
      assert IndexSize(32 * Pow2(0));
      forall n: nat | 0 < n < 32 ensures !IndexSize(n) {
      }
    } else {
      var k: nat :| t.lastResSize == 32 * Pow2(k);
      assert Pow2(k + 1) == 2 * Pow2(k);
      assert IndexSize(32 * Pow2(k + 1));
      forall n: nat | 32 * Pow2(k) < n < 32 * Pow2(k + 1) ensures !IndexSize(n) {
        if m: nat :| n == 32 * Pow2(m) {
          if m <= k { Pow2Mono(m, k); } else { Pow2Mono(k + 1, m); }
          assert false;
        }
      }
    }
  }
}

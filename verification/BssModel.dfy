/**
 The BSS table as a value: what each table operation does to the whole state.

 Entries live at addresses. An address is live while it is in `heap`; freeing an entry takes its address
 out of `heap`, and reallocating it may move it to another one. So a stored address that is not in `heap`
 is a dangling pointer, and "no dangling pointers" is something to prove.
 */
module BssModel {
  import opened Seqs
  import opened RelTimes
  import opened Macs

  type Ptr = nat
  type Ssid = seq<Byte>

  const SSID_MAX_LEN := 32
  const P2P_WILDCARD_SSID: Ssid := [68, 73, 82, 69, 67, 84, 45] // "DIRECT-"

  /** The radio fields copied verbatim from a scan result. */
  datatype Radio = Radio(
    associated: bool, otherFlags: nat, freq: int, beaconInt: int, caps: int, qual: int,
    noise: int, level: int, tsf: nat, estThroughput: nat, snr: int)

  /** What the WPS element of an entry announces to this station. */
  datatype Wps = NoWps | SelectedPbc | Authorized | Unauthorized

  /** The information elements, as far as the table looks at them; `len` counts both element fields. */
  datatype Ies = Ies(len: nat, ssid: Option<Ssid>, mesh: Option<Ssid>, p2p: bool, p2pDev: Option<Mac>, wps: Wps)

  datatype ScanRes = ScanRes(bssid: Mac, radio: Radio, age: nat, ies: Ies)

  datatype Bss = Bss(id: nat, miss: nat, lastIdx: nat, bssid: Mac, ssid: Ssid,
                     radio: Radio, lastUpdate: Time, ies: Ies)

  /** A configured network; `ssid` is empty when it has none. */
  datatype Network = Network(ssid: Ssid, wps: bool, pbcEnrollee: bool, pinEnrollee: bool)

  /** Everything outside the table that its decisions read. */
  datatype Env = Env(networks: seq<Network>, joinIface: Mac, joinDev: Mac, bssid: Mac, pendingBssid: Mac,
                     filter: Option<set<Mac>>, ignoreOld: bool, scanTrigger: Time, p2pGroup: bool)

  /** The pending connect radio work, which remembers an entry. */
  datatype Work = NoWork | Work(bss: Option<Ptr>, removed: bool)

  /** Scan parameters; an empty SSID in `ssids` is the wildcard. */
  datatype Info = Info(aborted: bool, freqs: seq<int>, ssids: seq<Ssid>)

  datatype Table = Table(
    heap: map<Ptr, Bss>,
    bss: seq<Ptr>,            // in update order, oldest first
    bssId: seq<Ptr>,          // in id order
    numBss: int,
    lastRes: seq<Ptr>,        // entries seen in the current round
    lastResSize: nat,
    current: Option<Ptr>,
    pending: Work,
    updateIdx: nat,
    nextId: nat,
    maxCount: int,
    expireCount: nat,
    env: Env)

  // ---- Decisions about one entry ----

  predicate P2pPending(env: Env, e: Bss) {
    e.bssid == env.joinIface || (env.joinDev != ZERO && e.ies.p2pDev == Some(env.joinDev))
  }

  predicate Known(env: Env, e: Bss) {
    P2pPending(env, e) || exists n :: n in env.networks && n.ssid != [] && n.ssid == e.ssid
  }

  /** The first WPS network that fits the SSID decides. */
  predicate WpsNetworkAccepts(networks: seq<Network>, e: Bss) {
    if networks == [] then false
    else if !networks[0].wps || (networks[0].ssid != [] && networks[0].ssid != e.ssid) then
      WpsNetworkAccepts(networks[1..], e)
    else if e.ies.wps.SelectedPbc? then networks[0].pbcEnrollee
    else networks[0].pinEnrollee
  }

  predicate WpsCandidate(env: Env, e: Bss) {
    (e.ies.wps.SelectedPbc? || e.ies.wps.Authorized?) && WpsNetworkAccepts(env.networks, e)
  }

  /** Spared by the first eviction stage. */
  predicate Retained(env: Env, e: Bss) {
    Known(env, e) || WpsCandidate(env, e)
  }

  predicate SsidDiffersFromCurrent(t: Table, e: Bss) {
    t.current.Some? && t.current.value in t.heap && e.ssid != t.heap[t.current.value].ssid
  }

  predicate InUse(t: Table, p: Ptr) {
    || t.current == Some(p)
    || (&& p in t.heap
        && !SsidDiffersFromCurrent(t, t.heap[p])
        && t.heap[p].bssid != ZERO
        && (t.heap[p].bssid == t.env.bssid || t.heap[p].bssid == t.env.pendingBssid))
  }

  predicate FilterMatch(env: Env, bssid: Mac) {
    env.filter.None? || bssid in env.filter.value
  }

  predicate HasKey(e: Bss, bssid: Mac, ssid: Ssid) {
    e.bssid == bssid && e.ssid == ssid
  }

  function Lookup(t: Table, bssid: Mac, ssid: Ssid): Option<Ptr> {
    if !FilterMatch(t.env, bssid) then None
    else FirstIn(t.bss, set p | p in t.heap && HasKey(t.heap[p], bssid, ssid))
  }

  predicate Included(info: Option<Info>, e: Bss) {
    || info.None?
    || (&& (info.value.freqs == [] || e.radio.freq in info.value.freqs)
        && (info.value.ssids == [] || exists s :: s in info.value.ssids && (s == [] || s == e.ssid)))
  }

  // ---- Removal ----

  function DropWork(w: Work, keep: set<Ptr>): Work {
    if w.Work? && w.bss.Some? && w.bss.value !in keep then Work(None, true) else w
  }

  /** The table with exactly the entries outside `keep` removed and freed. */
  function Restrict(t: Table, keep: set<Ptr>): Table {
    t.(heap := map p | p in t.heap && p in keep :: t.heap[p],
       bss := Keep(t.bss, keep),
       bssId := Keep(t.bssId, keep),
       numBss := t.numBss - (|t.bss| - |Keep(t.bss, keep)|),
       lastRes := Keep(t.lastRes, keep),
       pending := DropWork(t.pending, keep))
  }

  function Removed(t: Table, p: Ptr): Table {
    Restrict(t, t.heap.Keys - {p})
  }

  // ---- Eviction ----

  function Unretained(t: Table): set<Ptr> {
    set p | p in t.heap && !Retained(t.env, t.heap[p])
  }

  function Unused(t: Table): set<Ptr> {
    set p | p in t.heap && !InUse(t, p)
  }

  function Victim(t: Table): Option<Ptr> {
    var unknown := FirstIn(t.bss, Unretained(t));
    if unknown.Some? then unknown else FirstIn(t.bss, Unused(t))
  }

  predicate Full(t: Table) {
    t.numBss + 1 > t.maxCount
  }

  /** Make room for one more entry, or raise the maximum when nothing may go. */
  function MakeRoom(t: Table): Table
  {
    if !Full(t) then t
    else
      var v := Victim(t);
      if v.Some? then Removed(t, v.value) else t.(maxCount := t.numBss + 1)
  }

  // ---- One scan result ----

  /** The SSID under which a result is entered in the table, or None when it is ignored. */
  function Applicable(env: Env, res: ScanRes, fetch: Time): Option<Ssid> {
    if env.ignoreOld && Before(UpdateTime(fetch, res.age), env.scanTrigger) then None
    else if res.ies.ssid.None? || |res.ies.ssid.value| > SSID_MAX_LEN then None
    else if !res.ies.p2p && env.p2pGroup then None
    else if res.ies.p2p && res.ies.ssid.value == P2P_WILDCARD_SSID then None
    else if res.ies.mesh.Some? && |res.ies.mesh.value| <= SSID_MAX_LEN then res.ies.mesh
    else res.ies.ssid
  }

  function NewEntry(t: Table, ssid: Ssid, res: ScanRes, fetch: Time): Bss {
    Bss(t.nextId, 0, t.updateIdx, res.bssid, ssid, res.radio, UpdateTime(fetch, res.age), res.ies)
  }

  function Link(t: Table, a: Ptr): Table {
    t.(bss := t.bss + [a], bssId := t.bssId + [a], numBss := t.numBss + 1)
  }

  function Allocated(t: Table, a: Ptr, e: Bss): Table {
    t.(heap := t.heap[a := e], nextId := t.nextId + 1)
  }

  function Added(t: Table, a: Ptr, e: Bss): Table
  {
    Link(MakeRoom(Allocated(t, a, e)), a)
  }

  /** A second result in the same round loses against an associated one, or one at least as recent. */
  predicate Outdated(t: Table, p: Ptr, res: ScanRes, fetch: Time)
    requires p in t.heap
  {
    var e := t.heap[p];
    && e.lastIdx == t.updateIdx
    && (e.radio.associated ||
        (!res.radio.associated && !Before(e.lastUpdate, UpdateTime(fetch, res.age))))
  }

  /** P2P elements are not given up for a result without them. */
  predicate KeepsIes(e: Bss, res: ScanRes) {
    e.ies.p2p && !res.ies.p2p
  }

  predicate Grows(e: Bss, res: ScanRes) {
    !KeepsIes(e, res) && e.ies.len < res.ies.len
  }

  function Refreshed(t: Table, e: Bss, res: ScanRes, fetch: Time, alloc: Option<Ptr>): Bss {
    e.(miss := 0, lastIdx := t.updateIdx, bssid := res.bssid, radio := res.radio,
       lastUpdate := UpdateTime(fetch, res.age),
       ies := if KeepsIes(e, res) || (Grows(e, res) && alloc.None?) then e.ies else res.ies)
  }

  function NewHome(e: Bss, p: Ptr, res: ScanRes, alloc: Option<Ptr>): Ptr {
    if Grows(e, res) && alloc.Some? then alloc.value else p
  }

  /** Store the new contents and move the entry to the end of the update order. */
  function Refresh(t: Table, p: Ptr, e: Bss): Table {
    t.(heap := t.heap[p := e], bss := Keep(t.bss, Elems(t.bss) - {p}) + [p])
  }

  function SubstRef(r: Option<Ptr>, p: Ptr, n: Ptr): Option<Ptr> {
    if r == Some(p) then Some(n) else r
  }

  /** The entry at `p` now lives at `n`, and every reference to it follows. */
  function Rename(t: Table, p: Ptr, n: Ptr): Table
    requires p in t.heap
  {
    t.(heap := (t.heap - {p})[n := t.heap[p]],
       bss := Subst(t.bss, p, n),
       bssId := Subst(t.bssId, p, n),
       lastRes := Subst(t.lastRes, p, n),
       current := SubstRef(t.current, p, n),
       pending := if t.pending.Work? then t.pending.(bss := SubstRef(t.pending.bss, p, n)) else t.pending)
  }

  /** The size of the round index after one more slot was asked for. */
  function GrownSize(used: nat, size: nat): nat {
    if used < size then size else if size == 0 then 32 else size * 2
  }

  /** Record `p` as seen in this round. */
  function Note(t: Table, p: Ptr): Table {
    if p in t.lastRes then t
    else t.(lastRes := t.lastRes + [p], lastResSize := GrownSize(|t.lastRes|, t.lastResSize))
  }

  /** The table after a result for the entry at `p`. */
  function Updated(t: Table, p: Ptr, res: ScanRes, fetch: Time, alloc: Option<Ptr>): Table
    requires p in t.heap
  {
    if Outdated(t, p, res, fetch) then Note(t, p)
    else
      var n := NewHome(t.heap[p], p, res, alloc);
      Note(Rename(Refresh(t, p, Refreshed(t, t.heap[p], res, fetch, alloc)), p, n), n)
  }

  /** The table after one scan result; `alloc` is what the allocator answers if it is asked. */
  function Scanned(t: Table, res: ScanRes, fetch: Time, alloc: Option<Ptr>): Table
  {
    var ssid := Applicable(t.env, res, fetch);
    if ssid.None? then t
    else
      var p := Lookup(t, res.bssid, ssid.value);
      if p.Some? then Updated(t, p.value, res, fetch, alloc)
      else if alloc.None? then t
      else Note(Added(t, alloc.value, NewEntry(t, ssid.value, res, fetch)), alloc.value)
  }

  // ---- Rounds and flushing ----

  function Started(t: Table): Table {
    t.(updateIdx := t.updateIdx + 1, lastRes := [])
  }

  predicate CountsAgainst(t: Table, p: Ptr, info: Option<Info>)
    requires p in t.heap
  {
    !InUse(t, p) && Included(info, t.heap[p]) && t.heap[p].lastIdx < t.updateIdx
  }

  function MissAfter(t: Table, p: Ptr, info: Option<Info>): nat
    requires p in t.heap
  {
    t.heap[p].miss + if CountsAgainst(t, p, info) then 1 else 0
  }

  predicate Completed(info: Option<Info>, newScan: bool) {
    !(info.Some? && info.value.aborted) && newScan
  }

  /** The entries that a completed round leaves in the table. */
  function Unexpired(t: Table, info: Option<Info>): set<Ptr> {
    set p | p in t.heap && (InUse(t, p) || !Included(info, t.heap[p]) || MissAfter(t, p, info) < t.expireCount)
  }

  function Ended(t: Table, info: Option<Info>, newScan: bool): Table {
    if !Completed(info, newScan) then t
    else
      var counted := t.(heap := map p | p in t.heap :: t.heap[p].(miss := MissAfter(t, p, info)));
      Restrict(counted, Unexpired(t, info))
  }

  function Flushed(t: Table): Table {
    Restrict(t, set p | p in t.heap && InUse(t, p))
  }

  function Cutoff(now: Time, age: int): Time {
    RelTime(now.sec - age, now.usec)
  }

  /** The entries an age flush removes: it skips entries in use and stops at the first young one. */
  function AgedRun(t: Table, s: seq<Ptr>, cutoff: Time): set<Ptr> {
    if s == [] then {}
    else if InUse(t, s[0]) then AgedRun(t, s[1..], cutoff)
    else if s[0] in t.heap && Before(t.heap[s[0]].lastUpdate, cutoff) then {s[0]} + AgedRun(t, s[1..], cutoff)
    else {}
  }

  function FlushedByAge(t: Table, age: int, now: Time): Table {
    Restrict(t, t.heap.Keys - AgedRun(t, t.bss, Cutoff(now, age)))
  }
}

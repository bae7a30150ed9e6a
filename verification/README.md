# Verification of the stateful cores of wpa_supplicant and hostapd

Dafny models of the parts of the repository that keep state over long runs, with proofs of what they are relied
on for. `dafny verify dfyconfig.toml` checks everything.

## What is modelled

**BSS table** (`wpa_supplicant/bss.c`). `BssTable.WpaSupplicant` has the table's fields and the loops of the
code: lookup, eviction in two stages, adding, updating with relocation, update rounds, expiry, both flushes. Each
method is proved to turn the whole state into what a function in `BssModel` says. Entries live at addresses in a
`heap`; freeing takes an address out, reallocation may move an entry, so a dangling pointer is a visible state.
Over every run of operations and outside events (`BssRuns.Run`) the files then prove:

- the invariant: both lists hold the same entries, once each, and the counter agrees; id order; round order; the
  round index; unique (BSSID, SSID); no reference dangles; capacity; miss bound (`BssInvariant`, `BssRuns`);
- exact histories of single entries, followed by id: who last updated it, where it is in the update order, how many
  rounds it missed, which of several results of a round it holds (`BssHistory`, `BssExpiry`, `BssRounds`);
- eviction: who goes, when the maximum grows, what references follow, and when one does not (`BssEviction`);
- the early exit of the age flush against the full filter (`BssAge`);
- what all of these decisions come to in terms of configuration, results and stored fields alone (`BssFields`).

**Ignore list** (`wpa_supplicant/bssid_ignore.c`). A linked list of heap nodes, relinked in place, against a
sequence model, and that model against one small record per BSSID on which lookups have no influence; and how long a
BSSID stays ignored, in seconds (`IgnoreTimes`).

**Learning background scanner** (`wpa_supplicant/bgscan_learn.c`). Neighbour graph, data file, and the fair
round-robin probe; what a scan teaches by its raw results (`BgscanRaw`), and a data file by its text (`BgscanLines`).

**HLR/AuC gateway** (`hostapd/hlr_auc_gw.c`). `inc_sqn` on six octets with shifts, mask and truncation, as in Annex
C.3.2 of 3GPP TS 33.102; request and resynchronisation runs; the rotating triplet cursor, for one subscriber and for
many. What a step does is stated on the octets as well.

**SAE-PK** (`hostapd/sae_pk_gen.c`, `src/common/sae_pk.c`). Packing on the access point's side and unpacking on the
station's side, both in place, and the theorem that joins them: the station rebuilds the beginning of the hash.

**Key management list** (`hostapd/config_file.c`, `hostapd/ctrl_iface.c`). Parser and printer for every combination
of build options, and both as loops over character buffers; the words themselves in `KeyMgmtForms`.

**MAC access list** (`hostapd/config_file.c`). The array, its in-place removal loop, and the file reader; what lines
and files do by their text (`AclText`).

Names, time stamps, bit arithmetic and text formats that these share are in `Macs`, `RelTimes`, `Bits`, `Text`,
`TextForms` and `Seqs`.

## Findings

Places where the code does less than one might expect of it, with the exact condition proved for all inputs and an
input or a run for which it happens.

- Stage one of an eviction does not look at whether an entry is in use. It frees the current entry, leaving
  `current_bss` dangling, exactly when the table is full and the current entry is the first in update order that is
  neither known nor a WPS candidate (`BssEviction.EvictionDanglesExactly`). That the network of the current entry stays
  configured does not prevent it, since a configured network without an SSID makes no entry known
  (`BssEviction.EvictionDanglesExample`). While the current entry is known, no reference ever dangles
  (`BssRuns.KnownNeverDangles`).
- The age flush stops at the first young entry it may remove. It is a full filter exactly when no old entry stands
  behind a young one (`BssAge.EarlyExitExact`, `BssAge.OldEntryStaysExample`); results arriving in time order make that so.
- With more than fifty results of one network in a scan, neighbours stay symmetric exactly when every access point
  beyond the first fifty is already a neighbour of all of those (`BgscanModel.SymmetricExactly`,
  `BgscanModel.SymmetryBreaksExample`).
- The list of known frequencies is zero-terminated. A probe is part of the scan exactly when no access point was learned
  on frequency 0 (`BgscanLearn.Learner.NextScan`). A line of the data file that lacks the frequency makes one
  (`BgscanLearn.ShortLineHidesProbes`).
- Lookups change no later answer of add, get or is_listed, but they can change what a later delete returns: exactly when,
  without them, the delete meets an entry that is stale or due to be cleared after a reconfiguration
  (`IgnoreModel.DeleteExactly`, `IgnoreModel.DeletesAgreeExactly`, `IgnoreModel.DeleteSeesPruning`,
  `IgnoreModel.DeleteSeesReconfiguration`).
- Subscribers share the triplet cursor. A subscriber's requests go through all of its triplets when no other requests
  come between; otherwise the next triplet depends exactly on how many of its triplets the cursor has passed
  (`HlrTurns.TurnExactly`, `HlrTurns.UndisturbedExactly`), and two subscribers taking turns can starve a triplet
  (`HlrTurns.StarvationExample`).
- The option parser admits IND lengths 31 and 32, for which the code's shift of an `int` is undefined. The numbers are
  stepped as they should exactly when the mask comes out as that many ones (`HlrSqn.StepsExactly`). A processor that
  takes shift counts modulo 32 yields the mask 0 for 32, and IND stays 0 (`HlrSqn.ThirtyTwoIsBad`).
- The station's SAE-PK fingerprint buffer has room for passwords of up to 25 groups, 124 characters; the test of the
  password's text sets no upper limit, and nothing looks at the size before the octets are stored
  (`SaePkFingerprint.FitsExactly`, `SaePkFingerprint.TwentySixGroupsOverrun`). What the generator prints always fits
  (`SaePkFingerprint.PrintedLengths`).
- The printer names the Suite B AKMs in every build, the parser knows them only with their options; without them they get
  into a configuration in other ways (`freertos/src/supp_api.c:1352-1358`). Printed lists always parse exactly in builds
  with both options (`KeyMgmt.PrintedIsParsed`, `KeyMgmt.PrintedSuiteBIsRefused`). The other way round, FT-SAE without FT,
  OSEN and PASN are parsed and not printed: a parsed list comes back from printing and parsing exactly when the printer
  names all of it (`KeyMgmt.ParsedSurvives`, `KeyMgmt.LostByPrinting`, `KeyMgmt.ParsedIsLost`).
- A bad line makes reading an access list fail with the earlier lines already applied, unsorted
  (`MacAcl.AccessList.ReadMaclist`). Two addresses out of order and then a bad line leave the list out of order
  (`AclModel.FailedReadUnordered`); when a failed read leaves the list unchanged is `AclModel.UnchangedExactly`.
- An addition to a table that is over its maximum, as after lowering it at run time, replaces one entry. The table gets
  back to the maximum by expiry, flushing and removal only (`BssInvariant.CapacityExactly`).

## Model

| member | source | states |
|---|---|---|
| BssRuns.RunValid | wpa_supplicant/bss.c:186-234 | In every state of every run all of the invariant holds; in particular the round index, `current_bss` and the pending work refer to live entries only. |
| BssRuns.StepValid | wpa_supplicant/bss.c:591-690 | Each operation, relocating update and two-stage eviction included, keeps the invariant when its caller keeps the caller's side. |
| BssRuns.KnownNeverDangles | wpa_supplicant/bss.c:348-364 | In every run in which callers keep their side and the current entry is known, no reference ever dangles. |
| BssInvariant.RestrictValid | wpa_supplicant/bss.c:209-234 | Removing any set of entries keeps the invariant, provided the current entry is not among them. |
| BssInvariant.MakeRoomValid | wpa_supplicant/bss.c:443-451 | Making room keeps the invariant and really makes room, unless it evicts the current entry. |
| BssInvariant.KnownIsSpared | wpa_supplicant/bss.c:348-393 | A known current entry is never the victim of an eviction. |
| BssInvariant.MakeRoomAllocated | wpa_supplicant/bss.c:431-451 | The entry allocated before the eviction has no part in choosing the victim. |
| BssInvariant.CapacityExactly | wpa_supplicant/bss.c:443-455 | Whatever the maximum was before, after an addition the table is within it iff it was before or nothing could be evicted; a full table with a victim keeps its size. |
| BssInvariant.AppendValid | wpa_supplicant/bss.c:453-455 | Linking a fresh entry last in both lists keeps id order, round order, the index and unique keys. |
| BssInvariant.RefreshValid | wpa_supplicant/bss.c:628-632 | Overwriting an entry in place and moving it last keeps the invariant. |
| BssInvariant.RenameValid | wpa_supplicant/bss.c:656-685 | Moving an entry to another address with all references patched keeps the invariant, id order included. |
| BssInvariant.NoteRename | wpa_supplicant/bss.c:665-672 | Patching the index and recording the entry in it commute. |
| BssInvariant.EndedValid | wpa_supplicant/bss.c:868-891 | The end of a round keeps the invariant; every miss count left is below the limit. |
| BssInvariant.RoundIsSuffix | wpa_supplicant/bss.c:774-812 | The entries in the round index are a suffix of the update order. |
| BssHistory.StepEntry | wpa_supplicant/bss.c:718-813 | Every entry after a step is an old one, changed and housed as told, or the one just entered. |
| BssHistory.TouchedBy | wpa_supplicant/bss.c:274-289 | An entry of a run carries the radio fields, time and round of the result that last touched it, and there was one. |
| BssHistory.UpdateOrder | wpa_supplicant/bss.c:630-685 | In every state of every run the update list is strictly ordered by when its entries were last touched. |
| BssHistory.OverwriteHeap | wpa_supplicant/bss.c:628-685 | An update changes one entry only, and its new home is its old one or an unused address. |
| BssRounds.RoundWinner | wpa_supplicant/bss.c:598-630 | In every state of every run each entry holds the winner of the current round's results for it: the first associated one, else the first with the greatest update time. |
| BssRounds.WinnerIsUnique | wpa_supplicant/bss.c:616-621 | A round has at most one winner for an entry. |
| BssExpiry.MissCountIsExact | wpa_supplicant/bss.c:873-883 | The miss count is the number of completed new-scan rounds since the last touch that covered the entry, did not see it and found it not in use. |
| BssExpiry.ExpiryIsExact | wpa_supplicant/bss.c:882-887 | The end of a round removes an entry iff this round is the miss that reaches the limit. |
| BssExpiry.MissEffect | wpa_supplicant/bss.c:628 | A touch resets the miss count, a missed round adds one, nothing else changes it. |
| BssEviction.EvictionIsLeastRecent | wpa_supplicant/bss.c:395-419 | Adding to a full table removes the least recently touched entry that is unknown and no WPS candidate, else the least recently touched one not in use, else nothing and the maximum grows by one. |
| BssEviction.InUseStays | wpa_supplicant/bss.c:366-377 | No table operation removes an entry in use that stage one spares; at most it moves. |
| BssEviction.CurrentFollows | wpa_supplicant/bss.c:673-674 | The current entry is the same entry (by id) after every step, wherever it lives. |
| BssEviction.PendingFollows | wpa_supplicant/bss.c:186-207 | The pending work points at the same entry (by id) after every step, or is told of its removal when it is gone. |
| BssEviction.EvictionDanglesExactly | wpa_supplicant/bss.c:379-393 | Without the caller's side the current entry is freed under its reference iff the table is full and it is the first entry stage one does not spare. |
| BssEviction.EvictionDanglesExample | wpa_supplicant/bss.c:379-393 | A run with a configured network (one without an SSID), after which a result that passes the filter frees the current entry. |
| BssEviction.DuplicateExactly | wpa_supplicant/bss.c:244-256 | An insertion keeps (BSSID, SSID) unique iff the key is free after eviction, and a result that passes the BSSID filter guarantees it. |
| BssAge.EarlyExitExact | wpa_supplicant/bss.c:900-923 | The age flush removes old unused entries only, and all of them iff none stands behind a young unused one. |
| BssAge.OldEntryStaysExample | wpa_supplicant/bss.c:900-923 | A run of two results, not in time order, after which the flush keeps an entry twice as old as asked for. |
| BssAge.TimeOrder | wpa_supplicant/bss.c:630-685 | When update times arrive non-decreasing, the update list is sorted by last update in every state. |
| BssAge.FlushByAgeExact | wpa_supplicant/bss.c:900-923 | Then the age flush removes exactly the entries that are not in use and older than the cut-off. |
| BssAge.AgedRunExact | wpa_supplicant/bss.c:911-922 | Over any list the early-exit walk finds every old unused entry iff none stands behind a young one. |
| BssFields.TakenExactly | wpa_supplicant/bss.c:718-813 | A result that passes the filter changes a table without an entry noted for its BSSID and name iff it is recent enough, has an SSID of at most 32 octets, has a P2P element on a P2P group interface, and has not both a P2P element and the SSID "DIRECT-"; the entry is under the mesh ID if there is one that fits. |
| BssFields.RejectedIsEntered | wpa_supplicant/bss.c:244-256 | A result to be taken that the filter rejects is entered as a further entry each time. |
| BssFields.LookupExactly | wpa_supplicant/bss.c:244-256 | A lookup finds the first entry in update order with this BSSID and this SSID, and none iff there is none or the filter rejects the BSSID. |
| BssFields.RoomExactly | wpa_supplicant/bss.c:379-455 | Over the fields of configuration and entries: a full table loses the first entry in update order that is of no pending P2P join, no configured SSID and no WPS network; when there is none, the first that does not serve the connection; else nothing, and the maximum grows. |
| BssFields.LeastRecentGoes | wpa_supplicant/bss.c:379-455 | In every run that entry is the least recently touched one of its kind. |
| BssFields.ConfiguredStays | wpa_supplicant/bss.c:355-361 | An entry with the SSID of a configured network stays as long as there is an unwanted one. |
| BssFields.RetainedExactly | wpa_supplicant/bss.c:291-364 | Stage one spares an entry iff it is of the pending P2P join, has a configured SSID, or announces WPS to a station whose first fitting WPS network has the enrollee method asked for. |
| BssFields.WpsExactly | wpa_supplicant/bss.c:291-331 | The search for a WPS network answers for the first one that fits. |
| BssFields.InUseExactly | wpa_supplicant/bss.c:366-377 | In use: the current entry, or one whose BSSID, not all zero, is the own or the pending one, unless the current entry has another SSID. |
| BssFields.RoundExactly | wpa_supplicant/bss.c:868-891 | After a round each entry that serves, or whose frequency or SSID the scan did not cover, is as before; any other stays iff its misses, this one included unless it was seen, are below the limit. An aborted round, or one without a new scan, changes nothing. |
| BssFields.IncludedExactly | wpa_supplicant/bss.c:815-856 | Covered: the frequency is in the list of frequencies and the SSID or the wildcard in the list of SSIDs, an empty list covering all. |
| BssFields.FlushExactly | wpa_supplicant/bss.c:944-959 | A flush keeps exactly the entries that serve. |
| BssFields.AgeFlushExactly | wpa_supplicant/bss.c:900-923 | With results in time order an age flush keeps exactly the entries that serve or were updated at most that many seconds ago, to the microsecond. |
| BssFields.P2pStays | wpa_supplicant/bss.c:633-649 | No operation takes the P2P element away from an entry. |
| BssFields.ElementsExactly | wpa_supplicant/bss.c:633-682 | An overwritten entry gets the elements of the result, unless it would lose its P2P element or there is no memory for more of them; it moves iff they are more and memory is found. |
| BssFields.NewElements | wpa_supplicant/bss.c:421-441 | A new entry has the elements and radio fields of its result and no misses. |
| BssFields.IndexGrows | wpa_supplicant/bss.c:793-812 | The round index grows only when it is full, to the next size of the form 32, 64, 128 and so on. |
| BssTable.WpaSupplicant.Known | wpa_supplicant/bss.c:348-364 | True iff the entry is of a pending P2P join, or some configured network has an SSID and it is the entry's. |
| BssTable.WpaSupplicant.IsWpsCandidate | wpa_supplicant/bss.c:291-331 | The first WPS network that fits the SSID decides, by the enrollee method announced. |
| BssTable.WpaSupplicant.IsInUse | wpa_supplicant/bss.c:366-377 | The current entry, or one with the own or pending BSSID unless its SSID differs from the current one's. |
| BssTable.WpaSupplicant.IncludedInScan | wpa_supplicant/bss.c:815-856 | True iff the scan covered the entry's frequency and SSID, empty lists and the wildcard covering all. |
| BssTable.WpaSupplicant.Get | wpa_supplicant/bss.c:244-256 | The first entry in update order with this BSSID and SSID, none if the filter rejects the BSSID. |
| BssTable.WpaSupplicant.GetIdRange | wpa_supplicant/bss.c:1069-1078 | The entry with the smallest id in the range, over all live entries; none iff there is none. |
| BssTable.WpaSupplicant.UpdatePendingConnect | wpa_supplicant/bss.c:186-207 | A pending work that remembers the old entry gets the new one, or the removal flag; any other is untouched. |
| BssTable.WpaSupplicant.Remove | wpa_supplicant/bss.c:209-234 | The whole state after removal: both lists, counter, index, pending work and heap without the entry. |
| BssTable.WpaSupplicant.RemoveOldest | wpa_supplicant/bss.c:395-419 | Removes the victim of the two stages, which `BssFields.RoomExactly` states in fields, if there is one, and says whether. |
| BssTable.WpaSupplicant.Add | wpa_supplicant/bss.c:421-464 | The whole state after entering a result, eviction or growth of the maximum included; nothing changes without memory. |
| BssTable.WpaSupplicant.Update | wpa_supplicant/bss.c:591-690 | An outdated result changes nothing; another overwrites the entry, moves it last, and relocates it with all references when its elements grow. |
| BssTable.WpaSupplicant.Reallocate | wpa_supplicant/bss.c:656-682 | The id list with the entry taken out and put back behind its predecessor is the same list with the address replaced. |
| BssTable.WpaSupplicant.UpdateStart | wpa_supplicant/bss.c:701-706 | A new round with an empty index. |
| BssTable.WpaSupplicant.UpdateScanRes | wpa_supplicant/bss.c:718-813 | The whole state after one scan result; which results are ignored is `BssFields.TakenExactly`. |
| BssTable.WpaSupplicant.UpdateEnd | wpa_supplicant/bss.c:868-891 | The removal loop with its cursor counts and removes as if every entry were judged in the state before it. |
| BssTable.WpaSupplicant.Flush | wpa_supplicant/bss.c:944-959 | Exactly the entries in use stay. |
| BssTable.WpaSupplicant.FlushByAge | wpa_supplicant/bss.c:900-923 | The whole state after the early-exit walk. |
| BssTable.WpaSupplicant.constructor | wpa_supplicant/bss.c:933-938 | An empty table. |
| RelTimes.CalculateUpdateTime | wpa_supplicant/bss.c:258-272 | Exactly fetch time minus age, with normalised microseconds. |
| RelTimes.BeforeIsLess | src/utils/os.h:69-72 | The two-part comparison is the comparison of the microsecond counts. |
| RelTimes.ExpiredIsMore | src/utils/os.h:97-103 | Expired means that more than the timeout has passed, to the microsecond. |
| IgnoreModel.RunWellFormed | wpa_supplicant/bssid_ignore.c:64-106 | In every run each BSSID is listed at most once and its timeout is the step function of its count. |
| IgnoreModel.RunAgrees | wpa_supplicant/bssid_ignore.c:188-223 | In every run the list and the record of a BSSID agree on everything not stale, now and at any later time. |
| IgnoreModel.AnswersByRecord | wpa_supplicant/bssid_ignore.c:21-46 | After any run add, get and is_listed answer what the record of their BSSID says, and nothing else matters. |
| IgnoreModel.LookupsAreTransparent | wpa_supplicant/bssid_ignore.c:21-46 | Runs that differ only in lookups and updates give the same later answers, reconfigurations included. |
| IgnoreModel.DeleteExactly | wpa_supplicant/bssid_ignore.c:114-142 | After any run a delete answers what the record of its BSSID says iff it meets no entry that is stale or due to be cleared; otherwise it answers 0. |
| IgnoreModel.DeletesAgreeExactly | wpa_supplicant/bssid_ignore.c:114-142 | After two runs that differ only in lookups a delete returns the same iff such a leftover is in both or in neither. |
| IgnoreModel.NoLeftoverAfterLookup | wpa_supplicant/bssid_ignore.c:21-46 | A lookup right before the delete leaves no such entry. |
| IgnoreModel.DeleteSeesPruning | wpa_supplicant/bssid_ignore.c:114-142 | An instance by pruning: two runs that differ in one update only, after which a delete returns different values. |
| IgnoreModel.DeleteSeesReconfiguration | wpa_supplicant/bssid_ignore.c:28-33 | An instance by reconfiguration: a delete before and after the lookup that clears the list. |
| IgnoreModel.FindPruned | wpa_supplicant/bssid_ignore.c:188-223 | Pruning hides exactly the stale entries from lookups. |
| IgnoreTimes.PenaltyExactly | wpa_supplicant/bssid_ignore.c:71-106 | After a last failure that answered n, in any run, the BSSID is listed exactly while 10, 10, 60, 120, 600 or, from the sixth on, 1800 seconds pass; a further failure within an hour more is number n + 1, a later one the first. |
| IgnoreList.Node.CountUp | wpa_supplicant/bssid_ignore.c:74-91 | Counts up and sets the timeout of the new count. |
| IgnoreList.IgnoredBssids.Unlink | wpa_supplicant/bssid_ignore.c:202-213 | Relinking through the predecessor takes one node out and leaves all others in order. |
| IgnoreList.IgnoredBssids.Update | wpa_supplicant/bssid_ignore.c:188-223 | The pruning loop over the links is a filter of the listed entries. |
| IgnoreList.IgnoredBssids.Get | wpa_supplicant/bssid_ignore.c:21-46 | Clears after a reconfiguration, prunes otherwise, and returns the node of the BSSID or null. |
| IgnoreList.IgnoredBssids.Add | wpa_supplicant/bssid_ignore.c:64-106 | New list and returned count are those of the model, the node being reused or put in front. |
| IgnoreList.IgnoredBssids.Del | wpa_supplicant/bssid_ignore.c:114-142 | New list and returned value are those of the model. |
| IgnoreList.IgnoredBssids.IsListed | wpa_supplicant/bssid_ignore.c:150-162 | The count while the timeout runs, else 0; the list is only looked at. |
| IgnoreList.IgnoredBssids.Clear | wpa_supplicant/bssid_ignore.c:168-181 | An empty list, the reconfiguration flag kept. |
| BgscanModel.NotifiedEffect | wpa_supplicant/bgscan_learn.c:478-549 | After any scan: who is known, whose neighbours grow by the first fifty, and which frequency is stored. |
| BgscanRaw.LearnedExactly | wpa_supplicant/bgscan_learn.c:478-549 | On the raw results and a well-formed list: known afterwards iff known before or in a result with this SSID; new neighbours are those in the first fifty such results; the frequency is that of the last such result, else unchanged. |
| BgscanRaw.LastExists | wpa_supplicant/bgscan_learn.c:510-520 | Every access point that was heard has a last result. |
| BgscanRaw.OthersAreSkipped | wpa_supplicant/bgscan_learn.c:490-517 | A result with another SSID, or none, can be left out anywhere without a difference. |
| BgscanRaw.ScanGrows | wpa_supplicant/bgscan_learn.c:478-549 | The list grows at its front only and neighbour lists at their end only. |
| BgscanModel.SymmetricExactly | wpa_supplicant/bgscan_learn.c:497-501 | A scan keeps the relation symmetric iff the access points beyond the first fifty are already neighbours of all of those. |
| BgscanModel.SymmetryBreaksExample | wpa_supplicant/bgscan_learn.c:482-501 | A first scan of 51 access points breaks symmetry. |
| BgscanModel.NotifiedInvariant | wpa_supplicant/bgscan_learn.c:478-549 | With at most fifty matching results a scan keeps the relation symmetric and irreflexive among known access points, and it only grows. |
| BgscanModel.RunInvariant | wpa_supplicant/bgscan_learn.c:478-549 | So it is in every run of such scans that starts in order. |
| BgscanModel.RunWellFormed | wpa_supplicant/bgscan_learn.c:68-96 | With any number of results, entries stay unique and neighbour lists free of repetition and self. |
| BgscanFile.SaveLoad | wpa_supplicant/bgscan_learn.c:98-190 | Saving and loading gives back all entries with frequencies and neighbour sequences, in reverse order. |
| BgscanFile.LearnedSurvives | wpa_supplicant/bgscan_learn.c:98-190 | That holds for whatever any number of sessions have learned, each loading what the one before saved. |
| BgscanFile.SessionsInvariant | wpa_supplicant/bgscan_learn.c:98-190 | Over any number of sessions with at most fifty results a scan, the relation stays symmetric and irreflexive among known access points. |
| BgscanFile.ReversedSame | wpa_supplicant/bgscan_learn.c:120-138 | Coming back reversed changes nobody's neighbours or frequency. |
| BgscanFile.ShortLineLoads | wpa_supplicant/bgscan_learn.c:122-138 | A BSS line that ends after the address enters its access point on frequency 0. |
| BgscanFile.BssLinesLoad | wpa_supplicant/bgscan_learn.c:120-138 | The BSS lines bring back the bare entries reversed, in front of those present. |
| BgscanFile.NeighborLinesLoad | wpa_supplicant/bgscan_learn.c:140-153 | The NEIGHBOR lines complete the entries one by one. |
| BgscanFile.SavedExample | wpa_supplicant/bgscan_learn.c:160-190 | The three lines, letter by letter, for one access point on 2412 MHz with one neighbour. |
| BgscanLines.BssLineExactly | wpa_supplicant/bgscan_learn.c:122-138 | Whatever its text, a BSS line enters the address that is spelled behind the word, with the number behind it, or does nothing. |
| BgscanLines.NeighborLineExactly | wpa_supplicant/bgscan_learn.c:140-153 | Whatever its text, a NEIGHBOR line adds the second address to the first entry of the first one, once and not to itself, and does nothing if that is unknown or either is not spelled out. |
| BgscanLines.OtherLineExactly | wpa_supplicant/bgscan_learn.c:120-154 | Any other line does nothing. |
| BgscanLearn.Learner.NotifyScan | wpa_supplicant/bgscan_learn.c:478-549 | The two loops over the results learn what the model says: from a well-formed list, exactly the access points in results with this SSID become known. |
| BgscanLearn.Learner.Load | wpa_supplicant/bgscan_learn.c:98-158 | Refuses a file without the header, and otherwise applies its lines to the present list. |
| BgscanLearn.Learner.Save | wpa_supplicant/bgscan_learn.c:160-190 | Writes the header, all BSS lines, then all NEIGHBOR lines. |
| BgscanLearn.Learner.NextScan | wpa_supplicant/bgscan_learn.c:208-266 | The known frequencies and the one that the probe rule picks, which is part of the scan iff no access point was learned on frequency 0; the cursor stays in range. |
| BgscanLearn.ScannedWithinN | wpa_supplicant/bgscan_learn.c:208-266 | Without a learned frequency 0, any n scans in a row cover every one of the n supported frequencies, whatever is learned between them. |
| BgscanLearn.ShortLineHidesProbes | wpa_supplicant/bgscan_learn.c:122-138 | After loading a BSS line without a frequency, no probe is part of the scan. |
| BgscanLearn.Learner.constructor | wpa_supplicant/bgscan_learn.c:349-380 | The supported frequencies are those of the enabled channels, each once unless a channel is on frequency 0. |
| BgscanProbe.GetProbeFreq | wpa_supplicant/bgscan_learn.c:231-266 | The search loop ends, appends at most one frequency, the first unknown one from the cursor on, and leaves the cursor behind it; also when the supported list begins with a frequency 0. |
| BgscanProbe.Closer | wpa_supplicant/bgscan_learn.c:238-264 | Each round probes a given unknown frequency or brings the cursor nearer to it. |
| BgscanProbe.Fair | wpa_supplicant/bgscan_learn.c:231-266 | A frequency that stays unknown is probed no later than its cyclic distance says, however the known set changes. |
| BgscanProbe.FairWithinN | wpa_supplicant/bgscan_learn.c:231-266 | In particular within n rounds for n supported frequencies. |
| BgscanProbe.ProbeIsScanned | wpa_supplicant/bgscan_learn.c:250-257 | A reader of the terminated list sees the probe iff no earlier frequency is 0. |
| BgscanProbe.InArray | wpa_supplicant/bgscan_learn.c:192-206 | Membership among the values before the first zero. |
| BgscanProbe.DistinctExact | wpa_supplicant/bgscan_learn.c:208-229 | Without zeros the collected list has every frequency exactly once. |
| BgscanProbe.EnabledExactly | wpa_supplicant/bgscan_learn.c:349-380 | Exactly the frequencies of channels that some mode has enabled. |
| BgscanProbe.GetSuppFreqs | wpa_supplicant/bgscan_learn.c:349-380 | The two loops collect the enabled channels' frequencies without repetition. |
| Text.MacReads | src/utils/common.c:38-66 | Reading a printed address gives it back, at any position and whatever follows. |
| Text.IntReads | wpa_supplicant/bgscan_learn.c:132 | Reading a printed number gives it back. |
| Text.LinesRead | wpa_supplicant/bgscan_learn.c:120 | Reading short lines with a 128-octet buffer gives back the lines written. |
| TextForms.AddressExactly | src/utils/common.c:12-66 | An address is read from a text iff the text spells it there: two digits per octet in either case, the upper four bits first, colons between. |
| TextForms.PrintedSpells | wpa_supplicant/bgscan_learn.c:171-185 | A printed address spells itself in lower case. |
| TextForms.NatTextDigits | wpa_supplicant/bgscan_learn.c:172 | Digit i from the right of a printed number is the one of weight 10^i. |
| TextForms.LinesExactly | hostapd/config_file.c:194 | The pieces that are read make up the file; each has at most 127 characters and a newline at most at its end, and all but the last are full or end in one. |
| HlrSqn.IncSqn | hostapd/hlr_auc_gw.c:747-766 | On six octets in place: SEQ and IND each go up by one in their own width, bit by bit in the octets, for every IND length up to 30, and beyond that if the undefined shift happens to yield the right mask. |
| HlrSqn.ValueBit | hostapd/hlr_auc_gw.c:753 | Bit j of the number is bit j % 8 of octet 5 - j / 8. |
| HlrSqn.ValueDecides | hostapd/hlr_auc_gw.c:764-765 | Two rows of six octets for the same number are the same. |
| HlrSqn.NextOctets | hostapd/hlr_auc_gw.c:753-765 | After a correct step an octet bit differs from before exactly when all lower bits of its own part, SEQ or IND, were set. |
| HlrSqn.SteppedOctetsDecide | hostapd/hlr_auc_gw.c:753-765 | That determines all six octets. |
| HlrSqn.LastOctetSteps | hostapd/hlr_auc_gw.c:753-765 | Without IND a last octet below 255 goes up by one, and no other octet changes. |
| HlrSqn.StepExample | hostapd/hlr_auc_gw.c:753-765 | With five bits of IND, 00 00 00 00 00 05 becomes 00 00 00 00 00 26. |
| HlrSqn.IncValue | hostapd/hlr_auc_gw.c:760-765 | With the mask of ind_len ones the shifts and the truncating store compute that, so no carry passes between SEQ and IND. |
| HlrSqn.StepsExactly | hostapd/hlr_auc_gw.c:760-765 | For every IND length and mask: all numbers are stepped as they should iff the mask is ind_len ones in its 48 low bits (without IND, any mask). |
| HlrSqn.ThirtyTwoIsBad | hostapd/hlr_auc_gw.c:1433-1439 | With IND length 32 and mask 0 the IND is always 0. |
| HlrSqn.NextParts | hostapd/hlr_auc_gw.c:759-765 | SEQ + 1 modulo 2^(48 - ind_len) and IND + 1 modulo 2^ind_len. |
| HlrSqn.AfterParts | hostapd/hlr_auc_gw.c:747-766 | The same for n requests. |
| HlrSqn.SeqGrows | hostapd/hlr_auc_gw.c:782-792 | Until SEQ wraps, every later request has a larger SEQ, whatever its IND. |
| HlrSqn.EveryIndOnce | hostapd/hlr_auc_gw.c:782-792 | Any 2^ind_len consecutive requests use each IND exactly once. |
| HlrSqn.SubscribersAreIndependent | hostapd/hlr_auc_gw.c:599-616 | A subscriber's number depends on the commands about that subscriber only. |
| HlrSqn.BetweenResyncs | hostapd/hlr_auc_gw.c:845-903 | Without a successful AKA-AUTS the number advances once per request, failed ones in between or not. |
| HlrSqn.FirstAfterResync | hostapd/hlr_auc_gw.c:882-900 | The first request after a resynchronisation has SEQ one above the revealed one, whatever came before. |
| HlrSqn.GetMilenage | hostapd/hlr_auc_gw.c:599-616 | The first subscriber with the IMSI. |
| HlrSqn.AkaReqAuth | hostapd/hlr_auc_gw.c:768-843 | Advances and issues the number of this subscriber only, as IncSqn does; an unknown IMSI changes and issues nothing. |
| HlrSqn.AkaAuts | hostapd/hlr_auc_gw.c:845-903 | Takes over the revealed number for this subscriber only, and only if the AUTS was correct. |
| HlrTriplets.PickRotates | hostapd/hlr_auc_gw.c:379-405 | From any cursor, a call returns the first of the subscriber's round and puts it last. |
| HlrTriplets.RoundIsPermutation | hostapd/hlr_auc_gw.c:379-405 | The round holds each of the subscriber's triplets once, wherever the cursor is. |
| HlrTriplets.CallsGoRound | hostapd/hlr_auc_gw.c:379-405 | The i-th of consecutive calls returns element i modulo k of the round. |
| HlrTriplets.EachOnce | hostapd/hlr_auc_gw.c:379-405 | k consecutive calls for k triplets return each exactly once; fewer return no triplet twice. |
| HlrTurns.TurnExactly | hostapd/hlr_auc_gw.c:379-405 | After any requests of any subscribers, the next triplet of one is the element of its round whose number is, modulo the length, how many of its triplets the cursor has passed. |
| HlrTurns.UndisturbedExactly | hostapd/hlr_auc_gw.c:379-405 | Requests of others leave the next triplet as it was iff they pass whole rounds of the subscriber's triplets. |
| HlrTurns.SameTurnExactly | hostapd/hlr_auc_gw.c:379-405 | Any two turns of a run give a subscriber the same triplet iff as many of its triplets were passed before them, modulo k. |
| HlrTurns.EachOnceExactly | hostapd/hlr_auc_gw.c:379-405 | Under any interleaving a subscriber gets no triplet twice iff those numbers differ at all its turns, and k different ones are all of its triplets. |
| HlrTurns.OwnPassesOne | hostapd/hlr_auc_gw.c:379-405 | A subscriber's own request passes one of its triplets. |
| HlrTurns.StarvationExample | hostapd/hlr_auc_gw.c:379-405 | Two subscribers taking turns any number of times: one triplet is returned every time, another never. |
| HlrTriplets.GsmDb.Insert | hostapd/hlr_auc_gw.c:367-369 | A new head. In the round of its subscriber, seen from the unmoved cursor, it comes after those ahead of the cursor and before all others; no other round changes. |
| HlrTriplets.GsmDb.GetTriplet | hostapd/hlr_auc_gw.c:379-405 | The two walks return a triplet iff the subscriber has one; the cursor stays null or a node. |
| HlrTriplets.GsmDb.SimReqAuth | hostapd/hlr_auc_gw.c:666-693 | Exactly the demanded number of triplets (at most three), pairwise distinct when there are that many; none iff there is none. |
| SaePkBuffers.ShiftLeft19 | src/common/sae_pk.c:293-309 | In place, bit n becomes bit n + 19 of before, zeros coming in. |
| SaePk.PackPasswordBase | hostapd/sae_pk_gen.c:152-175 | The packed buffer has the flag in front of every group and the hash bits after the skipped octets in between, and is zero beyond. |
| SaePk.GroupOfPacked | hostapd/sae_pk_gen.c:156-175 | Group j is the flag and bits 19j to 19j + 18. |
| SaePk.EvenGroup | hostapd/sae_pk_gen.c:170-174 | The shifts and masks put the 20 bits in front of three octets and clear the last four bits. |
| SaePk.OddGroup | hostapd/sae_pk_gen.c:162-168 | The shifts and masks put them behind four clear bits, so or-ing keeps the group before. |
| SaePk.DropFlags | hostapd/sae_pk_gen.c:152-153 | Dropping the flags gives the hash bits back in order. |
| SaePkBuffers.ShiftLeft1 | src/common/sae_pk.c:311-325 | In place, bit n becomes bit n + 1 of before. |
| SaePkBuffers.Be19Bit | src/common/sae_pk.c:286-289 | The number made of three octets has their first 19 bits. |
| SaePkFingerprint.TakeGroup | src/common/sae_pk.c:363-370 | Drops one flag and moves 19 bits into the 32-bit accumulator, which loses none that are still wanted. |
| SaePkFingerprint.SetPassword | src/common/sae_pk.c:350-388 | The fingerprint is Sec zero octets and the password bits without the flags, of exactly the stated length; the stores go past its end iff the password has more than 124 characters. |
| SaePkFingerprint.FitsExactly | src/common/sae_pk.c:350-359 | For both values of Sec the fingerprint fits its buffer iff the password has at most 25 groups. |
| SaePkFingerprint.TwentySixGroupsOverrun | src/common/sae_pk.c:350-359 | A password of 129 characters needs 65 octets, or 67 for Sec 5. |
| SaePkFingerprint.FingerprintIsHashPrefix | src/common/sae_pk.c:350-388 | From a password carrying packed groups the station finds the generator's Sec and rebuilds the first bits of the very hash. |
| SaePkFingerprint.PrintedLengths | hostapd/sae_pk_gen.c:186-192 | Every password length the generator prints is covered by the packed groups and the hash. |
| KeyMgmt.TokenSetDecides | hostapd/config_file.c:753-857 | The parser's result depends on the set of tokens only, not on order, repetition or spacing. |
| KeyMgmt.ParseMeaning | hostapd/config_file.c:753-857 | A parsed list is exactly the AKMs of the build whose names are among the tokens. |
| KeyMgmt.ParsePrinted | hostapd/ctrl_iface.c:1030-1185 | What parsing a printed list yields, for every set of AKMs and every build. |
| KeyMgmt.ParseUndoesPrint | hostapd/ctrl_iface.c:1030-1185 | Parsing undoes printing iff the set is not empty and printer and parser of the build know all of it. |
| KeyMgmt.PrintedIsParsed | hostapd/ctrl_iface.c:1125-1138 | Every non-empty printed list parses iff the build has both Suite B options. |
| KeyMgmt.PrintedSuiteBIsRefused | hostapd/config_file.c:798-805 | Without the option its Suite B AKM is printed and then refused. |
| KeyMgmt.ParsedSurvives | hostapd/ctrl_iface.c:1030-1185 | For every parsed text, parsing its printed list gives the list back iff the printer names all of it. |
| KeyMgmt.LostByPrinting | hostapd/ctrl_iface.c:1030-1185 | What a build parses and does not print is FT-SAE without FT, OSEN and PASN. |
| KeyMgmt.ParsedIsLost | hostapd/ctrl_iface.c:1030-1185 | The name of such an AKM is parsed, printed as nothing, and nothing does not parse. |
| KeyMgmt.TokensOfJoined | hostapd/config_file.c:763-773 | The words of printed names are the names. |
| KeyMgmtForms.TokensExactly | hostapd/config_file.c:763-773 | The words are exactly the stretches without space or tab that cannot be made longer. |
| KeyMgmtForms.StatusWords | hostapd/ctrl_iface.c:1030-1185 | The seventeen words, letter by letter and in order, that a build with everything prints. |
| KeyMgmtForms.UnprintedWords | hostapd/config_file.c:838-850 | "OSEN PASN" parses to these two iff the build has both options. |
| KeyMgmtText.ParseKeyMgmt | hostapd/config_file.c:753-857 | The pointer loop that cuts words in the buffer computes the parser's result. |
| KeyMgmtText.GetKeyMgmt | hostapd/ctrl_iface.c:1030-1185 | With room for all names and spaces: the terminated joined text. With less: the length of the whole names that fit. |
| KeyMgmt.TrimSpaced | hostapd/ctrl_iface.c:1178-1182 | Dropping the last space leaves single spaces between names. |
| AclModel.LastMentionWins | hostapd/config_file.c:194-250 | After the lines, an address is in the list iff its last line adds it, or no line mentions it and it was there. |
| AclText.LineExactly | hostapd/config_file.c:198-249 | For any text: skipped iff empty or behind a number sign; removes an address iff it is spelled behind a minus; adds one iff it is spelled in front; an error otherwise. |
| AclText.RemovalLine | hostapd/config_file.c:215-235 | A minus and a printed address remove it, whatever follows. |
| AclText.AdditionLine | hostapd/config_file.c:236-249 | A printed address, blanks and a printed number add it with that VLAN, whatever follows. |
| AclText.CommentLine | hostapd/config_file.c:200-214 | A line with a number sign in front, or with nothing in it, is skipped. |
| AclText.FileDecides | hostapd/config_file.c:194-250 | For a file as written: the last line about an address decides; after an addition its last entry has that line's VLAN, and without a line about it its entries stay. |
| AclText.NoBadLine | hostapd/config_file.c:194-250 | Such a file is read to its end. |
| AclModel.AppliedOf | hostapd/config_file.c:194-250 | An address's entries, VLANs and multiplicity included, depend on the lines about it only. |
| AclModel.FailedReadUnordered | hostapd/config_file.c:221-230 | For any two addresses out of order, a file of both and a bad line: the read fails and leaves both in the list, out of order. |
| AclModel.UnchangedExactly | hostapd/config_file.c:221-247 | Lines leave a list unchanged iff they build up exactly the tail that they took away; if they remove none of its addresses, iff no address is last mentioned by an addition. |
| AclModel.AppliedParts | hostapd/config_file.c:231-247 | The result is what the lines keep of the old list, in order, and then what they build up from nothing. |
| AclModel.SortOrdered | hostapd/config_file.c:133-138 | Sorting by the comparison function yields a list in address order. |
| AclText.LexExactly | hostapd/config_file.c:133-138 | The comparison is decided by the first octet in which two addresses differ. |
| MacAcl.AccessList.Add | hostapd/config_file.c:140-159 | The entry is appended; all others stay. |
| MacAcl.AccessList.RemoveMac | hostapd/config_file.c:161-177 | The in-place loop is an order-preserving filter that drops every occurrence. |
| MacAcl.AccessList.ReadMaclist | hostapd/config_file.c:179-258 | Success: in address order, the multiset of the lines' result, last mention wins. A bad line: -1 and the lines before it applied, unsorted. |
| MacAcl.AccessList.ApplyLine | hostapd/config_file.c:198-249 | One line: comment, empty, removal, addition with its VLAN, or refusal, as `AclText.LineExactly` says for any text. |

## Left out

- The rest of the repository: configuration dispatch, command line tools, sockets, RADIUS, certificates, P2P and
  AP glue, ANQP payloads, back-off scanners. Flat code, or code whose state the parts above do not read.
- Cryptography and randomness: Milenage, SHA, HMAC, key generation and the search for a SAE-PK modifier. AKA-AUTS takes
  the revealed number as a parameter, the SAE-PK proofs take the hash.
- SAE-PK base32 text, hyphens and check character: `FingerprintIsHashPrefix` starts from decoded octets that carry the
  encoded bits.
- SaePkFingerprint.SetPassword: where the code would store beyond the fingerprint, the model stops and reports it.
- BssTable.WpaSupplicant: the doubly linked lists are sequences of addresses, with removal at a position and
  insertion behind a predecessor; the neighbouring `next` and `prev` fields are not modelled.
- BssTable.WpaSupplicant.NoteResult: growing the round index is assumed to find memory. Allocation and
  reallocation of entries may fail, and that is modelled.
- BssTable.WpaSupplicant.UpdateScanRes: the build has P2P; entry ids and round numbers do not wrap at 32 bits; information
  elements are their length and what decisions read of them; HESSID, notifications and ANQP data are not modelled.
- BssTable.WpaSupplicant.IsWpsCandidate: the contents of WPS elements are reduced to what they announce to this
  station.
- BssRuns.RunValid: the expiry limit is at least 1 and does not change during a run, though the configuration entry has no
  range; the maximum may be set at any time, but not below the number of entries (`CapacityExactly` says what happens
  then); at most one pending connect work exists.
- BssAge.FlushByAgeExact: that results arrive in time order is an assumption about drivers; without it `EarlyExitExact`
  says what happens.
- IgnoreList.IgnoredBssids.Add: the clock is read once per call, and memory for a node is always found; the
  reconfiguration flag is that of one network, which stays the current one.
- BgscanLearn.Learner: timers, scan requests and the SSID comparison inside information elements. Lists of
  neighbours and frequencies are sequences; memory for them is always found.
- BgscanLearn.Learner.LoadLine: characters that the code would read beyond the end of a short line are taken to be
  terminators; a number out of range, where `atoi` is undefined, reads as 0.
- HlrSqn.IncSqn: what C leaves undefined for IND lengths 31 and 32 is a parameter, the value of the mask.
- HlrSqn.AkaReqAuth: the response text and its buffer, a failing random number generator (which leaves the number as it
  is), and the database that mirrors the numbers.
- HlrSqn.AkaAuts: commands whose hexadecimal fields do not parse, which change nothing.
- HlrTriplets.GsmDb.SimReqAuth: the response text and its buffer, and subscribers with Milenage data. The triplet
  list is a sequence of nodes with the head last; the cursor is a position in it.
- KeyMgmtText.GetKeyMgmt: the seventeen guarded blocks of the printer are one loop over their AKMs in order; the bit mask
  is a set.
- MacAcl.AccessList.SortByAddress: `qsort` leaves the order of equal addresses open, and so does the contract.

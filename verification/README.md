# netis: verified model

netis tracks the devices on a network. Scans, imports from DHCP servers,
automatic filling-in of details and edits by hand all write to one database,
with no lock around it all. This project models each of these and proves what
holds whichever way they meet. A table is a map or a set, and what the database
does atomically is one step. Go objects with methods that change them are
classes; each method is proved against a function or a relation on values, and
the theorems are about runs of those. What each operation comes to is stated
once more from its inputs alone, without the functions it is modelled by: in the
files whose names end in `Outcome`, `Winners`, `History`, `Names` or `Launches`.

- **Autofill** (`Autofill*.dfy`). Hints from several sources compete for each
  column; the winners are written only where the value read is still there, and
  people may edit at any moment in between. Proved for all interleavings: what
  autofill may change, that a person's values and removals stay, that ownership
  is for ever, that the order of hints does not matter, that passes converge
  however tags are spelled, and that the page's explanation agrees with the
  decision. `AutofillWinners` says of the hints alone which one wins, and
  `AutofillOutcome` of the tables alone what a pass leaves on the device and what
  the page says.
- **Limits on sign-in** (`RateLimiter*.dfy`, `LoginAttempts.dfy`,
  `LoginHistory.dfy`). The in-place
  limiter refines a functional one; over whole runs no span of the window's
  length holds more than the limit, despite pruning, bucket deletion and
  sweeping, what a span with both ends can hold, and that sign-in requests
  running side by side leak no attempt, charge every failure, and are let
  through exactly by the history of requests.
- **Presence** (`Presence.dfy`). The statements of concurrent `MarkSeen` and
  `MarkMissed` calls, interleaved one by one: reports strictly alternate, and
  they tell exactly when a sighting leaves its interface offline.
- **Inventory, sweeps and leases** (`Inventory.dfy`, `Sweep*.dfy`,
  `Leases.dfy`, `LeaseOutcome.dfy`, `DhcpPools.dfy`, `MadeUpNames.dfy`). A sweep
  matches answers to interfaces while changing the table it took a snapshot of,
  and counts misses by that snapshot; a sync claims leases one by one. Proved for
  whole sweeps and syncs: which rows, devices and hostnames there are at the end,
  and that the names made up for strangers are the ones autofill replaces.
- **Scheduler** (`ScanScheduler.dfy`, `ScanShutdown.dfy`, `ScanLaunches.dfy`).
  Mutex, bounded channel, semaphore and wait group as a concurrent step system,
  which scans it launches, and what can still follow once the wait group is zero.
- **Kernels** (`LikeEscape.dfy`, `EventFilter.dfy`, `ServerSentEvents.dfy`,
  `Rebind.dfy`, `Bits.dfy`, `Addresses.dfy`, `Grid.dfy`, `BackupNames.dfy`,
  `BackupDisk.dfy`). Each against an independent definition: the LIKE matcher of
  section 8.5 of ISO/IEC 9075-2, the event stream parser of section 9.2.6 of the
  WHATWG HTML standard, a reader of numbered placeholders, binary arithmetic,
  maximal runs, and a file system that can lose power at any point.

## Where the code does not do what it says

Each names the lemma that shows it, and the condition under which the promise
holds.

- Two spellings of one tag are two records, so a removed tag can come back: for
  any two names equal but for case there is a run in which the same tag is
  attached, removed by a person and attached again
  (`AutofillTags.OtherSpellingAttachesAgain`). A pass attaches a tag exactly when
  a candidate that has no record under its own spelling means that tag
  (`AutofillTags.PassAttaches`); where the hints and the tag table spell every
  tag one way, no run attaches one twice (`AutofillTags.TagGainedAtMostOnce`).
- The limiter's window is half open. A span of the window's length counted with
  both ends holds at most twice the limit, and more than the limit only with
  failures exactly at both ends (`RateLimiterSpans.ClosedSpanHolds`); twice the
  limit is reached for every positive limit and window
  (`RateLimiterSpans.ClosedSpanReachesTwice`). So for a positive window all
  closed spans of all runs keep to the limit only if the limit is 0
  (`RateLimiterSpans.ClosedSpansHoldOnlyAtZero`).
- A `MarkSeen` can leave its interface offline with no misses
  (`Presence.SeenYetOffline`). One that gets to its third statement leaves it
  online exactly when nothing was reported between its last two statements, or
  the last of those reports was that it came online (`Presence.SeenEndsOnline`);
  it is enough that no `MarkMissed` of that interface is in flight
  (`Presence.SeenUndisturbedEndsOnline`). One that ends earlier always does
  (`Presence.ReportedSeenEndsOnline`).
- `Wait` can return before the last scan has begun: `start` never looks at the
  context, so after cancellation a scan can follow a zero wait group, whether
  `start` is before its critical section or after it
  (`ScanShutdown.WaitCanReturnEarly`). None can follow exactly when the loop has
  nothing it may still let through, in hand or from the database
  (`ScanShutdown.WaitIsFinal`). While the database answers the loop's reads that
  means the loop has stopped (`ScanShutdown.WaitIsFinalWhenStopped`).
- Two sources without a rank can tie, and then the order of the hints shows
  (`AutofillResolve.TiesFollowOrder`); it never shows exactly when all unbeaten
  hints for a column or tag give one candidate (`AutofillResolve.OrderNeverShows`),
  as they always do for sources with a rank.
- A `?` or `$` directly followed by a digit outside a literal changes meaning, as
  `?5` does (`Rebind.DigitAfterPlaceholder`); nothing else does
  (`Rebind.ReboundMeansTheSame`).
- An event topic that is empty or holds a line break does not arrive as
  published; every other one does (`ServerSentEvents.FrameIsExact`).
- Backups are recognised by pruning exactly when the year has four digits
  (`BackupNames.NamesAreRecognised`).
- SQLite's LIKE ignores the case of ASCII letters, so there the event filter's
  prefixes select the texts that start with the prefix or with another casing of
  it, and no others (`LikeEscape.PrefixPattern` with `fold` true). `fold` stands
  for this everywhere in `LikeEscape` and `EventFilter`, and every result there
  holds with and without it.
- A sweep that does not see an interface counts a miss for each of its rows in
  the subnet whose probe could be run, not one miss (`SweepMisses.MissesCounted`),
  so an interface with two addresses there is missed twice
  (`SweepMisses.MissedTwice`). An interface is sure to be missed at most once by
  every sweep exactly when it has at most one row in the subnet
  (`SweepMisses.OneMissNeedsOneRow`).
- A prune removes a backup exactly when as many backups as are kept have greater
  names (`BackupNames.SparedExactly`). The newest is always spared
  (`BackupDisk.NewestBackupStays`), but after the clock was set back the backup
  just written need not be the newest, and the prune right after it can remove it
  (`BackupNames.ClockSetBack`).

## Model

| member | source | states |
|---|---|---|
| AutofillResolve.Resolve | internal/autofill/resolve.go:54-81 | the loop's result is, per column, the first maximal qualifying hint, and one candidate per tag value, in order of value; which that is, `AutofillWinners` says |
| AutofillResolve.BestIsFirstMaximal | internal/autofill/resolve.go:42-78 | the fold's winner is the first of the maximal hints, by rank then confidence then value, among those that reach the threshold; there is none exactly when no hint contends |
| AutofillResolve.RankedKeysAreTieFree | internal/autofill/resolve.go:34-52 | hints of ranked sources with distinct (source, field, value) keys leave no slot with two different unbeaten candidates |
| AutofillResolve.BestIgnoresOrder | internal/autofill/resolve.go:42-78 | hint lists with the same contenders for a slot, whose unbeaten ones give one candidate, have the same winner |
| AutofillResolve.OrderNeverShows | internal/autofill/resolve.go:42-78 | a slot's winner is the same for every permutation of the hints if and only if all unbeaten hints for the slot give one candidate |
| AutofillResolve.ResolveIgnoresOrder | internal/autofill/resolve.go:54-81 | both outputs are equal for any two orders of the hints if no slot is tied, as when sources are ranked and keys differ |
| AutofillResolve.TiesFollowOrder | internal/autofill/resolve.go:34-52 | two different sources without a rank that agree on value and confidence tie, and the winner is whichever comes first |
| AutofillWinners.ColumnWinner | internal/autofill/resolve.go:16-81 | a column has a winner exactly when a hint for it has a value and at least 50 confidence; it is one that no such hint beats, by confidence, then by how close its source looks (mdns, ssdp, ports, hostname, oui, any other), then by value |
| AutofillWinners.TagWinner | internal/autofill/resolve.go:16-81 | the same for each tag name, with the candidates in ascending order of name |
| AutofillDecide.RecordsByField | internal/autofill/resolve.go:117-123 | the loop builds the map that looks every record up by its field |
| AutofillDecide.Decide | internal/autofill/resolve.go:127-170 | the three loops produce the decision: writes, tags and handovers, in order; what they come to, `AutofillOutcome.PassSetsColumn` and `PassSetsTags` say |
| AutofillDecide.DecisionMembers | internal/autofill/resolve.go:127-170 | exactly which writes, tags and handovers a decision holds, in terms of the records, the device and the candidates |
| AutofillDecide.Explain | internal/autofill/resolve.go:188-230 | one status per hint, for whatever fields the hints resolve to |
| AutofillDecide.ExplainAgreesOnWrites | internal/autofill/resolve.go:125-230 | when a column is written, exactly the winning hint shows as kept among the column's hints, and as applied once the write has landed |
| AutofillDecide.ExplainAgreesOnOwnership | internal/autofill/resolve.go:125-230 | a hint shows as owned exactly when its field is owned on record or handed over by this decision |
| AutofillOutcome.StatusesMean | internal/autofill/resolve.go:188-230 | each status told from records, device and hints: owned if a person changed or removed what was recorded, low below 50, applied if shown on the device, outranked if blank or beaten by a hint that counts |
| AutofillStore.TagMeantIs | internal/store/meta.go:268-298 | a name means the tag spelled exactly so, else the oldest equal but for case; one is created only when no tag is equal but for case |
| AutofillStore.Tables.ApplyWrites | internal/store/autofill.go:152-169 | each write lands only if the column still holds the expected value, and only an unreviewed device when asked; landing sets column and record; the landed writes are returned |
| AutofillStore.Tables.ApplyTags | internal/store/autofill.go:170-186 | each tag is found ignoring case or created, attached and recorded unless the device has it; the attached ones are returned |
| AutofillStore.Tables.ApplyAutofill | internal/store/autofill.go:135-193 | the transaction's whole effect on columns, records, tags and tag table, and what it returns |
| AutofillStore.Tables.ReplaceHints | internal/store/autofill.go:77-92 | makes the rows the source's complete set, or rolls back when two have the same field and value |
| AutofillSources.Dedupe | internal/autofill/sources.go:156-171 | the indexed loop computes the deduplicated list |
| AutofillSources.DedupedFits | internal/autofill/sources.go:156-171 | the result has one hint per field and value, only given hints, and for every given hint one at least as confident |
| AutofillSources.DedupedKeepsFirstSurest | internal/autofill/sources.go:156-171 | of hints with the same field and value the first of the surest is kept |
| AutofillSources.HostnameHints | internal/autofill/sources.go:94-112 | the loops give every rule's hints for every name's first label, with the detail naming the source, deduplicated |
| AutofillSources.AllNameHintsAre | internal/autofill/sources.go:94-112 | those hints are exactly what the rules give for the part before the first dot, in lower case, of each name that is neither empty nor made up |
| AutofillSources.LocalHintsKept | internal/autofill/sources.go:27-171 | local sources never name a device, and spell tags only as their tables do |
| AutofillRuns.DecisionFits | internal/autofill/resolve.go:127-170 | a decision writes a column at most once and only over no record or an applied record of the value expected, and adds only tags without a record |
| AutofillRuns.LandedIsLegal | internal/store/autofill.go:135-193 | a write that lands does so over no record or an applied record of the replaced value, on a reviewed device only over nothing a person would miss, and leaves that record applied |
| AutofillRuns.UnlandedIsUntouched | internal/store/autofill.go:135-193 | a column without a landed write keeps its value, and its record unless it is handed over |
| AutofillRuns.RecordsKept | internal/store/autofill.go:135-202 | records are never dropped, owned ones keep value, source and state, and a transaction never touches the review flag |
| AutofillSafety.OnlyLegalChanges | internal/store/autofill.go:135-193 | under every interleaving with people, autofill changes a column only where it has no record or an applied record equal to the value replaced, and on a reviewed device only one that holds nothing |
| AutofillSafety.ReviewedIsFinal | internal/autofill/resolve.go:106-152 | once a device is reviewed, no step of autofill changes its name or a column that holds something |
| AutofillSafety.OwnedForever | internal/autofill/resolve.go:130-169 | an owned record keeps value, source and state over any run, and autofill never again writes that column or attaches that tag |
| AutofillSafety.PersonValueStays | internal/autofill/resolve.go:136-139 | while a column's value differs from its record, no pass, whenever it read the device, changes the column or the recorded value |
| AutofillSafety.TagAttachedAtMostOnce | internal/autofill/resolve.go:163-168 | no run logs two attachments of one tag name, whatever people remove in between |
| AutofillTags.PassAttaches | internal/store/autofill.go:170-186 | a pass puts a tag the device lacks on it if and only if some candidate is wanted and its name means that tag when the pass is applied |
| AutofillTags.TagGainedAtMostOnce | internal/store/autofill.go:170-186 | over any run whose hints and tag table spell each tag one way, no tag is put on the device by two passes |
| AutofillTags.OtherSpellingAttachesAgain | internal/store/meta.go:280-298 | for any two names equal but for case, a run from hints in which a pass attaches a tag, a person removes it, and a later pass attaches the same tag again |
| AutofillPass.HintsEqual | internal/autofill/service.go:247-268 | the tally says whether the lists have equal content as multisets |
| AutofillPass.RefreshedSettles | internal/autofill/service.go:180-207 | after a refresh the source's stored hints have exactly the recomputed content, whether or not it was written |
| AutofillPass.HintsAfterHolds | internal/autofill/service.go:180-212 | a pass's refresh settles the three local sources and leaves all others, keeping keys unique |
| AutofillPass.Service.Refresh | internal/autofill/service.go:187-206 | the branch that skips the write and the one that replaces both end in the refreshed table and use exactly the source's hints |
| AutofillPass.Service.RefreshAll | internal/autofill/service.go:169-212 | the hints resolved from are exactly the refreshed table's, in some order |
| AutofillPass.Service.RunOne | internal/autofill/service.go:139-242 | a pass without interference is read, refresh, resolve, decide and apply |
| AutofillPass.RefreshedStamps | internal/autofill/service.go:187-206 | content that changed carries the time of this pass, content that did not keeps the rows it had |
| AutofillOutcome.PassRecomputesHints | internal/autofill/service.go:169-212 | after a pass the table holds of each local source what its inputs give, the hostname rules run over the device's name and all hostnames, and of every other source what it held; the pass resolves from exactly that table |
| AutofillOutcome.PassSetsColumn | internal/autofill/service.go:139-242 | a column gets its winner's value and record exactly if it is no person's and either is blank or carries a record on an unreviewed device; any other column keeps its value, and one a person changed ends owned |
| AutofillOutcome.PassShowsTheWinner | internal/autofill/resolve.go:16-152 | so a column that autofill may fill shows, after the pass, the value of a hint that no other hint beats |
| AutofillOutcome.PassSetsTags | internal/store/autofill.go:170-186 | the tags after a pass are those before and those meant by a name that a counting hint gives and that has neither record nor place on the device |
| AutofillOutcome.PassRecordsTags | internal/store/autofill.go:178-183 | a tag record that a pass adds is of such a name, applied, from the source of the winning hint |
| AutofillOutcome.PassHandsTagOver | internal/autofill/resolve.go:154-162 | a tag that has a record but is not on the device ends owned |
| AutofillConverge.PassHandsOver | internal/autofill/resolve.go:136-139 | a pass that finds another value than its applied record leaves it and marks the record owned |
| AutofillConverge.ColumnSettles | internal/autofill/resolve.go:130-152 | after a pass, a column whose winner stays the same is left alone by the next decision |
| AutofillConverge.TagsSettle | internal/autofill/resolve.go:154-169 | after a pass with exact spellings no tag is wanted and no applied tag record is missing its tag |
| AutofillConverge.NameSettles | internal/autofill/sources.go:94-112 | a second pass leaves the name alone although the hostname rules read it |
| AutofillConverge.SettledPass | internal/autofill/service.go:139-242 | a pass after one that left the name alone changes nothing |
| AutofillConverge.PassesConverge | internal/autofill/service.go:139-242 | when the sources' inputs stay the same, tags have one spelling and people leave the device alone, passes from the third on leave device, tags, hints and records as they are |
| AutofillSpellings.HandoverPass | internal/autofill/resolve.go:154-169 | whatever the spellings, after a pass that left the name alone the next one writes no column and attaches no tag; at most it hands records over |
| AutofillSpellings.PassesAlwaysConverge | internal/autofill/service.go:139-242 | when the sources' inputs stay the same and people leave the device alone, however tags are spelled, passes from the fourth on leave device, tags, hints and records as they are |
| RateLimiter.LimitBucket.Prune | internal/web/auth.go:117-128 | keeps, in order, exactly the failures after the cutoff |
| RateLimiter.Limiter.Reserve | internal/web/auth.go:74-97 | grants exactly when the pruned failures and pending attempts are below the limit, and leaves the table the specification says, sweep of a large table included |
| RateLimiter.Limiter.Done | internal/web/auth.go:101-115 | settles one pending attempt and records a failure at the time it is settled, without touching other keys |
| RateLimiterRuns.NoSpanExceedsLimit | internal/web/auth.go:55-128 | over any run with a clock that does not go back and each grant settled once, every half-open span of the window's length holds at most limit failures of a key |
| RateLimiterRuns.PendingIsInFlight | internal/web/auth.go:62-115 | pending always equals the granted attempts not yet settled, is at most the limit, and settling one finds its bucket |
| RateLimiterRuns.ReserveIsExact | internal/web/auth.go:74-97 | pruning and deletion forget nothing that counts: an attempt is granted exactly when the failures of the last window, of all ever made, and the attempts in flight are below the limit |
| RateLimiterRuns.FailuresAreCharged | internal/web/auth.go:101-115 | over any run the failures charged to a key are exactly its failed attempts, at the times they were settled |
| RateLimiterRuns.SweepLeavesNoStale | internal/web/auth.go:78-86 | with more than 1024 buckets, a reserve leaves besides its own only those with a failure in the window or an attempt in flight |
| RateLimiterSpans.ClosedSpanHolds | internal/web/auth.go:117-128 | over any run, a span counted with both ends holds at most twice the limit, and more than the limit only with failures exactly at both ends |
| RateLimiterSpans.ClosedSpanReachesTwice | internal/web/auth.go:74-128 | for every positive limit and window, a run whose closed span holds twice the limit |
| RateLimiterSpans.ClosedSpansHoldOnlyAtZero | internal/web/auth.go:74-128 | for a positive window, no run exceeds the limit in any closed span if and only if the limit is 0 |
| LoginAttempts.LoginsStayWithinLimits | internal/web/auth.go:357-425 | however sign-in requests interleave, no address fails more than 5 times in a minute and no account more than 10 times in 15 minutes |
| LoginAttempts.NothingLeaks | internal/web/auth.go:362-379 | each key's pending count is the number of requests holding it, so zero when none is running |
| LoginHistory.WrongPasswordsAreCharged | internal/web/auth.go:357-425 | however requests interleave, the failures an address and an account have on record are exactly the failed sign-ins that the requests' own steps tell of, each once |
| LoginHistory.AddressIsLetIn | internal/web/auth.go:362-368 | a request passes its address's limiter exactly when fewer than 5 failed sign-ins of the last 60 seconds and requests in flight are the address's |
| LoginHistory.AccountIsLetIn | internal/web/auth.go:369-379 | its password is checked exactly when fewer than 10 failed sign-ins of the last 15 minutes and requests in flight are the account's |
| Presence.StatusTable.MarkSeen | internal/store/status.go:19-44 | run alone, the three statements put the interface online with no misses and report it exactly when it was not online |
| Presence.StatusTable.MarkMissed | internal/store/status.go:51-66 | run alone, counts a miss for a known interface and takes it offline, with a report, exactly when it was online and the threshold is reached |
| Presence.ReportsAlternate | internal/store/status.go:11-66 | over every interleaving of single statements the reports alternate starting with online, and online minus offline reports is 1 exactly when the row is online |
| Presence.OfflineIsEarned | internal/store/status.go:46-66 | no interleaving loses a miss, and each offline report has its threshold of misses since the last sighting |
| Presence.SeenEndsOnline | internal/store/status.go:31-43 | over every interleaving, a sighting of an online interface leaves it online if and only if the reports between its second and third statement are none, or end with it coming online |
| Presence.SeenUndisturbedEndsOnline | internal/store/status.go:31-43 | it does when no miss of that interface is in flight between the two statements |
| Presence.ReportedSeenEndsOnline | internal/store/status.go:21-40 | a sighting that ends with its first or second statement leaves the interface online |
| Presence.SeenYetOffline | internal/store/status.go:41-43 | an interleaving of a sighting and a miss that leaves the interface offline with no misses |
| Inventory.Store.ClaimDHCPLease | internal/store/device.go:283-295 | the two deletes together leave what the specification says: neither the interface's other DHCP rows in the subnet nor others' for the address |
| Leases.ClaimedRows | internal/store/device.go:277-295 | after a claim the interface's DHCP rows in the subnet and the address's DHCP rows are the same ones, and every other row is still there |
| Inventory.Store.UpsertIPAssignmentFrom | internal/store/device.go:308-328 | inserts one labelled row, or sets the kind of one of the rows for the interface and address |
| Leases.UpsertedRows | internal/store/device.go:305-328 | an upsert loses no row, never turns a static row into DHCP, never relabels, and leaves the interface assigned, statically if asked |
| Sweep.Engine.ListSubnetIfaceIPs | internal/store/device.go:495-515 | every row of the subnet once, with its interface's MAC |
| Sweep.CreatedTurn | internal/scan/engine.go:205-251 | a newcomer gets its own interface, holding the answered address, and nobody else is touched |
| Sweep.Engine.Answer | internal/scan/engine.go:131-157 | one answering address: credited by address unless ARP contradicts, else moved by MAC, else new |
| Sweep.Engine.RunSubnet | internal/scan/engine.go:109-175 | the loops over the answers and over the snapshot, in any order of its rows; what they come to, `SweepOutcome` and `SweepNames` say |
| Sweep.MovedTurn | internal/scan/engine.go:143-152 | moving an interface by MAC leaves it holding just the new DHCP address and touches no other interface's rows |
| Sweep.KnownHolds | internal/scan/engine.go:136-141 | an interface credited by its snapshot row still holds that address and no other |
| Sweep.SweepKeepsInv | internal/scan/engine.go:119-158 | after any part of the answers those are credited and every other interface is as it was |
| Sweep.AnsweringMacsHold | internal/scan/engine.go:119-175 | with an ARP MAC for every answer, no MAC answering twice and identified interfaces, each answering MAC ends with one interface, holding the answered address and no other DHCP one in the subnet, and is not missed, for any order of the answers |
| SweepMisses.SweepSees | internal/scan/engine.go:119-158 | after the answers, the interfaces of the starting table that count as seen are exactly those whose MAC answered, also when it answered at several addresses |
| SweepMisses.MissesCounted | internal/scan/engine.go:160-169 | the exact number of misses of every interface: none if its MAC answered anywhere, else one for each of its rows in the subnet whose probe could be run, and then its rows are untouched |
| SweepMisses.MissedExactly | internal/scan/engine.go:160-169 | an interface is missed at all exactly when its MAC answered nowhere and the probe of one of its addresses in the subnet could be run |
| SweepMisses.OneMissNeedsOneRow | internal/store/status.go:46-50 | every sweep counts at most one miss for an interface if and only if it has at most one row in the subnet |
| SweepMisses.MissedTwice | internal/scan/engine.go:160-169 | a table and a sweep of it that counts two misses for one interface |
| SweepOutcome.KnownIsNotMissed | internal/scan/engine.go:131-169 | an answer at an address that one interface has, without an ARP entry or with one that agrees with its MAC but for case, saves that interface from a miss |
| SweepOutcome.SweptRows | internal/scan/engine.go:113-158 | every row a sweep adds is an unlabelled DHCP row at an address that answered, of an interface with the MAC seen there; every row it takes away is a DHCP row of an interface whose MAC answered elsewhere |
| SweepOutcome.SweptDevices | internal/scan/engine.go:205-251 | no device changes, and the new devices and the new interfaces come in pairs |
| SweepOutcome.MoverHolds | internal/scan/engine.go:143-152 | a known machine answering at an address it did not have keeps its static rows and those elsewhere, and has just the new DHCP row in the subnet |
| SweepOutcome.NewcomerHolds | internal/scan/engine.go:205-251 | a machine nobody knew, answering at one address, ends with one DHCP row there and no other |
| SweepOutcome.NewcomerMoves | internal/scan/engine.go:143-251 | over two sweeps, a newcomer that moved holds only its second address |
| SweepNames.KnownGetsName | internal/scan/engine.go:131-158 | over a sweep, a known machine keeps a hostname of its own and otherwise gets the first name resolved where its MAC answered |
| SweepNames.NewcomerGetsName | internal/scan/engine.go:205-251 | a newcomer's device is named after what the first answer of its MAC resolved to, or after the MAC, marked private or unknown; its hostname is the first name resolved for it |
| SweepNames.UnnamedNewcomers | internal/scan/engine.go:205-251 | each answer from an address with neither ARP entry nor row adds one device, one interface without a MAC and one row there, and a sweep adds no other interface without a MAC |
| Leases.SubnetFor | internal/leases/leases.go:150-165 | the first subnet containing the address, none if none does |
| Leases.AssignedRows | internal/leases/leases.go:132-147 | what assigning may drop, add, upgrade or keep: static rows and rows elsewhere always stay, and after a lease the address and the interface are matched |
| Leases.Syncer.UpsertByMAC | internal/leases/leases.go:92-130 | assigns to the MAC's interface and fills an empty hostname, or creates device and interface first |
| Leases.Syncer.ApplyReservations | internal/leases/leases.go:43-56 | reservations are assigned static in order, and the claimed pairs are exactly theirs |
| Leases.Syncer.ApplyLeases | internal/leases/leases.go:57-85 | leases are assigned DHCP in order, but only enrich the hostname where a reservation claimed the address |
| Leases.Syncer.Apply | internal/leases/leases.go:34-87 | a run over all entries, and the count it returns is the number of devices it added; what it comes to, `LeaseOutcome` says |
| Leases.LeasesMatch | internal/leases/leases.go:132-147 | at the end of a run no address a lease named has two DHCP holders, and no MAC a lease named has two DHCP addresses in the subnet |
| Leases.LastEntryHolds | internal/leases/leases.go:132-147 | an entry that no later lease displaces, by its MAC or its address, still has its assignment at the end |
| Leases.ReservationHolds | internal/leases/leases.go:43-56 | a reservation is held static by its MAC's interface at the end, whatever follows it |
| Leases.RunRespectsTables | internal/leases/leases.go:34-147 | static rows stay exactly as they are, rows keep id, place and label and only ever turn static, new rows carry the run's label, and MACs and non-empty hostnames stay |
| Leases.ReservedAddressIsLeft | internal/leases/leases.go:62-75 | a lease for an address reserved in the same run changes no row and no device |
| Leases.RunLearns | internal/leases/leases.go:92-130 | a run makes known exactly the MACs of the entries it assigned |
| LeaseOutcome.KnownHostname | internal/leases/leases.go:34-130 | at the end of a sync a known interface has its own hostname if it had one, else the first one an entry inside a subnet gives its MAC, entries for reserved addresses included, else what it had |
| LeaseOutcome.NewHostname | internal/leases/leases.go:92-130 | a MAC nobody knew gets device and interface from the first entry that assigns it an address, named by that entry or after source and MAC, and the first hostname given from there on |
| LeaseOutcome.ReservationsAreHeld | internal/leases/leases.go:43-56 | every reservation inside a subnet is held static by its MAC at the end |
| LeaseOutcome.LeasesAreHeld | internal/leases/leases.go:57-85 | the address and the MAC of a lease inside a subnet that is not reserved are matched at the end, and to each other unless a later lease has one of them without the other |
| LeaseOutcome.RowsAreEntries | internal/leases/leases.go:34-147 | every row a sync adds or turns static is an entry's: static for a reservation, DHCP for a lease of an address that is not reserved |
| LeaseOutcome.RowsGiveWay | internal/leases/leases.go:132-147 | a row that a sync takes away, rather than turn static, is a DHCP row that gave way to a lease of its MAC at another address there, or of its address to another MAC |
| MadeUpNames.PlaceholdersAre | internal/autofill/resolve.go:83-86 | a name is taken for made up exactly when it is one of five words, a dash and the text of an address |
| MadeUpNames.SweepNamesAreRecognised | internal/scan/engine.go:214-225 | the name a sweep makes up is one of those |
| MadeUpNames.LeaseNamesAreRecognised | internal/leases/leases.go:108-115 | so is the name a sync makes up, for all three sources |
| MadeUpNames.PrivateIsABit | internal/macaddr/macaddr.go:18-37 | a MAC is private exactly when its first octet has the bit of value 2 set and that of value 1 not, and it has neither virtualization prefix |
| DhcpPools.FindHome | internal/leases/pools.go:90-101 | the first of the most specific subnets that contain both ends |
| DhcpPools.ChooseRanges | internal/leases/pools.go:84-106 | for each subnet the first of the largest ranges that live in it, and none exactly when none does |
| DhcpPools.Subnets.SetDHCPPoolFrom | internal/store/subnet.go:108-121 | replaces a pool that is unowned or the integration's own, and reports whether it changed |
| DhcpPools.Subnets.ApplyPools | internal/leases/pools.go:79-118 | every subnet takes its largest range unless a person or another integration set its pool, and the count is of the pools that changed |
| DhcpPools.PoolsBecome | internal/leases/pools.go:79-118 | a pool that nobody or this source recorded becomes the range with the most addresses among those whose most specific subnet this is; without such a range, or recorded by anybody else, it stays |
| ScanScheduler.Scheduler.Trigger | internal/scan/scheduler.go:56-69 | undisturbed, accepts exactly a subnet that is neither waiting nor running while the queue has room, and queues it |
| ScanScheduler.Scheduler.TakeNext | internal/scan/scheduler.go:101-104 | takes the oldest request and its note |
| ScanScheduler.Scheduler.Admit | internal/scan/scheduler.go:147-160 | lets a scan through exactly when it should run and its subnet has none |
| ScanScheduler.Scheduler.Status | internal/scan/scheduler.go:87-92 | waiting and running mean what they say, between critical sections |
| ScanScheduler.NextKeepsQueue | internal/scan/scheduler.go:56-104 | every step keeps the queue's bookkeeping, also when the receive falls inside Trigger's critical section |
| ScanScheduler.NextKeepsRunning | internal/scan/scheduler.go:147-179 | every step keeps running equal to the live and launching scans, one per subnet |
| ScanScheduler.ScansNeverOverlap | internal/scan/scheduler.go:141-179 | no two scans of one subnet overlap in any interleaving, launches included, and running holds exactly those subnets |
| ScanScheduler.ScansAreBounded | internal/scan/scheduler.go:12-16 | at most four scans are inside run, those that have recorded their result included |
| ScanScheduler.QueueIsExact | internal/scan/scheduler.go:53-69 | the channel never holds an id twice, and between critical sections queued is the channel and the id in hand |
| ScanScheduler.RefusalHasACause | internal/scan/scheduler.go:53-69 | while fewer subnets wait than the queue has places, a request is refused only for a subnet waiting, launching or being scanned |
| ScanScheduler.ResultIsOnRecord | internal/scan/scheduler.go:164-210 | when a scan that ran leaves running, its own result is the one on record |
| ScanLaunches.StartLaunches | internal/scan/scheduler.go:132-160 | over any run, start launches a scan exactly when the subnet is not WireGuard's, is enabled or was asked for by hand, and nobody scans it |
| ScanLaunches.TickStarts | internal/scan/scheduler.go:108-124 | a tick passes on exactly the subnets that are enabled, not WireGuard's and due |
| ScanLaunches.ScansAreWanted | internal/scan/scheduler.go:94-163 | over any run, no scan of a WireGuard subnet is spawned, and of one not enabled only after a trigger for it |
| ScanLaunches.RequestsAreAccepted | internal/scan/scheduler.go:53-69 | with the mutex free, a request is accepted exactly when its subnet neither waits nor is scanned and fewer than 256 wait |
| ScanLaunches.QueueIsInOrder | internal/scan/scheduler.go:53-104 | over any run, what waits is what was accepted less what was taken, in order |
| ScanLaunches.StopsFollowCancel | internal/scan/scheduler.go:94-179 | the loop stops and a scan gives up its place only after cancellation |
| ScanShutdown.WaitMeansQuiet | internal/scan/scheduler.go:181-186 | at the moment the wait group is zero there is no scan, and nothing running exactly when start is not between its critical section and the count |
| ScanShutdown.WaitIsFinal | internal/scan/scheduler.go:94-186 | from any reachable state with a zero wait group, no continuation puts a scan inside run if and only if the loop has nothing in hand that start lets through and can read no more subnets |
| ScanShutdown.WaitIsFinalWhenStopped | internal/scan/scheduler.go:94-186 | a stopped loop is enough, and while the loop's database reads succeed it is also necessary |
| ScanShutdown.StoppedAndDoneIsQuiet | internal/scan/scheduler.go:181-186 | after the loop has stopped with a zero wait group no scan is ever under way again, and nothing is in running |
| ScanShutdown.WaitCanReturnEarly | internal/scan/scheduler.go:147-186 | a run that is cancelled with a zero wait group while start is before, then after, its critical section, from both of which a scan still goes inside run |
| LikeEscape.EscapedMatchesItself | internal/store/event.go:71-74 | an escaped text in a pattern matches itself and nothing else, whatever follows |
| LikeEscape.PrefixPattern | internal/store/event.go:88-99 | the escaped text and % match exactly the texts that start with it |
| LikeEscape.SubstringPattern | internal/store/event.go:100-103 | the escaped text between two % matches exactly the texts that contain it |
| EventFilter.AppendedBinds | internal/store/event.go:82-117 | appending a condition with its arguments leaves every earlier placeholder bound to its own argument |
| EventFilter.BuildQuery | internal/store/event.go:82-115 | the query built, with arguments bound by position, selects exactly the events the filter means |
| EventFilter.ListEventsFiltered | internal/store/event.go:76-131 | the page is the newest matching events up to the limit, and more says whether there are others |
| EventFilter.PagesAreFull | internal/store/event.go:76-131 | a page is the first matches in order, as many as were asked for, or 50 if nothing was, while that many match |
| EventFilter.NextPageContinues | internal/store/event.go:66-67 | reading on before the last event of a full page loses no match and shows none twice |
| ServerSentEvents.TwoReplacementsNormalize | internal/web/sse.go:92-93 | the two replacements turn CRLF and single CRs into LF |
| ServerSentEvents.FrameReadsBack | internal/web/sse.go:84-100 | read by the standard's parser at any point of a stream, a frame gives one event with the topic and the normalized data, for all data |
| ServerSentEvents.FrameIsExact | internal/web/sse.go:84-100 | a frame reads as exactly the event published if and only if the topic is a non-empty text on one line |
| ServerSentEvents.StreamReadsBack | internal/web/sse.go:41-71 | a connection of frames and keep-alive comments reads as exactly the events published |
| ServerSentEvents.WriteEvent | internal/web/sse.go:89-100 | what the writer writes reads back as the event |
| Rebind.ReboundMeansTheSame | internal/store/dialect.go:20-50 | the rewritten query has the same text and the same argument at every placeholder if and only if no digit directly follows a ? or $ outside literals |
| Rebind.DigitAfterPlaceholder | internal/store/dialect.go:41-44 | with a digit after its placeholder, the first argument becomes the fifteenth |
| Rebind.ReboundCanBeUndone | internal/store/dialect.go:20-50 | the original query can be got back from the rewritten one |
| Rebind.LiteralsAreKept | internal/store/dialect.go:23-26 | quoted literals, doubled quotes included, are unchanged for every query |
| Rebind.RebindQuery | internal/store/dialect.go:27-50 | the scan gives the rewriting for Postgres and the query itself for SQLite |
| Bits.OrOnesFills | internal/wol/targets.go:22-24 | OR with 2^h - 1 sets the lowest h bits |
| Bits.OrAppends | internal/wol/targets.go:23-24 | OR of bytes shifted apart is their sum |
| Bits.BytesFilledValue | internal/leases/pools.go:51-64 | setting bits byte by byte sets the lowest bits of the address |
| Addresses.Walk | internal/scan/sweep.go:87-92 | the walk terminates with the ascending run of all addresses from the masked base, also at the end of the family's range |
| Addresses.AllIPs | internal/scan/sweep.go:79-93 | the error cases, or the walk |
| Addresses.RangeIsThePrefix | internal/scan/sweep.go:71-93 | the walk lists exactly the addresses the prefix contains, strictly ascending |
| Addresses.AcceptedIsSmall | internal/scan/sweep.go:54-69 | an accepted prefix has at most 65536 addresses |
| Addresses.HostIPs | internal/scan/sweep.go:97-108 | the walk less its ends for IPv4 below /31 |
| Addresses.HostsAreInside | internal/scan/sweep.go:95-108 | the hosts are exactly the contained addresses that are not the network or broadcast address |
| Addresses.FillBytes | internal/leases/pools.go:52-61 | the loop sets, in place, all but the prefix's bits of every byte |
| Addresses.LastAddr | internal/leases/pools.go:51-64 | the prefix's highest address, for both families and also for an unmasked prefix |
| Addresses.WalkEndsAtLast | internal/leases/pools.go:50-64 | the walk's last element is the byte-wise last address |
| Addresses.HostMaskIsOnes | internal/wol/targets.go:22 | the 32-bit mask is right at /0 too, where the shift gives 0 and the subtraction wraps |
| Addresses.DirectedBroadcast | internal/wol/targets.go:17-26 | exists exactly for IPv4 prefixes up to /30, and is the same last address |
| Grid.GridCells | internal/web/grid.go:34-71 | the state and kind of every address's cell |
| Grid.CellsTell | internal/web/grid.go:34-71 | each state told from the address's place, the number of holders, whether it was ever seen and is online, and the pool |
| Grid.GridStats | internal/web/grid.go:128-153 | the counters are the number of cells in each state and of each kind |
| Grid.CountersTell | internal/web/grid.go:128-153 | each counter is the size of the set of cells in its state or of its kind |
| Grid.CountsAddUp | internal/web/grid.go:128-153 | the state counts and the edges add up to the grid |
| Grid.NextFree | internal/web/grid.go:157-164 | the first free cell's address, none exactly when none is free |
| Grid.FreeRanges | internal/web/grid.go:168-182 | the runs of free cells that cannot be extended, all of them and in order; their sizes add up to the free count |
| Grid.RangesStartAtNextFree | internal/web/grid.go:155-182 | the first range starts at the next free address, and there is none exactly when there is no free address |
| Grid.FreeSummary | internal/web/dashboard.go:61-76 | next, free and pool of the hosts as cells |
| Grid.SummaryAgreesWithGrid | internal/web/dashboard.go:58-76 | for every subnet, pool and occupancy the summary over the hosts has the grid's next address, free count and pool count |
| BackupNames.NamesAreRecognised | internal/backup/backup.go:23-29 | a backup's name matches the pattern exactly when the year has four digits |
| BackupNames.TempIsNoBackup | internal/backup/backup.go:208 | a temporary name never matches the pattern |
| BackupNames.NamesSortByTime | internal/backup/backup.go:23-25 | name order is time order |
| BackupNames.List | internal/backup/backup.go:249-262 | exactly the regular files with a backup name, ascending |
| BackupNames.Directory.Prune | internal/backup/backup.go:265-278 | removes exactly the oldest backups beyond the newest keep, less those that cannot be removed, and reports whether all could |
| BackupNames.PruneKeepsTheNewest | internal/backup/backup.go:264-278 | with successful removals the backups left are exactly the newest min(n, keep) and nothing else has gone |
| BackupNames.RemovedAreOlder | internal/backup/backup.go:264-278 | every backup removed is older than every one kept |
| BackupNames.SparedExactly | internal/backup/backup.go:264-278 | a prune that can remove files removes a backup if and only if at least as many backups as are kept have greater names |
| BackupNames.ClockSetBack | internal/backup/backup.go:171-185 | with one backup kept, a new backup named earlier than one already there is removed by the prune right after it |
| BackupDisk.NextKeepsInv | internal/backup/backup.go:200-234 | every step, failure or crash keeps each backup name, on disk or pending, on a complete and synced file |
| BackupDisk.BackupsAreComplete | internal/backup/backup.go:200-234 | at every point of every run, and after a crash there, each file under a backup's name is a complete snapshot |
| BackupDisk.WriteIsPossible | internal/backup/backup.go:200-234 | from any state without a write under way, the write's steps can all succeed, and then the name leads to the snapshot |
| BackupDisk.WriteMakesBackup | internal/backup/backup.go:200-234 | a write that meets no error leaves the name leading to the snapshot on disk, no temporary file, and a prune due |
| BackupDisk.SyncedBackupSurvives | internal/backup/backup.go:200-278 | once the directory is synced, the name leads to the snapshot taken at every later point of the run and after a crash there, earlier crashes, pruning and other backups included, until that name is pruned or written again |
| BackupDisk.ListingDecides | internal/backup/backup.go:264-278 | a listing puts a backup up for removal if and only if no fewer backups than are kept are newer |
| BackupDisk.BackupOutlivesPrunes | internal/backup/backup.go:171-278 | through whole runs with prunes and crashes a finished backup stays, as long as each listing has fewer newer ones than are kept and the name is not written again |
| BackupDisk.NewestBackupStays | internal/backup/backup.go:171-278 | in particular while its name is the greatest listed and at least one backup is kept, so in the prune right after the write |
| BackupDisk.PruneLeavesNewest | internal/backup/backup.go:264-278 | a prune whose removals all succeed leaves the newest backups listed, as many as are kept, and everything that is no backup |

## Left out

- Conditions used as hypotheses: MACs unique and canonical, ids unique, hint keys unique per source. They are enforced by constraints and by normalising callers outside the modelled files.
- Driver errors, rollback on error and context cancellation inside a call, except where a step system has a step for them (autofill, scheduler, backup).
- Device, interface and tag deletion while a pass or sweep runs; tag renames and merges.
- Approvals being withdrawn (`SetDeviceReviewed` with false): people only approve in the modelled runs.
- Hints with a field name that is neither a column nor a tag, notes and other device columns, audit entries.
- The rule tables, the OUI registry and the port table: parameters of the local sources, with the fact that they name no device as a hypothesis.
- Case folding beyond ASCII letters.
- The order of `ListHints`, of map iteration and of unordered query results: taken as any order.
- Sorting (`sort.Strings`, `sort.Slice`) and regular expressions of the Go library: modelled by what they compute.
- Name resolution, ping round trips, availability history, the conflict tracker and events of a sweep: its probe results, ARP table and names are arbitrary inputs, and `presence` confirmations are part of the results.
- Sweeps running at the same time: `Sweep` is one sweep with the table to itself; concurrent sightings of one interface are in `Presence`.
- Two syncs running at the same time.
- ParseRange: text parsing; a parsed range is an input of `DhcpPools`, and its CIDR form ends at the address `Addresses.LastAddr` gives.
- Parsing and printing of addresses, prefixes and CIDRs: addresses are numbers of their family, and containment of texts is a parameter of `Leases`.
- Timers, the schedule's arithmetic (`lastRun`, `interval`) and status times: whether a subnet is due is an arbitrary input.
- Whether the database answers a read whose context is cancelled: `ScanScheduler.Init` takes it as a parameter, and results hold for both.
- Liveness of the scheduler: that a queued scan eventually runs depends on the Go runtime.
- Backup scheduling, its once-per-outage event and the status page: easy state machines.
- Backups taken by hand or files put into the directory by others; `Start`'s reading of the newest name.
- Comments and dollar quoting in SQL text: the store's own queries have neither.
- The byte order mark and the id and retry fields of event streams, which the server never sends.
- Password checking, sessions, and who calls the limiters besides the sign-in handler.
- The text and title of grid cells, and the last-seen time they show.

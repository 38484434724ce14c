# Verified models of the gateway's stateful core

This project models, in Dafny, the parts of the gateway where correctness is a property of whole runs or whole
lists rather than of one line: the host watchdog's alert protocol, the multi-key channel store, upstream model
reconciliation, ratio comparison and price selection, the duplicate-member JSON scan, the sliding-window rate
limiter, the verification-code store, request body storage, the Ogg page scan, the LIKE filter, embedding
responses and the quotation tool. Check it with `dafny verify dfyconfig.toml`.

Code that changes things step by step is modelled as classes and methods with loops, each proved against a
specification function or a direct description; what the source promises is then proved about those. A module
whose name ends in `Safety`, `Runs`, `Laws`, `Cells` or `Meaning` holds the statements about the module it is named
after. Where such a statement ends in `Exactly`, it says what one operation does for every input with literal values
only, so that the theorems over runs do not rest on the specification functions alone.

| module | what it models |
|---|---|
| `Basics` | an option type and small helpers |
| `Text` | white-space trimming and cleaning of lists of lines |
| `Watchdog`, `WatchdogSafety`, `WatchdogLaws` | `run_once` with a possible crash between any two visible effects; safety over every sequence of timer ticks; each case of a run in full |
| `MultiKey`, `MultiKeyRuns`, `MultiKeyLaws` | keys with three sparse index maps, refined to a list of records; what actions do to each record, and runs of actions |
| `Upstream`, `UpstreamLaws` | ordered name lists, detection, application, auto-sync and the paginated sweep; partition and convergence |
| `RatioSync`, `RatioSyncMeaning`, `RatioSyncCells` | the build and the two pruning passes of `buildDifferences`; what the table tells its reader, row by row and cell by cell |
| `ModelsDev`, `ModelsDevLaws` | the per-model choice among providers with an approximate, non-transitive equality |
| `JsonScan`, `JsonScanLaws` | the recursive scan in both modes; completeness, soundness and agreement of the modes |
| `RateLimiter` | the limiter with background sweeps |
| `Verification` | the code store with its lazy purge |
| `BodyStorage`, `BodyStorageLaws` | memory and disk storage behind one interface, and the usage counters; what each operation delivers |
| `OggScan` | the page scan of `getOpusDuration` |
| `LikeFilter` | LIKE matching with an escape, and the keyword filter |
| `Embedding` | validation of embedding responses and counting of inputs |
| `Quote` | reading a quotation's tiers, rounding cost and sale prices, choosing the pricing rows |

## What the proofs brought to light

The first seven are places where the code does not always do what its name or documentation suggests. The code is
modelled as it is, and a theorem says exactly when the promise holds.

- `delete_disabled_keys` on a channel whose keys are all automatically disabled deletes nothing and enables every
  key, while it reports them as deleted: the empty key list is a zero field for the struct update and is not
  written (server/model/channel.go:568-625). `MultiKeyRuns.DeleteDisabledMeaning` states the exact condition,
  `DeleteDisabledCanEnable` the smallest such channel.
- Detecting, applying everything and detecting again finds nothing exactly when the ignore list survives the
  application. It always does unless an upstream model is named like an ignore entry that starts with `regex:`;
  applying that model strikes the entry (`UpstreamLaws.SyncConverges`, `SyncCanMiss`). Repeating
  settles any upstream list after at most as many rounds as it has names (`RoundsSettle`).
- `buildDifferences` marks agreement with the text `same`, so an upstream value that is itself the text `same` is
  reported as agreement (`RatioSyncMeaning.CellIsTruthful`, `SameIsLost`). `RowSurvives` says for all values which
  rows remain.
- A limit of zero still lets one request through per window, and a sweep can let through more than the limit. The
  limit is kept in every run exactly when it is at least one and the window is at most a second longer than the
  expiry, if there is a window at all (`RateLimiter.LimitIsKeptExactly`); sweeps are invisible for such windows
  (`SweepsAreUnnoticed`).
- Memory and disk storage differ in one situation: a read of zero bytes at or past the end
  (`BodyStorage.KindsDifferOnlyOnEmptyReads`).
- The disk budget is checked against the announced length of a body. The files in use stay within it over every run
  in which no body is longer than announced (`BodyStorage.BudgetHolds`), and a reception keeps to it whatever else
  is open exactly when that is so (`BudgetIsKeptExactly`).
- `nearlyEqual` is not transitive, and of two sorted providers less than 1e-9 apart the dearer one is kept when it
  comes first (`ModelsDevLaws.DearerIsKept`). The documented policy, the cheapest non-zero price, is met under
  every naming of the providers exactly when no price lies strictly between the cheapest and 1e-9 above it
  (`CheapestExactly`); the choice is never further away than that (`CheapestNonZero`).
- The spacing of watchdog sends needs no assumption on the clock, and their timeliness only that timer runs come
  at most a period apart.
- A quotation is never sold below cost exactly when the cost share is at most one; the two shares the tool uses
  are (`Quote.SaleCoversCost`).

## Assumptions

- Watchdog: the file lock admits one run at a time and `write_state` is atomic. Generated incident ids are fresh
  (`FreshIds`). Whether a recipient can be reached is determined by its destination id (`Settled`): that id is the
  SHA-256 of the recipient, so this is collision freedom plus a fixed validity check. Ids and digests have their
  lower-case hexadecimal shape, and the clock stays an hour inside the integer limit, where readability is stated.
- The limiter's expiry is in whole seconds, so a zero stands for a positive duration below one; without a duration
  nothing sweeps (server/common/rate-limit.go:14-26).
- Clocks do not run backwards where a predicate named `Clocked` says so; the watchdog needs no such assumption.
- The sweep sees one set of enabled channels, with positive ids in increasing order.
- Verification purposes have one letter, as both constants do (server/common/verification.go:17-18).

## Model

| member | source | states |
|---|---|---|
| `Watchdog.Host.WriteState` | deploy/health/ztapi-health-watchdog.py:420-434 | a write replaces the whole record, and is the only thing that changes the disk |
| `Watchdog.Host.Notify` | deploy/health/ztapi-health-watchdog.py:489-511 | intent, send, outcome in this order; a crash after one or two of them leaves the intent on disk |
| `Watchdog.Host.RunOnce` | deploy/health/ztapi-health-watchdog.py:442-521 | one run, cut by a crash after any number of effects, adds to disk and log exactly the cut of the protocol's effects; a configuration error, a busy lock or an unreadable file has none; which effects these are, `WatchdogLaws` says case by case |
| `WatchdogSafety.EventLegal` | deploy/health/ztapi-health-watchdog.py:459-511 | over every history, each write opens an incident where none is owed, clears a settled one, or keeps id, first sighting and condition; each send matches a durable intent |
| `WatchdogSafety.IncidentRetained` | deploy/health/ztapi-health-watchdog.py:459-474 | a persisted incident keeps id, first sighting and condition until its acceptance has been written, whatever is observed meanwhile and wherever runs die |
| `WatchdogSafety.SendFollowsIntent` | deploy/health/ztapi-health-watchdog.py:489-508 | every send directly follows a durable record of the same incident, destination, time and attempt with delivery `sending` |
| `WatchdogSafety.NoResendAfterAcceptance` | deploy/health/ztapi-health-watchdog.py:470-484 | two sends of one incident to one destination with a persisted acceptance between them imply a write in between that pointed the incident elsewhere |
| `WatchdogSafety.SendsAreSpaced` | deploy/health/ztapi-health-watchdog.py:485-490 | without a redirection in between, sends of an incident are at least the earlier attempt's delay apart, across crashes and for any clock, and attempt numbers grow up to the cap |
| `WatchdogSafety.DelayGrows` | deploy/health/ztapi-health-watchdog.py:489-490 | the delay starts at 60 seconds, never shrinks with the attempt number, and stays at 3600 from the seventh on |
| `WatchdogSafety.NewIdUnseen` | deploy/health/ztapi-health-watchdog.py:466-469 | an id that a write introduces was never on disk before |
| `WatchdogSafety.IdsKnown` | deploy/health/ztapi-health-watchdog.py:394-417 | an id on disk is empty, was there at the start or was generated by some tick |
| `WatchdogSafety.HistoryIsProper` | deploy/health/ztapi-health-watchdog.py:442-521 | every history is a trace of legal effects with never-reused ids, which is all the theorems above rest on |
| `WatchdogSafety.DiskStaysReadable` | deploy/health/ztapi-health-watchdog.py:400-417 | from a readable disk every record of every history passes `read_state`, and one with condition ok is the empty record up to the time last seen |
| `WatchdogSafety.WaitIsBounded` | deploy/health/ztapi-health-watchdog.py:470-490 | on every disk of every history the record waits for nothing, or as on the first disk, or until the delay after an earlier written intent for the same incident, destination and attempt |
| `WatchdogSafety.DueIncidentIsSent` | deploy/health/ztapi-health-watchdog.py:470-511 | an uncut run with a reachable recipient sends an owed incident iff its wait is over (or the destination is new), counts the attempt, and leaves it owed iff the send is not accepted; otherwise it writes once and leaves incident and wait alone |
| `WatchdogSafety.OwedIncidentIsSent` | deploy/health/ztapi-health-watchdog.py:485-511 | however the host got here, such a run sends the owed incident once the delay of every intent written for it at this destination is over |
| `WatchdogSafety.RetryIsTimely` | deploy/health/ztapi-health-watchdog.py:485-511 | over every history: after an unaccepted intent, whether or not its run survived to send, with diligent runs and ticks without effect in any mixture, the next send is the first such run at or after the attempt's delay, makes the next attempt, and comes at most the delay plus its distance from the last tick with an effect later |
| `WatchdogLaws.NewFaultIsSent` | deploy/health/ztapi-health-watchdog.py:465-511 | on a readable record that owes nothing, a condition that is neither ok nor the recorded one has exactly three effects: a record with it, the fresh id and first sighting now, the send of attempt 1, and the outcome |
| `WatchdogLaws.HealthClears` | deploy/health/ztapi-health-watchdog.py:459-464 | a healthy host that owes nothing writes the empty record, once, whatever it held |
| `WatchdogLaws.ReportedIsQuiet` | deploy/health/ztapi-health-watchdog.py:481-484 | a reported fault that persists is not sent again |
| `WatchdogLaws.NewRecipientIsTold` | deploy/health/ztapi-health-watchdog.py:470-480 | a fault on record is sent to a new destination as attempt 1 under the same id, reported before or not |
| `WatchdogLaws.OwedIsRetried` | deploy/health/ztapi-health-watchdog.py:485-511 | an owed incident whose wait is over is sent as the next attempt, whatever is observed |
| `WatchdogLaws.OwedWaits` | deploy/health/ztapi-health-watchdog.py:485-488 | before that only the time last seen moves |
| `WatchdogLaws.UnreachableIsRecorded` | deploy/health/ztapi-health-watchdog.py:476-480 | without a reachable recipient nothing is sent and the incident, old or new, is on record as undelivered |
| `WatchdogLaws.NothingHappens` | deploy/health/ztapi-health-watchdog.py:442-458 | a broken configuration, a busy lock and an unreadable file have no effect; a missing file reads as the empty record |
| `WatchdogLaws.DyingCuts` | deploy/health/ztapi-health-watchdog.py:442-521 | a run that dies early leaves a prefix of the effects of the run that does not |
| `WatchdogLaws.RecurrenceIsSent` | deploy/health/ztapi-health-watchdog.py:459-511 | from any readable disk: a new fault, its accepted send, a healthy run and any fault, the same one included, lead to a second send under the new id |
| `WatchdogLaws.FaultIsSentAfterHistory` | deploy/health/ztapi-health-watchdog.py:465-511 | after every history that ends owing nothing, a diligent run sends a fault that is not the recorded one, under an id that was never on disk |
| `WatchdogLaws.DelayTable` | deploy/health/ztapi-health-watchdog.py:489-490 | 60, 120, 240, 480, 960, 1920 and then 3600 seconds |
| `WatchdogLaws.AcceptanceExactly` | deploy/health/ztapi-health-watchdog.py:505-511 | a webhook accepts with a status from 200 to 299, Telegram with a positive message number |
| `WatchdogLaws.DestinationExactly` | deploy/health/ztapi-health-watchdog.py:470-480 | the digest of the webhook, or of token and chat joined behind a tag by NULs |
| `WatchdogLaws.RecipientsDiffer` | deploy/health/ztapi-health-watchdog.py:470-474 | that joining confuses no two recipients without a NUL in token or URL |
| `WatchdogLaws.ReadableExactly` | deploy/health/ztapi-health-watchdog.py:400-417 | the numbers, lengths and hexadecimal digits a record must have to be read |
| `MultiKey.Channel.Update` | server/model/channel.go:568-625 | an empty key list leaves the stored keys; the size follows the keys; statuses beyond it are dropped; a failed save changes nothing |
| `MultiKey.Channel.DisableOne` | server/controller/channel.go:1993-2034 | disabling one key is one record's status change; a bad index is refused and changes nothing; which record and how, `MultiKeyLaws.DisableKeyMeaning` says |
| `MultiKey.Channel.EnableOne` | server/controller/channel.go:2036-2076 | enabling one key clears its status, time and reason only |
| `MultiKey.Channel.EnableAll` | server/controller/channel.go:2078-2100 | every record becomes plain; repairs an inconsistent store |
| `MultiKey.Channel.DisableEnabled` | server/controller/channel.go:2114-2126 | the loop gives every enabled index below the size the manual status, changes no other, and counts them |
| `MultiKey.Channel.DisableAll` | server/controller/channel.go:2102-2147 | exactly the enabled records become manually disabled; refused iff there is none; the count is their number |
| `MultiKey.Channel.RebuildWithout` | server/controller/channel.go:2167-2199 | rebuilding keys and the three maps with a running index yields the records without one position |
| `MultiKey.Channel.DeleteOne` | server/controller/channel.go:2149-2227 | deleting by index is removing that record; refused iff the index is out of range or it is the last key; the result is consistent whatever the maps held |
| `MultiKey.Channel.RebuildSurvivors` | server/controller/channel.go:2230-2267 | rebuilding keys and maps yields the records that are not automatically disabled, and counts the others |
| `MultiKey.Channel.DeleteDisabled` | server/controller/channel.go:2229-2296 | the saved list for any store, consistent or not; refused iff nothing is automatically disabled; reports their number |
| `MultiKey.Channel.Append` | server/controller/channel.go:1437-1515 | existing records stay; each key of the request that is new is added once as a plain record |
| `MultiKey.Channel.Manage` | server/controller/channel.go:1850-2305 | every action keeps the store consistent, refines one operation on the list of records and answers as that list determines; a refused or failed one changes nothing; what each operation does to each record, `MultiKeyLaws` says |
| `MultiKey.Channel.GetKeyStatus` | server/controller/channel.go:1890-1991 | the page returned is the requested slice of the filtered statuses; the three counts are over all keys |
| `MultiKey.PagesCover` | server/controller/channel.go:1955-1975 | walking pages 1 to the last shows every entry once, in order |
| `MultiKey.PageIsFilled` | server/controller/channel.go:1955-1975 | no page of a non-empty list is empty or too long |
| `MultiKeyLaws.RecordsMeaning` | server/controller/channel.go:1890-1991 | record i is key i with what the three maps hold at i; without a status it is enabled |
| `MultiKeyLaws.DisableKeyMeaning` | server/controller/channel.go:1993-2034 | disabling key k gives it status 2, keeps its key, time and reason, and leaves every other record as it was |
| `MultiKeyLaws.EnableKeyMeaning` | server/controller/channel.go:2036-2076 | enabling key k removes its status, time and reason, and leaves every other record as it was |
| `MultiKeyLaws.BadIndexMeaning` | server/controller/channel.go:1993-2227 | a missing index or one outside the list is refused and changes nothing |
| `MultiKeyLaws.EnableAllMeaning` | server/controller/channel.go:2078-2100 | every key stays, in place, without status, time or reason |
| `MultiKeyLaws.DisableAllMeaning` | server/controller/channel.go:2102-2147 | the enabled records get status 2, the others stay as they are, all in place |
| `MultiKeyLaws.SurvivorsExactly` | server/controller/channel.go:2230-2267 | a record survives iff its status is not 3, an enabled one bare and any other as it is |
| `MultiKeyLaws.CountExactly` | server/controller/channel.go:1905-1950 | a count of a status is the number of positions with it |
| `MultiKeyLaws.ReplyExactly` | server/controller/channel.go:1993-2296 | what each action reports and when it is refused, in numbers of positions by status |
| `MultiKeyLaws.StatusesMeaning` | server/controller/channel.go:1905-1950 | entry i shows position i, its status, and its time unless it is enabled |
| `MultiKeyLaws.FilterExactly` | server/controller/channel.go:1938-1955 | the status filter keeps exactly the entries of that status, in order; without one all remain |
| `MultiKeyRuns.SurvivorsKeepStatus` | server/controller/channel.go:2230-2267 | what remains is the caller's filter on (key, effective status), in order |
| `MultiKeyRuns.DeleteDisabledMeaning` | server/controller/channel.go:2229-2296 | the action equals that filter iff the list is empty or some key is not automatically disabled; otherwise it resets every record |
| `MultiKeyRuns.DeleteDisabledCanEnable` | server/model/channel.go:568-625 | a channel on which the action enables the key it was to delete |
| `MultiKeyRuns.DeleteKeyMeaning` | server/controller/channel.go:2149-2227 | the other keys keep order, effective status, time and reason |
| `MultiKeyRuns.RunNeverEmpties` | server/controller/channel.go:1993-2296 | no sequence of actions deletes the last key |
| `MultiKeyRuns.LostKeyWasDeleted` | server/controller/channel.go:1993-2296 | a key a run lost was at some moment the target of a delete |
| `MultiKeyRuns.NoSilentEnable` | server/controller/channel.go:1993-2296 | a key enabled after a run was enabled before, unless some action of the run enables or deletes all that is left |
| `MultiKeyRuns.AppendMeaning` | server/controller/channel.go:1472-1509 | the added keys are the trimmed non-blank lines not already present, each once; appending the same lines again adds nothing |
| `MultiKeyRuns.AppendKeepsOrder` | server/controller/channel.go:1472-1509 | keys are appended in the order of their first lines |
| `Upstream.NormalizeIsClean` | server/controller/channel_upstream_update.go:97-102 | a normalised list is trimmed, non-blank and duplicate-free, and normalising again changes nothing |
| `Upstream.NormalizeMembers` | server/controller/channel_upstream_update.go:97-102 | its members are exactly the trimmed non-blank entries |
| `UpstreamLaws.NormalizeKeepsFirst` | server/controller/channel_upstream_update.go:97-102 | names stand in the order of their first lines |
| `Text.CleanedByLine` | server/controller/channel_upstream_update.go:97-102 | lines are cleaned one by one, in order: trimmed, and dropped when blank |
| `Text.TrimDrops` | server/controller/channel_upstream_update.go:97-102 | trimming drops space characters at both ends and nothing else |
| `Upstream.SetAlgebra` | server/controller/channel_upstream_update.go:104-140 | merge, subtract and intersect are union, difference and intersection of members and return clean lists |
| `Upstream.MergeNames` | server/controller/channel_upstream_update.go:104-118 | the loop with its seen set computes the ordered union |
| `Upstream.SubtractMeaning` | server/controller/channel_upstream_update.go:120-129 | the names of the base that the removed list lacks, up to surrounding space, each once and in the base's order |
| `Upstream.IntersectMeaning` | server/controller/channel_upstream_update.go:131-140 | the names of the base that the allowed list has, each once and in the base's order |
| `Upstream.MergeMeaning` | server/controller/channel_upstream_update.go:104-118 | the normalised base, then in order the appended names it lacks |
| `Upstream.SelectedMeaning` | server/controller/channel_upstream_update.go:142-147 | a name is in the result iff it is added, or was there and is not removed: adding wins; the order is that of the merged list |
| `Upstream.CollectPending` | server/controller/channel_upstream_update.go:176-235 | the two filter loops compute the pending additions and removals; which names these are, `UpstreamLaws.PendingAddExactly` and `PendingRemoveExactly` say |
| `Upstream.PendingMembers` | server/controller/channel_upstream_update.go:176-235 | pending additions are upstream minus local minus redirect targets minus ignored; removals are local minus redirect sources minus upstream; both clean |
| `UpstreamLaws.PendingAddExactly` | server/controller/channel_upstream_update.go:176-235 | from the raw lists: a model is pending iff upstream lists it, the channel does not, no redirect leads to it, and no ignore line names it or, after the marker `regex:`, matches it |
| `UpstreamLaws.IgnoredIsNotPending` | server/controller/channel_upstream_update.go:213-222 | an ignore entry without the marker keeps the model of that name out |
| `UpstreamLaws.PendingRemoveExactly` | server/controller/channel_upstream_update.go:176-235 | from the raw lists: a model is pending for removal iff the channel lists it, upstream does not, and it is not redirected |
| `UpstreamLaws.DetectExactly` | server/controller/channel_upstream_update.go:388-430 | what a check stores, for every combination of the scheduled call and the auto-sync switch |
| `UpstreamLaws.ScheduledIsManual` | server/controller/channel_upstream_update.go:412-425 | the scheduled check of a channel without auto-sync is the manual one |
| `UpstreamLaws.ApplyExactly` | server/controller/channel_upstream_update.go:806-849 | time, switch and the rewriting of models by an application; choosing nothing pending keeps the models |
| `Upstream.Channel.Check` | server/controller/channel_upstream_update.go:388-430 | skipped, failed fetch, failed save and success each leave exactly the stated row; under auto-sync the reported count is the number of detected additions |
| `Upstream.Channel.Apply` | server/controller/channel_upstream_update.go:806-849 | a saved application leaves the specified row and reports it; a failed save changes nothing |
| `Upstream.AutoAddCount` | server/controller/channel_upstream_update.go:412-418 | every detected addition is new to the list, so merging appends them all |
| `UpstreamLaws.AddsArePartitioned` | server/controller/channel_upstream_update.go:806-849 | every pending name is added, ignored or still pending, exactly one of these; what remains is the pending list without the others, in order |
| `UpstreamLaws.IgnoreListAfter` | server/controller/channel_upstream_update.go:806-849 | the ignore list gains the ignored and loses the added names; chosen for both means added and not ignored |
| `UpstreamLaws.AddWinsOverRemove` | server/controller/channel_upstream_update.go:142-147 | models afterwards are models plus added minus removed; chosen for both means added |
| `UpstreamLaws.RemovesArePartitioned` | server/controller/channel_upstream_update.go:806-849 | a pending removal is either carried out or still pending |
| `UpstreamLaws.SecondDetection` | server/controller/channel_upstream_update.go:176-235 | exactly which names a second detection would add |
| `UpstreamLaws.RoundProgress` | server/controller/channel_upstream_update.go:806-849 | a round that adds something leaves fewer upstream names missing, and one that adds nothing is followed by another |
| `UpstreamLaws.SyncConverges` | server/controller/channel_upstream_update.go:806-849 | after detect and apply-all nothing is left to remove, and nothing to add iff the ignore list survives |
| `UpstreamLaws.SyncIsStable` | server/controller/channel_upstream_update.go:176-235 | detect, apply, detect finds nothing when no upstream name starts with the regex marker |
| `UpstreamLaws.SyncCanMiss` | server/controller/channel_upstream_update.go:176-235 | for every ignore entry `regex:x` that ignores a model y but not the model named like the entry, y is pending in the second detection |
| `UpstreamLaws.RoundsSettle` | server/controller/channel_upstream_update.go:806-849 | repeating detect and apply-all on a fixed upstream list leaves nothing pending after at most as many rounds as it has names, whatever the names |
| `UpstreamLaws.AutoSyncSettles` | server/controller/channel_upstream_update.go:412-425 | with auto-sync one check settles the additions for any names and leaves the removals it reported |
| `UpstreamLaws.NextBatch` | server/controller/channel_upstream_update.go:855-866 | a keyset query after k visited channels returns the next batch of them |
| `UpstreamLaws.Sweep` | server/controller/channel_upstream_update.go:560-625 | the batch loop visits every enabled channel once, in id order; after a failing query exactly those of the good queries |
| `RatioSync.BuildCell` | server/controller/ratio_sync.go:606-624 | what a cell shows, and whether it is a difference |
| `RatioSync.BuildColumns` | server/controller/ratio_sync.go:600-629 | the columns of a row over all channels, the last of a name winning, and whether any differs |
| `RatioSync.BuildRaw` | server/controller/ratio_sync.go:540-654 | the unpruned table has exactly the rows that belong and each has its exact contents |
| `RatioSync.FindDifferent` | server/controller/ratio_sync.go:656-665 | the channels with a telling cell anywhere |
| `RatioSync.PruneModel` | server/controller/ratio_sync.go:668-688 | columns of other channels go; rows that then say only "same" go |
| `RatioSync.Prune` | server/controller/ratio_sync.go:667-693 | the same for all models, and no empty model remains |
| `RatioSync.BuildDifferences` | server/controller/ratio_sync.go:536-696 | the result is the exact unpruned table, pruned by its own telling columns; which differences it shows, `RatioSyncCells.DifferenceIsShown` says |
| `RatioSyncMeaning.CellIsTruthful` | server/controller/ratio_sync.go:606-626 | a cell tells whether its channel differs iff the upstream text is not `same` or the local one is too |
| `RatioSyncMeaning.KeptColumns` | server/controller/ratio_sync.go:656-674 | the columns kept are the channels with a visible difference anywhere |
| `RatioSyncMeaning.RowSurvives` | server/controller/ratio_sync.go:631-693 | for any values, the rows that remain are those with a difference that a kept channel supports |
| `RatioSyncMeaning.TableIsExact` | server/controller/ratio_sync.go:536-696 | where no upstream text is `same`: a row iff some channel differs there, a column iff the channel differs anywhere, and every cell says how; pruning drops no difference |
| `RatioSyncMeaning.SameIsLost` | server/controller/ratio_sync.go:612-693 | upstreams that only say `same` give an empty table, whatever the local values |
| `RatioSyncCells.DifferenceIsShown` | server/controller/ratio_sync.go:606-626 | an upstream value that the local tables lack or that does not agree with theirs is shown, next to the local one, unless it is the text `same` |
| `RatioSyncCells.NumbersApart` | server/controller/ratio_sync.go:48-62 | a local and an upstream number at least 0.000000001 apart have a row that shows both |
| `RatioSyncCells.RestOfRow` | server/controller/ratio_sync.go:606-626 | in a row, numbers closer than that and equal texts read `same`, a missing upstream value reads empty beside a local one and `same` otherwise |
| `RatioSyncCells.AgreementHasNoRow` | server/controller/ratio_sync.go:631-693 | where all channels agree or are silent there is no row |
| `RatioSyncCells.AgreeExactly` | server/controller/ratio_sync.go:48-62 | two numbers agree when less than 0.000000001 apart, two texts when equal, a number and a text never |
| `RatioSyncCells.UntrustedExactly` | server/controller/ratio_sync.go:558-591 | a channel is marked untrusted for a model iff its ratio there is 37.5 and its completion ratio 1, up to 0.000000001 |
| `RatioSyncCells.FieldsAre` | server/controller/ratio_sync.go:64-75 | the ten fields compared |
| `RatioSyncCells.LastCounts` | server/controller/ratio_sync.go:600-629 | of several channels of one name the last one counts |
| `ModelsDev.BuildCandidate` | server/controller/ratio_sync.go:845-879 | an offer counts iff its input cost is a finite non-negative number, and its output cost too if given, and a free input has no priced output; it carries these costs, and the cache cost where that is valid |
| `ModelsDevLaws.OfferExactly` | server/controller/ratio_sync.go:922-942 | a provider offers a model iff it lists it with costs that make a candidate |
| `ModelsDevLaws.LessExactly` | server/controller/ratio_sync.go:915-919 | providers are ordered by the first character in which their names differ, a prefix first |
| `ModelsDev.Select` | server/controller/ratio_sync.go:906-944 | for every model the selection is what remains of the offers of the sorted providers, taken one after the other |
| `ModelsDevLaws.SelectionIsUnique` | server/controller/ratio_sync.go:891-892 | the data determine the selection |
| `ModelsDevLaws.ChoiceStands` | server/controller/ratio_sync.go:881-893 | what remains of offers in provider order is below every non-zero one plus 1e-9, strictly below every earlier one, and zero only if all are |
| `ModelsDevLaws.CheapestNonZero` | server/controller/ratio_sync.go:881-944 | so the stored price is its provider's offer, below every non-zero offer plus 1e-9, zero only if every offer is, and of several providers at that price the first is kept |
| `ModelsDevLaws.CheapestExactly` | server/controller/ratio_sync.go:881-944 | the price chosen is the cheapest non-zero one under every naming of the providers iff no price lies strictly between it and 1e-9 above it |
| `ModelsDevLaws.DearerIsKept` | server/controller/ratio_sync.go:881-893 | two sorted providers of which the first, less than 1e-9 dearer, is kept |
| `ModelsDevLaws.NearlyEqualIsNotTransitive` | server/controller/ratio_sync.go:48-53 | three costs, neighbours equal, ends not |
| `ModelsDevLaws.UnsortedDrifts` | server/controller/ratio_sync.go:881-893 | out of order, three near-equal offers end with the dearest, more than 1e-9 above the cheapest |
| `JsonScan.Scanner.ScanOne` | server/common/json.go:77-135 | the recursive scan over the decoder's state agrees with the scan function: result, tokens consumed, duplicates appended |
| `JsonScan.Scanner.ScanObject` | server/common/json.go:87-117 | the member loop with its set of seen names |
| `JsonScan.Scanner.ScanArray` | server/common/json.go:118-130 | the element loop |
| `JsonScan.RejectDuplicateMembers` | server/common/json.go:45-52 | the stopping entry point, trailing input included |
| `JsonScan.FindDuplicateMembers` | server/common/json.go:56-66 | the collecting entry point |
| `JsonScan.FinishSingle` | server/common/json.go:68-75 | only the end of the input may follow the value |
| `JsonScanLaws.ScansTree` | server/common/json.go:77-135 | for every JSON tree and any suffix the scan consumes exactly the tree's tokens and reports its duplicate members, with paths, in document order |
| `JsonScanLaws.AcceptsOnlyTrees` | server/common/json.go:77-135 | whatever the scan accepts is the token sequence of some tree, with that tree's duplicates |
| `JsonScanLaws.StoppingCuts` | server/common/json.go:98-106 | on any tokens the stopping scan is the collecting scan cut at its first duplicate |
| `JsonScanLaws.RejectAgreesWithFind` | server/common/json.go:45-66 | Reject succeeds iff Find returns none; otherwise it reports Find's first, or fails where Find fails |
| `JsonScanLaws.FindIsExact` | server/common/json.go:56-75 | Find succeeds exactly on one tree, and returns its duplicates |
| `JsonScanLaws.NoDuplicatesMeansDistinct` | server/common/json.go:88-106 | no duplicates iff the names in each object are distinct (section 4 of RFC 8259) |
| `JsonScanLaws.RejectMeansDistinct` | server/common/json.go:45-52 | Reject lets a tree pass iff every object in it has distinct names |
| `JsonScanLaws.DuplicatesExactly` | server/common/json.go:88-130 | a member is a duplicate iff an earlier member of its object has its name; it is reported before those inside its value, with the names that lead to it |
| `JsonScanLaws.ErrorsExactly` | server/common/json.go:77-135 | the error for no input, rejected text, a stray delimiter, a member name that is no string, and a wrong closing delimiter |
| `JsonScanLaws.TrailingIsRefused` | server/common/json.go:68-75 | anything after a value is an error of its own, whatever the value |
| `RateLimiter.Limiter.Request` | server/common/rate-limit.go:45-70 | decision and new queue of one request; other keys untouched |
| `RateLimiter.Limiter.ClearExpired` | server/common/rate-limit.go:28-42 | a sweep removes exactly the idle keys |
| `RateLimiter.DecisionIsExact` | server/common/rate-limit.go:28-70 | with sweeps anywhere in the run, a request is accepted iff the last N acceptances do not all fall within the window |
| `RateLimiter.QueueIsTail` | server/common/rate-limit.go:28-70 | with sweeps anywhere in the run, a key's queue is the tail of its acceptance times, of which only expired ones may be missing |
| `RateLimiter.DecisionUnswept` | server/common/rate-limit.go:45-70 | without sweeps the same holds for any window |
| `RateLimiter.WindowHolds` | server/common/rate-limit.go:28-70 | N+1 consecutive acceptances span at least the window, with sweeps anywhere in the run |
| `RateLimiter.LimitIsKeptExactly` | server/common/rate-limit.go:28-70 | of a limiter that sweeps: no run accepts more than the maximum within a window iff the maximum is at least one and the window at most the expiry plus one second (or not positive) |
| `RateLimiter.LimitIsKeptUnswept` | server/common/rate-limit.go:14-26 | of a limiter that never sweeps: the same iff the maximum is at least one (or the window not positive) |
| `RateLimiter.ZeroLimitIsBroken` | server/common/rate-limit.go:64-68 | a limit of zero is broken by the first request |
| `RateLimiter.SweepsAreInvisible` | server/common/rate-limit.go:28-42 | dropping all sweeps changes no decision and no acceptance time |
| `RateLimiter.LongWindowShowsSweep` | server/common/rate-limit.go:28-42 | with a longer window, a burst, a sweep and one request show the sweep |
| `RateLimiter.SweepsAreUnnoticed` | server/common/rate-limit.go:28-70 | sweeps are invisible in every run iff every window is at most the expiry plus one second |
| `RateLimiter.OfferExactly` | server/common/rate-limit.go:45-70 | one request: the first of a key passes, below the maximum all pass, at it one passes iff the oldest is a window ago, and replaces it |
| `RateLimiter.SweptExactly` | server/common/rate-limit.go:28-42 | a sweep forgets a key iff its last accepted request is longer ago than the expiry, and changes no other |
| `Verification.CodeStore.RegisterCode` | server/common/verification.go:35-45 | the newest code replaces the slot; a map grown past its size is purged |
| `Verification.CodeStore.VerifyCode` | server/common/verification.go:47-56 | yes iff the slot holds that code, unexpired |
| `Verification.CodeStore.ConsumeCode` | server/common/verification.go:58-68 | yes iff so, and then the slot is emptied |
| `Verification.CodeStore.RemoveExpired` | server/common/verification.go:77-84 | the purge loop removes exactly the expired slots |
| `Verification.ExpiryForms` | server/common/verification.go:47-68 | the two ways the code tests for expiry agree |
| `Verification.AnswersMatchHistory` | server/common/verification.go:35-84 | after any history an answer is yes iff the latest registration of that purpose and key has the code, is unexpired and was not consumed or deleted since |
| `Verification.ConsumedOnce` | server/common/verification.go:58-68 | after a successful consumption nothing succeeds until the pair is registered again |
| `Verification.AcceptsExactly` | server/common/verification.go:47-68 | a code is accepted iff its slot holds it and it is less than ten minutes old |
| `Verification.RegisterExactly` | server/common/verification.go:35-45 | registering replaces one slot; past ten slots exactly the expired ones go |
| `Verification.OthersExactly` | server/common/verification.go:47-75 | verifying changes nothing, deleting empties the slot, consuming does iff the code is accepted |
| `BodyStorage.MemoryStorage.Read` | server/common/body_storage.go:47-54 | a read of memory storage acts as specified on the body it stands for |
| `BodyStorage.DiskStorage.Bytes` | server/common/body_storage.go:198-230 | seek, read in full, seek back: all content, and the position is where it was |
| `BodyStorage.DiskStorage.ReadFull` | server/common/body_storage.go:217-222 | repeated file reads deliver the whole request or the right error |
| `BodyStorage.DiskStorage.Close` | server/common/body_storage.go:187-196 | only the first close releases the counters |
| `BodyStorage.Stats.DecrementDiskFiles` | server/common/disk_cache_config.go:109-134 | the clamped decrement |
| `BodyStorage.CreateBodyStorage` | server/common/body_storage.go:241-260 | disk iff enabled, large enough and within the budget, and the file can be made; otherwise memory; the body is the data |
| `BodyStorage.CreateFromReader` | server/common/body_storage.go:262-303 | accepted iff the whole body arrives within the limit and a file is there if the announced length asks for one; then stored whole, on disk iff a file can be made and the announced or the actual length asks for it; a refused one leaves the counters unchanged |
| `BodyStorage.KindsDifferOnlyOnEmptyReads` | server/common/body_storage.go:37-238 | disk and memory reply alike except to an empty read at or past the end |
| `BodyStorage.KindsAreIndistinguishable` | server/common/body_storage.go:37-238 | no sequence of operations without empty reads tells the two behaviours apart |
| `BodyStorage.Compare` | server/common/body_storage.go:37-238 | a memory and a disk storage that hold the same body give the same replies to any operations without empty reads |
| `BodyStorage.ChunksReassemble` | server/common/body_storage.go:37-238 | reading in chunks of any sizes delivers the content from the position on, once and in order |
| `BodyStorageLaws.SeekExactly` | server/common/body_storage.go:56-63 | a seek from start, position or end moves to its target and reports it; a negative target is refused and moves nothing |
| `BodyStorageLaws.SeekThenRead` | server/common/body_storage.go:178-185 | a read after a seek delivers the bytes at the target, or the end; after a refused seek those at the old position |
| `BodyStorageLaws.ReadExactly` | server/common/body_storage.go:47-54 | a read of at least one byte delivers the bytes at the position, as many as there are, and moves past them |
| `BodyStorageLaws.EmptyReadExactly` | server/common/body_storage.go:47-54 | an empty read moves nothing and at the end is an error in memory only |
| `BodyStorageLaws.AllBytesExactly` | server/common/body_storage.go:198-230 | all bytes are delivered at any position, which stays |
| `BodyStorageLaws.CloseExactly` | server/common/body_storage.go:65-89 | a closed body refuses everything but another close |
| `BodyStorageLaws.RereadDeliversAll` | server/common/body_storage.go:37-238 | after any operations but a close, rewinding and reading in chunks delivers the whole content |
| `BodyStorageLaws.ReadAgain` | server/common/body_storage.go:37-238 | the same of a storage object of either kind |
| `BodyStorage.CensusAfterClose` | server/common/disk_cache_config.go:109-134 | closing takes exactly its share, so the clamp never acts |
| `BodyStorage.Storage.Perform` | server/common/body_storage.go:37-238 | either kind acts on the body it stands for as specified, and only a first close touches the counters; what each operation delivers, `BodyStorageLaws` says |
| `BodyStorage.Registry.Create` | server/common/body_storage.go:241-260 | among any storages, a creation adds one with the data as body, on disk iff enabled, large enough, within what the open ones leave of the budget, and possible |
| `BodyStorage.Registry.Receive` | server/common/body_storage.go:262-303 | among any storages, a reception adds the whole body, of the kind stated, or changes nothing, as the open ones decide |
| `BodyStorage.Registry.Use` | server/common/body_storage.go:37-238 | an operation on one storage gives the specified reply and body, changes no other, and keeps the counters equal to what is open, a second close included |
| `BodyStorage.RunAll` | server/common/disk_cache_config.go:109-134 | after any sequence of commands the storages are those the commands call for, and the counters are the number and bytes of the open ones among them |
| `BodyStorage.BudgetHolds` | server/common/disk_cache_config.go:170-177 | over every sequence of commands the bytes on disk stay within the maximum, if no body is longer than announced |
| `BodyStorage.BudgetIsKeptExactly` | server/common/body_storage.go:262-270 | a reception whose announced length can ask for the disk keeps the bytes on disk within the maximum, whatever is open, iff the body is no longer than announced |
| `BodyStorageLaws.CensusExactly` | server/common/disk_cache_config.go:109-134 | the census counts the open storages of each kind and adds up their bytes |
| `BodyStorageLaws.CreationExactly` | server/common/body_storage.go:241-260 | a creation goes to disk iff the disk is enabled and works, the body has at least the threshold, and the open files leave room |
| `BodyStorageLaws.ReceptionExactly` | server/common/body_storage.go:262-303 | a reception is refused iff it breaks off, is too long, or is announced for a disk that fails; it goes to disk iff the disk works and the announced or real length asks for it |
| `BodyStorageLaws.UseExactly` | server/common/body_storage.go:37-238 | an operation changes only its storage, never kind or content |
| `BodyStorageLaws.ReleasedExactly` | server/common/disk_cache_config.go:109-134 | a release subtracts, and the disk counters stop at zero |
| `OggScan.ParseHeader` | server/common/audio.go:215-235 | capture pattern, signed granule position and segment count of one header |
| `OggScan.ScanHeader` | server/common/audio.go:215-249 | one turn of the loop: where the scan goes on, and the greatest granule position so far |
| `OggScan.OpusDuration` | server/common/audio.go:196-254 | ends on any bytes, with the greatest granule position of the pages it visits |
| `OggScan.PagesArePages` | server/common/audio.go:207-249 | on any bytes the positions visited are pages, strictly increasing |
| `OggScan.GranuleRoundTrip` | server/common/audio.go:228-232 | a signed granule position written low byte first is read back |
| `OggScan.PageIsFound` | server/common/audio.go:203-253 | an encoded page anywhere in a file is recognised, with its position and its end |
| `OggScan.DurationOfPages` | server/common/audio.go:196-254 | on concatenated pages (section 6 of RFC 3533) the scan visits exactly the boundaries and returns the greatest of 0 and the granule positions |
| `OggScan.ScanSkipsJunk` | server/common/audio.go:219-226 | bytes before the first page change nothing |
| `OggScan.LayoutExactly` | server/common/audio.go:207-249 | where a page has its capture pattern, granule position, segment count and table, and where it ends |
| `OggScan.NumbersExactly` | server/common/audio.go:228-232 | low byte first, the top bit of eight bytes is the sign |
| `OggScan.GreatestExactly` | server/common/audio.go:228-235 | the granule position returned is reached and not exceeded among the pages |
| `LikeFilter.EscapedIsLiteral` | server/controller/admin_finance.go:444-447 | an escaped text in a pattern matches itself and nothing else, whatever follows |
| `LikeFilter.PatternMeansContains` | server/controller/admin_finance.go:153-158 | a string matches the built pattern iff it contains the text |
| `LikeFilter.KeywordIsLiteral` | server/controller/admin_finance.go:153-158 | the keyword finds exactly the rows whose trade number or user name contains it |
| `LikeFilter.LikeExactly` | server/controller/admin_finance.go:153-158 | LIKE with the escape `!`: a percent sign stands for any text, an underscore for one character, an escaped character for itself |
| `LikeFilter.EscapeExactly` | server/controller/admin_finance.go:444-447 | escaping goes character by character and prefixes exactly the three special ones |
| `Embedding.Validate` | server/common/ztapi_embedding.go:14-60 | accepted iff object, items, indices, vectors and usage are all as required; returns the prompt tokens |
| `Embedding.ValidateItems` | server/common/ztapi_embedding.go:23-47 | the loop accepts iff indices are distinct and in range and all vectors have one positive dimension |
| `Embedding.InputCount` | server/common/ztapi_embedding.go:72-116 | one for a text or a token list, the length for a batch, refused otherwise |
| `Embedding.OneVectorPerInput` | server/common/ztapi_embedding.go:23-47 | in an accepted response every input has exactly one vector, all of one positive dimension |
| `Embedding.AcceptedExactly` | server/common/ztapi_embedding.go:14-68 | the condition for acceptance, written out over the fields of the response |
| `Embedding.InputsExactly` | server/common/ztapi_embedding.go:72-116 | what counts as one input: a text that is not all space, or a list of token numbers that are integers from 0 |
| `Quote.RoundIsNear` | tools/generate_ztapi_quote_ab.py:39-40 | rounding to ten places moves a price by at most half a step |
| `Quote.ReadPart` | tools/generate_ztapi_quote_ab.py:73-101 | a piece is read into the draft of its tier, or no tier that starts so is acceptable |
| `Quote.ParseTier` | tools/generate_ztapi_quote_ab.py:58-105 | skipped iff dashed throughout; otherwise read iff every piece is understood, dimensions are distinct, one currency, and there is an input price; the rule holds exactly what the pieces say |
| `Quote.ReadingIsUnique` | tools/generate_ztapi_quote_ab.py:68-108 | that description determines the rule |
| `Quote.ParseRules` | tools/generate_ztapi_quote_ab.py:52-112 | one rule per offered tier, in order, iff both fractions are positive and every tier is readable or dashed; otherwise none |
| `Quote.ShareOfSaleIsCost` | tools/generate_ztapi_quote_ab.py:109-110 | the share of the sale price is the cost up to half a step times one plus the share |
| `Quote.SaleCoversCost` | tools/generate_ztapi_quote_ab.py:109-110 | no price is sold below cost iff the share is at most one |
| `Quote.AcceptedTierCoversCost` | tools/generate_ztapi_quote_ab.py:96-111 | every dimension of an accepted tier has a cost of at least zero and a sale price of at least that |
| `Quote.PricingBasis` | tools/generate_ztapi_quote_ab.py:174-178 | a row is a pricing basis iff it is active and no active row of its model has a better grade |
| `Quote.OneGradePerModel` | tools/generate_ztapi_quote_ab.py:174-178 | the basis rows of a model share one grade, and a model with an active row has one |
| `Quote.RoundExactly` | tools/generate_ztapi_quote_ab.py:39-40 | prices go to the nearest ten-place number, half way to the higher one |
| `Quote.PricesExactly` | tools/generate_ztapi_quote_ab.py:109-110 | cost is amount times fraction and sale is that over the share, each up to half a step |
| `Quote.PieceExactly` | tools/generate_ztapi_quote_ab.py:73-101 | which pieces are understood, price something, waive it, or are conditions |
| `Quote.TierExactly` | tools/generate_ztapi_quote_ab.py:58-108 | a tier is skipped iff all its fields read `-`, and has an input price iff some piece quotes it |
| `Quote.ClashExactly` | tools/generate_ztapi_quote_ab.py:96-101 | two prices of one accepted tier are for different dimensions in one currency |
| `Quote.BasisExactly` | tools/generate_ztapi_quote_ab.py:174-178 | a row is a basis iff it is active and an enterprise row or its model has no active one |

## Left out

- The watchdog's observation of containers, database and heartbeat, its HTTP and Telegram senders, file permissions, exit codes, log lines and message payloads: environment inputs here.
- How the watchdog turns its observations into a condition, a chain of independent tests that would only add easy members; the condition is an input of a tick.
- Gin handlers, JSON binding, audit records, database queries, caches, abilities and notification throttling around the channel operations.
- The newline, comma and JSON-array forms of key and model lists, Vertex AI keys and the replace mode of a channel update: lists are the state, so a name that contains a separator is not modelled.
- The polling index of multi-key channels and key selection.
- Nil and empty maps or lists are one value; integers are unbounded.
- Regular-expression matching of ignored models is a parameter; a pattern that does not compile is one that matches nothing.
- The counters and samples that the scheduled upstream check and the apply-all request collect for their reports; the sweep models which channels are reached.
- Ratios, costs and durations are real numbers; not-a-number and infinity occur only in `ModelsDev`, where the code tests for them. The conversion of a chosen candidate into ratios is not modelled.
- Upstream ratio values that are nested JSON objects or arrays, and the conversion of other number types to floating point before values are compared.
- JSON text below the token level: the decoder is a token list in which rejected input is one marked token.
- Concurrency and locks: operations of the limiter, the code store and the counters happen one at a time.
- Negative limits, for which allocating a new key's queue panics. The limiter's timer and the size of the code store and its validity as variables: both are their initial ten.
- Removal of old cache files that are still open, counter resets and synchronisation from the directory; file errors after creation; reads that return fewer bytes than are there; positions from which a file cannot be sought.
- `BodyStorage.MemoryStorage.Bytes`: does not model that callers share the returned slice with the storage.
- Audio formats other than Ogg Opus, and errors while reading the audio file.
- LIKE collation and case folding of the database.
- The workbook of the quotation tool, its row and model counts, the mapping of rows to resources, media rows, splitting a price text into tiers and pieces, and decimal arithmetic's 28 digits: prices are exact rationals before rounding.

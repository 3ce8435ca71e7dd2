# SRL config controller: a verified model of its reconciliation algebra

The controller keeps SR Linux devices in line with `SrlConfig` resources. Per resource it keeps a
record in a system cache: the spec it last wrote, the root paths of that spec, and the deletes and
updates that a worker is to apply. This project models how those are computed and proves what they
do, for all configurations, all notifications and all runs.

## What is modelled

- **Configurations** (`Paths.dfy`, `Configs.dfy`). A configuration is a finite map from leaf path to
  value. A device model is its set of leaf paths, a *schema*: a leaf has no keys and nothing lies
  below it. A configuration *conforms* when its leaves are in the schema and it is *key-closed*:
  every list entry on the way to a leaf has its key leaves, with the values the path gives (section
  7.8.2 of RFC 7950). Everything a device or a spec holds conforms to one schema, because the source
  parses all of them with one device model.
- **Library operations**, as small definitions that the proofs take as given: diff (new or changed
  leaves; missing leaves; listed in any order), overwriting and strict merge, delete (everything at or
  below a path, nothing when absent; section 3.4.6 of the gNMI specification), update (creates missing
  list entries with their key leaves), replace (section 3.4.4), deletes before updates (section
  3.4.3). As objects that work in place they are in `Ygot.dfy`.
- **Diff normalisation in memory** (`Gnmi.dfy`). Path and update messages are objects; a path's
  elements are a window on an array that other paths may share; trimming shortens the window.
- **Reconciliation** (`SpecDiff.dfy`, `ActualDiff.dfy`, `RootDelete.dfy`). The effect of a diff is
  compared with reference definitions on whole configurations: `Reconciled(running, stored, spec)` is
  the running configuration without the leaves the spec dropped and without anything below a list
  entry that the stored spec has and the new one has not, overlaid with the new spec.
- **Records and the system cache** (`Records.dfy`, `SystemCaches.dfy`, `SpecRuns.dfy`). Events are
  writes by resources, reports and removals by the worker, and changes of the exhaustion counter.
  A write may be delivered, lost, or applied but reported as failed. A run is any sequence of events.
- **The validator and the external client** (`Controllers.dfy`), as classes whose methods follow the
  source call by call, including the order in which errors are found.
- **From the record to the device** (`DeviceRuns.dfy`): the record is a single slot. The resource
  writes its spec diff, or its unchanged spec with an actual diff; the worker carries to the device what
  the record lists at that moment; the device may change for other reasons too.
- **Many resources on one device** (`Fleets.dfy`, `EditOrder.dfy`): adopting, editing, repairing and
  withdrawing specs, and direct changes by an operator, in any interleaving. Here each move's lists
  reach the device before the next move.
- **Failing inputs** (`Witnesses.dfy`): small conforming configurations for the findings below.

Hypotheses stated in contracts: rendering paths and encoding values is injective
(`InjectiveText`); record names are injective (`InjectiveNames`); encoding a spec and parsing it again
gives the same configuration (`FaithfulSpecs`); root paths cover the spec (`CoversConfig`) and, where a
resource withdraws, none of them is a key leaf.

## Findings

- Normalising is idempotent except on paths whose last two elements are both named like a key of the
  element before; `/a[b=1]/b[c=2]/c` shrinks twice. Unique sibling names (section 6.2.1 of RFC 7950)
  exclude that.
- The un-normalised diff leaves a key-closed device exactly when it does the same as the normalised
  one, that is, when the device holds no foreign leaf in a list entry that the spec drops.
- A spec diff repairs drift only where it writes. After it, on any device, the strict merge of the
  actual diff fails exactly when some leaf of the spec drifted to another value and the edit does not
  write it (`Witnesses.DriftBlocksTheMerge`). So the actual diff never changes the value of a leaf: it
  adds what is missing or fails.
- The configuration judged by `ValidateCrSpecUpdate` is the one the spec diff drives to exactly when
  nothing on the device is dropped and the device holds every leaf of the new spec that the diff does
  not write. On a device that holds the stored spec this means that the new spec keeps every stored
  leaf. Both parts can fail (`Witnesses.JudgedIsNotReached`).
- On a device that holds another resource's spec, an edit keeps that spec in place exactly when it
  agrees with it on the leaves it writes and drops nothing of it; over a whole run all
  stored specs stay in place exactly when every move does so. Nothing in the source checks this
  (`Witnesses.OthersLeafIsLost`). Two edits may be applied in either order exactly when what either
  writes the other neither drops nor writes differently.
- The record is one slot; a later write replaces lists that were not carried yet. While no other hand
  changes the device, a leaf that no stored spec has any more stays on it exactly when no list carried
  since drops it, and a leaf of the stored spec is in place exactly when the device held it or a list
  carried since writes it. So if every spec diff is carried before the next write replaces it, the
  device follows the specs and nothing stale stays; and if the spec that dropped a leaf is written again
  before its first diff was carried, the leaf stays for as long as that spec does
  (`Witnesses.ReplacedDropIsLost`, beside `Witnesses.CarriedDropClears`). The record's status is
  `PENDING` meanwhile, but nothing in these files makes a write wait for the worker; the reconciler's
  loop is not among them.
- Nothing tells a worker that carries an actual diff late whether the device is still the one the diff
  was computed against. It never removes anything then, but it puts the spec in place exactly when the
  device holds every leaf of it that the diff does not write.
- `Update` and `Delete` report a record that cannot be built under the text for a failed create.
- The comment on `getUpdates` (internal/controllers/srl/utilsgvk.go:98) says that the map is keyed by
  root path; the code keys it by each update's own path. The comment at
  internal/controllers/srl/srlconfig_controller.go:307 speaks of the actual configuration; the code
  there compares the spec stored in the record with the resource's spec. The model follows the code.

## Model

| member | source | states |
|---|---|---|
| Paths.NormalisedIsNoKeyLeaf | internal/controllers/srl/utils.go:113-127 | trimming never outputs a key leaf, only shortens, and whatever it trims becomes a list entry |
| Paths.NormaliseIdempotentIff | internal/controllers/srl/utils.go:120-125 | trimming twice is trimming once exactly when the last two elements are not both named like a key of the element before |
| Paths.NormaliseIdempotent | internal/controllers/srl/utils.go:113-127 | under unique sibling names trimming is idempotent and leaves nothing to trim |
| Paths.NormaliseShrinksTwice | internal/controllers/srl/utils.go:120-125 | a path with repeated sibling names that is trimmed on two successive passes |
| Gnmi.ValidatePath | internal/controllers/srl/utils.go:113-127 | in place, nil path included: same object, elements trimmed as specified, flag exactly when trimmed, no array written |
| Gnmi.ValidateUpdates | internal/controllers/srl/utils.go:88-99 | the loop over the updates keeps objects and order and rewrites each path length and value as specified |
| Gnmi.ValidateDeletes | internal/controllers/srl/utils.go:101-108 | the loop over the deletes keeps objects and order and rewrites each path length as specified |
| Gnmi.ValidateNotification | internal/controllers/srl/utils.go:87-110 | with distinct objects the in-place loops equal the element-wise normalisation, keep number, order and identity, and write only the updates and the lengths of the paths of updates and deletes |
| Gnmi.ReslicingIsLocal | internal/controllers/srl/utils.go:122 | trimming one path leaves another path on the same array as it was |
| Gnmi.SharedPathKeepsValue | internal/controllers/srl/utils.go:93-96 | of two updates on one path object the second keeps its value, so it is normalised exactly when there was nothing to trim or its value was {} already; hence the distinctness above |
| Gnmi.NormaliseUpdatesIdempotentIff | internal/controllers/srl/utils.go:88-99 | normalising a list of updates twice is normalising it once exactly when no path shrinks twice |
| Gnmi.NormaliseDeletesIdempotentIff | internal/controllers/srl/utils.go:101-108 | the same for a list of deletes |
| Gnmi.NormaliseNotificationIdempotent | internal/controllers/srl/utils.go:87-110 | under unique sibling names normalising a notification twice changes no path and no value |
| Gnmi.ValidateTwice | internal/controllers/srl/utils.go:87-110 | running the in-place normalisation on its own result changes no update, and no delete, exactly when no path shrinks twice |
| Configs.DeletesAreAFilter | internal/controllers/srl/srlconfig_controller.go:264-269 | deleting paths one after another keeps exactly the leaves at or below none of them |
| Configs.DeletesAreASet | internal/controllers/srl/utilsgvk.go:90-96 | deletes may be reordered and repeated without changing the result |
| Configs.UpdatesAreAnOverlay | internal/controllers/srl/utilsgvk.go:99-117 | updates that only set leaves to their value in one goal overlay exactly the leaves they write |
| Configs.UpdatesAreASet | internal/controllers/srl/utilsgvk.go:99-117 | such updates may be reordered, repeated and de-duplicated without changing the result |
| SpecDiff.NormalisingADiff | internal/controllers/srl/utils.go:87-110 | normalising any listing of a diff lists exactly the normalised differences |
| SpecDiff.NormalisedUpdateWritesTheSame | internal/controllers/srl/utils.go:93-96 | replacing a leaf update by "entry := {}" sets the same leaves exactly when a key leaf carries the value of its key |
| SpecDiff.RemovedKeyLeafDropsEntry | internal/controllers/srl/utils.go:101-108 | a key leaf disappears from a spec only with its whole entry, so its delete may become the entry's |
| SpecDiff.DeletedIsDropped | internal/controllers/srl/srlconfig_controller.go:302-313 | a leaf is hit by a normalised delete exactly when the spec dropped it or an entry above it |
| SpecDiff.SpecDiffEffect | internal/controllers/srl/srlconfig_controller.go:296-313 | on any conforming device, drifted or not, the diff removes exactly what was dropped and writes exactly what was touched |
| SpecDiff.SpecDiffReconcilesIff | internal/controllers/srl/srlconfig_controller.go:296-313 | the diff reaches the intended configuration exactly when the device holds every spec leaf the diff does not write |
| SpecDiff.SpecDiffReconciles | internal/controllers/srl/srlconfig_controller.go:296-313 | it does so on every device that holds the stored spec |
| SpecDiff.SpecDiffRoundTrip | internal/controllers/srl/srlconfig_controller.go:296-319 | applied to the stored spec, the normalised diff gives exactly the new spec |
| SpecDiff.SpecDiffFrame | internal/controllers/srl/srlconfig_controller.go:302-313 | afterwards, on any conforming device, written leaves have the spec's values, dropped leaves are gone, all other leaves are unchanged, nothing else appeared |
| SpecDiff.SpecDiffHoldsSpecIff | internal/controllers/srl/srlconfig_controller.go:302-313 | the new spec is in place afterwards exactly when the device held what the diff does not write of it; a device that held the stored spec did |
| SpecDiff.SpecDiffEmptyIff | internal/controllers/srl/srlconfig_controller.go:308-313 | the diff is empty exactly when the two specs are equal |
| SpecDiff.RawDiffEffect | internal/controllers/srl/srlconfig_controller.go:308 | the un-normalised diff removes only the leaves it names |
| SpecDiff.RawDiffKeepsStranded | internal/controllers/srl/utils.go:101-108 | raw and normalised diffs differ exactly at foreign leaves in dropped entries, which only the raw one keeps |
| SpecDiff.RawDiffKeyClosedIff | internal/controllers/srl/utils.go:101-108 | the raw diff leaves entries with all their keys exactly when it equals the normalised one |
| SpecDiff.DeletesKeepKeyClosed | internal/controllers/srl/utils.go:113-127 | deleting paths that are not key leaves keeps every entry's keys |
| SpecDiff.DeleteLeafKeyClosedIff | internal/controllers/srl/utils.go:101-108 | deleting one leaf breaks an entry exactly when it is a key leaf and the entry has more |
| SpecDiff.NormalisedDiffKeepsConforming | internal/controllers/srl/utils.go:101-125 | any of the normalised deletes, then any of the normalised updates, in any order, leave a conforming configuration, so every intermediate state conforms |
| SpecDiff.EditsTelescope | internal/controllers/srl/srlconfig_controller.go:296-313 | the diffs of any run of spec edits compose to the step from the first spec to the last |
| SpecDiff.EditsPlaceLeafIff | internal/controllers/srl/srlconfig_controller.go:296-313 | on any device a leaf of the last spec is in place after a run exactly when some edit wrote it or the device held it at the start |
| SpecDiff.EditsReachLastSpecIff | internal/controllers/srl/srlconfig_controller.go:296-313 | a run ends conforming on any device, and with the last spec in place exactly when the device held at the start every leaf of it that no edit wrote |
| SpecDiff.EditsReachLastSpec | internal/controllers/srl/srlconfig_controller.go:296-313 | on a device that holds the first spec, the run ends with the last spec in place |
| SpecDiff.EditsLeaveNothingStale | internal/controllers/srl/srlconfig_controller.go:296-313 | on any conforming device, no leaf of any earlier spec that the last one lacks is left at the end |
| SpecDiff.EditsLeaveForeignLeafIff | internal/controllers/srl/srlconfig_controller.go:296-313 | on any conforming device a leaf that no spec of the run names is there at the end, unchanged, exactly when it was there and no edit dropped an entry above it |
| ActualDiff.NoConflictIff | internal/controllers/srl/srlconfig_controller.go:347 | the strict merge succeeds exactly when no device leaf would be overwritten, and exactly when the merge commutes |
| ActualDiff.MergeConforms | internal/controllers/srl/srlconfig_controller.go:347 | merging a spec into the device keeps it conforming |
| ActualDiff.ActualDiffDeletesNothing | internal/controllers/srl/srlconfig_controller.go:358-370 | the actual diff has no deletes |
| ActualDiff.ActualDiffConverges | internal/controllers/srl/srlconfig_controller.go:330-370 | applying the actual diff reaches the merge of device and spec |
| ActualDiff.ActualDiffSettles | internal/controllers/srl/srlconfig_controller.go:330-370 | from there the merge succeeds again and every further diff is empty |
| ActualDiff.UpToDateIff | internal/controllers/srl/srlconfig_controller.go:363-370 | the diff is empty exactly when the device holds every spec leaf with its value |
| ActualDiff.ActualDiffOnlyAdds | internal/controllers/srl/srlconfig_controller.go:347-358 | after a strict merge the raw updates are exactly the spec leaves that the device has not set |
| ActualDiff.ActualDiffStaysInSpec | internal/controllers/srl/srlconfig_controller.go:347-358 | an actual diff drops nothing, neither leaf nor entry, and writes only leaves of the spec |
| ActualDiff.LateActualDiff | internal/controllers/srl/srlconfig_controller.go:330-370 | applied to any other device, an actual diff only adds what it writes; the spec is then in place exactly when the device holds what the diff does not write of it, and other specs without a conflict stay |
| ActualDiff.SpecDiffThenMerge | internal/controllers/srl/srlconfig_controller.go:347 | after a spec diff, on any device, the strict merge fails exactly when a leaf drifted, and merging then reaches the intended configuration |
| ActualDiff.SpecDiffThenActualDiff | internal/controllers/srl/srlconfig_controller.go:285-372 | spec diff, then actual diff, end in the intended configuration from every device without a drifted leaf |
| ActualDiff.JudgedIsReachedIff | internal/controllers/srl/srlconfig_controller.go:210 | on any device, applying the spec diff gives the configuration judged for the update exactly when nothing on the device is dropped and the device holds every spec leaf the diff does not write |
| ActualDiff.JudgedIsReachedByHolderIff | internal/controllers/srl/srlconfig_controller.go:210 | on a device that holds the stored spec, exactly when the new spec keeps every stored leaf |
| Witnesses.DriftBlocksTheMerge | internal/controllers/srl/srlconfig_controller.go:347 | a drifted leaf on which the strict merge conflicts after the spec diff |
| Witnesses.JudgedIsNotReached | internal/controllers/srl/srlconfig_controller.go:210 | a dropped leaf, and a drifted leaf, for which the judged configuration is not the one reached |
| Witnesses.OthersLeafIsLost | internal/controllers/srl/utils.go:101-108 | a dropped entry whose normalised delete takes another resource's leaf with it |
| Witnesses.ReplacedDropIsLost | internal/controllers/srl/utilsgvk.go:63-72 | a run of two writes and a carry: the spec without a leaf is written twice, the worker can only read empty lists, and the leaf stays |
| Witnesses.CarriedDropClears | internal/controllers/srl/utilsgvk.go:63-72 | the same first write, carried before the second, clears the leaf |
| RootDelete.SameDeletesIff | internal/controllers/srl/srlconfig_controller.go:264-269 | two root path lists mean the same for all configurations exactly when each covers the other; order, duplicates and nesting do not matter |
| RootDelete.DeletingTwice | internal/controllers/srl/srlconfig_controller.go:264-269 | running the delete loop twice is running it once |
| RootDelete.MergeThenDelete | internal/controllers/srl/srlconfig_controller.go:199-271 | deleting from device merged with spec is deleting from the device exactly when spec leaves are covered or were there; no spec leaf survives exactly when all are covered |
| Records.GetPaths | internal/controllers/srl/utilsgvk.go:90-96 | the loop renders every path, in order |
| Records.GetUpdates | internal/controllers/srl/utilsgvk.go:99-117 | the loop builds the specified map or stops at the first value that cannot be encoded |
| Records.CollapsedFailsIff | internal/controllers/srl/utilsgvk.go:103-110 | building the map fails exactly when some value cannot be encoded |
| Records.CollapsedIsLastWins | internal/controllers/srl/utilsgvk.go:99-117 | the map has exactly the rendered paths as keys, each made from the last update with that path |
| Records.NormalisedPathsDetermineValues | internal/controllers/srl/utils.go:88-99 | normalised updates with equal paths have equal values |
| Records.CollapseLosslessIff | internal/controllers/srl/utilsgvk.go:99-117 | the map keeps every update exactly when no path has two values |
| Records.DecodedIsOriginal | internal/controllers/srl/utilsgvk.go:99-117 | any decoding of the map has exactly the updates of the list |
| Records.MakeRecordFailsIff | internal/controllers/srl/utilsgvk.go:26-59 | a record is refused exactly for a foreign resource, a spec or an update value that cannot be encoded, or a finished record that cannot |
| Records.CollapsedFirstError | internal/controllers/srl/utilsgvk.go:103-110 | the error is that of the first update whose value cannot be encoded |
| Records.MakeRecordFirstError | internal/controllers/srl/utilsgvk.go:22-87 | the exact error of a refused record, in the order of the source: foreign resource, wrapped marshalling error, first update that cannot be encoded, finished record that cannot; otherwise the finished record |
| Records.GetGvkUpdate | internal/controllers/srl/utilsgvk.go:17-74 | the built record, or the error, is the specified function of resource, observation and action, whose errors `MakeRecordFirstError` gives |
| Records.ReadingReplaysDiff | internal/controllers/srl/utilsgvk.go:30-54 | any reading of a record that lists a normalised diff, deletes and updates each in any order and repeated, is that diff and does the same |
| Records.RecordReplaysDiff | internal/controllers/srl/utilsgvk.go:30-54 | in particular for the record a write builds from a spec diff |
| SystemCaches.RunKeeps | internal/controllers/srl/utilsgvk.go:44-54 | after any interleaving each record is under its own name with spec and reason present, so the observers' dereferences are defined |
| SystemCaches.RunIsolated | internal/controllers/srl/utilsgvk.go:63-72 | dropping all events of other records from a run changes nothing for this one |
| SystemCaches.StatusAfterRun | internal/controllers/srl/srlconfig_controller.go:153-188 | after any run, field by field: exhausted exactly when the counter is not zero, and then nothing else; otherwise present exactly with a record, pending and failed exactly by its status, the reason only of a failure |
| SystemCaches.OthersUnseen | internal/controllers/srl/srlconfig_controller.go:153-188 | whatever is written by other resources or done to their records, a resource's record stays, and so does what is observed for it |
| SystemCaches.WriteThenObserve | internal/controllers/srl/srlconfig_controller.go:153-188 | from an effective write until the worker steps on the record, after any history and whatever any resource writes meanwhile, the status is pending, or exhausted, which takes precedence |
| SystemCaches.ReportThenObserve | internal/controllers/srl/srlconfig_controller.go:171-187 | a worker's report on a present record sets status, reason and attempt, leaves the content, and is what is observed until the next effective write, report or removal under that name, a failure with its reason |
| SystemCaches.TakenOutStaysOut | internal/controllers/srl/srlconfig_controller.go:165-170 | an absent record is not observed until it is written, whatever is reported |
| SystemCaches.TakeOutThenObserve | internal/controllers/srl/srlconfig_controller.go:165-170 | after a removal, whatever came before and until the resource writes again, it has no record and no status |
| SystemCaches.ExhaustThenObserve | internal/controllers/srl/srlconfig_controller.go:157-161 | the counter is the last one set, whatever else happens, and every resource is told it is exhausted exactly when that one is not zero |
| SystemCaches.NoStaleContent | internal/controllers/srl/utilsgvk.go:44-72 | after any run a record's content is that of its last effective write alone, and that write reset status, reason and attempt |
| SystemCaches.RecordsComeFromWrites | internal/controllers/srl/srlconfig_controller.go:512-515 | in runs from an empty cache every record holds what the last effective write under its name put there |
| Controllers.ValidatorDevice.ValidateCrSpecUpdate | internal/controllers/srl/srlconfig_controller.go:190-223 | an unparsable or invalid device configuration is the error, then an unparsable spec, which is not checked by itself; otherwise success exactly when the spec over the device passes the check, else its complaint |
| Controllers.ValidatorDevice.ValidateCrSpecDelete | internal/controllers/srl/srlconfig_controller.go:225-283 | the same errors, or the first root path that cannot be deleted; otherwise success exactly when the device leaves at or below no root path pass the leafref check, else its complaint |
| Controllers.ValidatorDevice.GetCrSpecDiff | internal/controllers/srl/srlconfig_controller.go:285-320 | without a record, empty lists; with one, the normalised difference from what its stored text parses to, to what the resource's parses to |
| Controllers.SpecDiffTakesEffect | internal/controllers/srl/srlconfig_controller.go:285-320 | its lists take the parsed stored spec to exactly the parsed new one and keep any conforming device conforming; the new spec is in place afterwards exactly when the device held what they do not write of it, in particular on any holder of the stored one |
| Controllers.ValidatorDevice.GetCrActualDiff | internal/controllers/srl/srlconfig_controller.go:322-372 | succeeds exactly when parsed device and spec give no leaf two values; then no deletes, the normalised difference to the spec over the device, and up to date exactly when the device holds the spec |
| Controllers.ActualDiffTakesEffect | internal/controllers/srl/srlconfig_controller.go:322-372 | its lists take the parsed device to exactly the device with the parsed spec over it; they are empty exactly when up to date |
| Controllers.ExternalDevice.Create | internal/controllers/srl/srlconfig_controller.go:501-523 | the cache makes exactly one write step; success exactly when the record is built and the call confirmed, else the cause under the create text |
| Controllers.ExternalDevice.Update | internal/controllers/srl/srlconfig_controller.go:525-547 | as create, with the update text for a failed call; a record that cannot be built is reported, with its cause, under the create text |
| Controllers.ExternalDevice.Delete | internal/controllers/srl/srlconfig_controller.go:549-571 | as update, with the delete text for a failed call; the record stays, with the delete action |
| Controllers.DiffAfterWrite | internal/controllers/srl/srlconfig_controller.go:296-319 | right after a create, update or delete that was applied, confirmed or not, the resource's spec diff is empty |
| SpecRuns.DiffAfterWriteIsEmpty | internal/controllers/srl/srlconfig_controller.go:296-319 | it stays empty through any further events until the next effective write or removal under that name |
| SpecRuns.ComputedListsReach | internal/controllers/srl/srlconfig_controller.go:285-372 | a spec diff, or an actual diff for an unchanged spec, brings a device that holds the stored spec to hold the new one, and the stored spec itself to exactly the new one |
| SpecRuns.WriteSpecDiff | internal/controllers/srl/srlconfig_controller.go:285-320 | computing the spec diff and writing it, by any action and with any outcome of the call, is one more step of the runs below |
| SpecRuns.WriteActualDiff | internal/controllers/srl/srlconfig_controller.go:322-372 | the same for an unchanged spec and its actual diff; with a conflicting leaf nothing is written |
| SpecRuns.WrittenDiffsTelescope | internal/controllers/srl/srlconfig_controller.go:296-313 | amid writes of others, reports and lost calls, the lists a resource got written, spec diffs or actual diffs, compose to the step from its first stored spec to its last |
| SpecRuns.WrittenDiffsOnDevice | internal/controllers/srl/srlconfig_controller.go:296-313 | a device that held the first stored spec, and to which every list written was carried, conforms and holds the last one |
| DeviceRuns.RunTracks | internal/controllers/srl/utilsgvk.go:44-72 | in any run whose writes carry spec diffs or actual diffs, the record holds a conforming spec and lists a normalised difference that ends with that spec in place and writes nothing else |
| DeviceRuns.CarryEffect | internal/controllers/srl/srlconfig_controller.go:285-372 | what one carry does to any conforming device |
| DeviceRuns.UnstoredLeafStaysIff | internal/controllers/srl/srlconfig_controller.go:285-372 | from any step on, a leaf that no spec stored since has stays on the device, unchanged, exactly when no list carried since drops it |
| DeviceRuns.StoredLeafHeldIff | internal/controllers/srl/srlconfig_controller.go:285-372 | from any step on, a leaf to which every spec stored since gives one value has it exactly when it had it or a list carried since writes it |
| DeviceRuns.LeavesAfterDrift | internal/controllers/srl/srlconfig_controller.go:285-372 | both, from a device that another hand left in any conforming state: a drifted leaf of the spec comes back exactly when a list carried since writes it |
| DeviceRuns.RewrittenSpecNeverClears | internal/controllers/srl/srlconfig_controller.go:285-372 | once the spec stored already is written again, a leaf it lacks stays on the device for as long as it stays the spec |
| DeviceRuns.CarriedInTimeReaches | internal/controllers/srl/srlconfig_controller.go:296-313 | if each spec diff is carried before the next write replaces it and other changes respect the held spec, the device always holds the spec whose diff was carried last, at the end the stored one unless its diff is pending |
| DeviceRuns.CarriedInTimeLeavesNothingStale | internal/controllers/srl/srlconfig_controller.go:296-313 | if each spec diff is carried before the next write replaces it and other changes bring nothing stale back, no leaf of an earlier stored spec stays on the device |
| Fleets.EditKeepsOtherIff | internal/controllers/srl/srlconfig_controller.go:302-313 | on any device that holds another resource's spec, an edit keeps that spec in place exactly when it agrees on the leaves it writes and drops nothing of it |
| Fleets.MoveKeepsInPlaceIff | internal/controllers/srl/srlconfig_controller.go:285-372 | a move keeps every stored spec in place exactly when it spares the other resources |
| Fleets.RunKeepsInPlaceIff | internal/controllers/srl/srlconfig_controller.go:285-372 | in any interleaving of moves the device conforms, and holds every stored spec at every moment exactly when each move spares the other resources |
| Fleets.RepairPutsInPlace | internal/controllers/srl/srlconfig_controller.go:322-372 | an actual diff of a resource with a record puts its spec in place on a drifted device and disturbs no other spec |
| Fleets.RunAddsNoUnmanaged | internal/controllers/srl/srlconfig_controller.go:285-372 | over any run, even with overlaps and with an operator changing managed leaves at any time, no leaf is left that no resource manages and that was not unmanaged, with the same value, at the start |
| EditOrder.EditsCommuteIff | internal/controllers/srl/srlconfig_controller.go:302-313 | on any conforming device two edits give the same in either order exactly when what either writes the other neither drops nor writes differently |
| EditOrder.EditsInAnyOrder | internal/controllers/srl/srlconfig_controller.go:302-313 | any permutation of edits that are independent of each other gives the same device |
| Fleets.EditsOfTwoCommuteIff | internal/controllers/srl/srlconfig_controller.go:302-313 | the same for two resources and their stored specs; each edit stays possible after the other |
| Fleets.NeighboursMaySwap | internal/controllers/srl/srlconfig_controller.go:302-313 | in the middle of any run neighbouring independent edits of two resources may be swapped |

## Left out

- The worker: it is not in these files. Its reports, removals and failures are arbitrary events; that
  it applies what a record lists at that moment, deletes first, is assumed in `DeviceRuns`. It reads the
  lists of one record whole; a device that applies them in part is not modelled.
- SpecRuns.WrittenDiffsOnDevice: takes as given that every written list is carried to the device;
  `DeviceRuns` says what happens otherwise.
- Fleets.RunAddsNoUnmanaged: takes it that each move's lists reach the device before the next move;
  `DeviceRuns` treats lists that are replaced first, for one resource.
- The managed reconciler's loop and the choice of observation it passes on. A resource with a record is
  taken to write an actual diff only for an unchanged spec.
- The root path calculation, `GetRootPaths` and `getRootPaths`: the rootpaths package is not part of
  this model; root paths are a parameter, and their covering the spec is a hypothesis.
- Diff, merge and delete inside the ygot library: small definitions, listed above. A failed strict merge
  leaves its destination and its text unspecified. Leaf-lists, unions, wildcard paths and presence containers are
  not modelled; `PruneEmptyBranches` does nothing to a map of leaves.
- YANG validation, leafrefs and JSON syntax: parameters that return a complaint or an error.
- Path elements and update values are values: the source holds pointers to them, but never writes
  through these.
- The nil list and the empty list of an observation are one: the source treats them alike.
- Several targets: the model has one cache and one device; a resource names one target.
- `GetSystemConfig`, `GetRunningConfig`, `Connect`, `Setup`, address building and client creation:
  input and output. A missing exhaustion counter is excluded by precondition, since the source
  dereferences it unchecked.
- Tracing, logging, web-hooks, the watcher, generated code, flags and manifests: easy members only.

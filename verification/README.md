# neco-containers: verified models

Dafny models of the programs in this repository that keep state across runs, with the laws they are meant to
obey proved for every input, every run or every interleaving. `dafny verify dfyconfig.toml` checks all of it.

| module | what it models |
|---|---|
| `BmcLogCollector`, `BmcLogDelivery`, `BmcLogFleet` | bmc-log-collector: the pointer file, one poll of a system event log, whole runs of polls with failures, crashes and removed pointer files, and many machines at once |
| `MetricName` | neco-exporter's metric name printer and a parser that undoes it |
| `Exporter`, `CollectorSelection` | neco-exporter's collection loop: one goroutine per collector on one registry, every registry access a separate step; and the choice of collectors at the start |
| `IdentityWatcher`, `SecurityLabels` | the Cilium identity watcher against its informer, and the metrics made from it |
| `IdentitySeries` | watcher, collector and loop together, from the cluster's identities to the registered series |
| `FillDeleter`, `PvName`, `Provisioner` | local-pv-provisioner: zero fill of a device, PV names, detector and reconciler on one cluster with the bytes of its devices |
| `EndpointSlices`, `NamedPorts`, `MachinesEndpoints` | machines-endpoints' reconciler, its port flags, and a whole run over both of its targets |
| `BmcResolve` | the name map that machines-endpoints writes for bmc-reverse-proxy |
| `HttpProxy` | neco-admission's HTTPProxy mutator and validator over the life of an object |
| `Text` | strings, orders, sorting and decimal numbers used by the others |

How the models are built:

- Code that works in place is a class or a method with loops, proved against a specification function or predicate.
  Concurrent code and everything that spans programs is a state machine over values; runs are sequences of steps.
- What the environment decides is an input or a nondeterministic choice: BMC answers, where a poll is cut short
  (`Fate`), API results, the iteration order of Go maps, leadership, durations, the schedule.
- Errors and panics are results: `Option`, a boolean, or a step that is not enabled (the process has ended).
- What small functions give is stated apart from their bodies, with the program's own texts and numbers written out:
  `UnreachablePoll` and its companions, `HostResolves`, `RefusedIff`, `MutatedMeans`, `SkippedIff`, `OwnNamesPrinted`,
  `RenderedWith`, `LabelledIff`, `StampedMeans`, `SpecMeans`, `NamespaceMeans`, `CollectedMeans` and others.
- Assumptions are predicates in the `requires` of the theorems that use them: `AppendOnly`, `DistinctStarts`,
  `AllUndisturbed`, `Steady`, `ValidConfig`, `Fleet`, `Decodable`, `PlainKeys`, and those of local-pv-provisioner:
  - `DistinctNames`: no two of the devices that a node may ever list, over all its runs, share a PV name. It is needed
    only for `FreshVolumesAreClean`; moving the device directory to one with the same base names falls outside it.
  - `NamesReserved`: nobody else creates a PV under a name that the node gives to one of its devices.
  - `Regular`: the live read fails only while the PV exists, and a bound volume does not become available again, as it
    would if an administrator cleared its claim.
  - Built into the steps: nobody else labels a PV with this node, and two paths that a node lists are two devices, so
    no two links lead to one. Device paths of other nodes' PVs may be anything.

Where an expected law does not hold as such, the exact condition is proved, with a run that reaches the failing side:

- At-least-once delivery. A pointer file whose creation was cut short does not decode, and no poll of any kind changes
  anything until the file is removed (`GarbledPointerIsSilent`, `RemovalRecovers`). A completed poll has its whole log
  written if and only if no such cut is left standing or it all had been written before (`DeliversIff`); a cut that
  meets an existing file is harmless (`ReadableUnlessCut`). Failing run: `CutCreationLosesEntries`.
- The detector wipes only when its live read says NotFound. On any other read error it goes on to create the PV, and a
  PV of someone else that stands under the device's name is made the node's, so a PV of the node comes about on an
  unwiped device exactly under the condition in `UnwipedCreateIff`. Failing runs: `UnwipedVolume`, `AdoptedVolume`.
- The identity watcher lists a namespace only for events that name it. At quiescence a count is the store's plus the
  number of objects that changes have taken out of the namespace since its last listing, less its objects at that
  listing if it failed, so it is exact if and only if this `Drift` is zero (`CountExactIff`). The info of a name is
  exact if and only if the object did not lose its readable namespace with its info recorded (`InfoExactIff`). Failing
  runs: `MovedIdentityIsMiscounted`, `FailedListingLosesCount`, `UnreadableIdentityIsStranded`.
- The created HTTPProxy manifest can be applied again if and only if no other ip-policy was added since
  (`ReapplyAdmittedIff`); right after the creation that is always so. Failing history: `ReapplyDenied`.
- The flags may name a collector twice, which the program does not refuse. The registry is exact in every run of a
  selection if and only if they do not (`SelectionExactIff`). Failing run: `TwinLosesMetric`.
- A pointer is written to a side file called "_" and the serial. A machine with that very serial loses its pointer file
  (`SideFileTakesPointer`); all other machines keep out of each other's way (`FleetProjects`).
- Success does not clear `LastError` or `LastHttpStatusCode`, so a failure that returns after successful polls is not
  reported again (`FailuresReportedOnChange`).

A wipe zeroes some ranges of a device only, so what is proved of a fresh volume is that every byte in these ranges is
zero. The rest of an earlier tenant's data stays on the device and can be read.

## Model

| member | source | states |
|---|---|---|
| BmcLogDelivery.ExactlyOnce | bmc-log-collector/log-collector.go:120-171 | over any run of polls, failing ones anywhere, with append-only generations and successful pointer writes, the output is, generation by generation, the log as last polled: each entry once and in order |
| BmcLogDelivery.AtLeastOnce | bmc-log-collector/log-collector.go:127-175 | with polls cut at any write or before the rename, failing pointer updates, removed pointer files and cut creations in between, every entry of a poll that was not stopped before its last line stays in the output, if no cut creation is left standing when it begins |
| BmcLogDelivery.DeliversIff | bmc-log-collector/log-collector.go:60-175 | after any story at all, such a poll has its whole log written if and only if no cut creation is left standing or all of it had been written before |
| BmcLogDelivery.CompletedPollCovers | bmc-log-collector/log-collector.go:66-171 | the same for one poll in any state: its pointer file is readable, or the log was already written |
| BmcLogDelivery.ReadableUnlessCut | bmc-log-collector/log-pointer.go:19-44 | the pointer file can be read exactly when no creation was cut short at a moment the file was absent, without a removal since |
| BmcLogDelivery.StoryNeverAhead | bmc-log-collector/log-pointer.go:46-76 | over every story the stored pointer never passes an entry that has not been written |
| BmcLogDelivery.StepKeepsNeverAhead | bmc-log-collector/log-pointer.go:46-76 | every event, cut short or not and whatever the pointer file looks like, keeps the stored pointer behind the output and takes no line back |
| BmcLogDelivery.PollCovers | bmc-log-collector/log-collector.go:127-168 | from a pointer that is not ahead, a full walk leaves its whole log written, and the advanced pointer is not ahead either |
| BmcLogDelivery.NothingInvented | bmc-log-collector/log-collector.go:133-165 | whatever happens, each written line is an entry of a log some poll walked, marked with the polled machine |
| BmcLogFleet.FleetProjects | bmc-log-collector/main.go:70-81 | with polls and removals of many machines in any order, each machine's pointer file and lines are those of its own events alone |
| BmcLogFleet.FleetExactlyOnce | bmc-log-collector/main.go:70-81 | exactly once holds for each machine among many |
| BmcLogFleet.FleetAtLeastOnce | bmc-log-collector/main.go:70-81 | and so does at least once |
| BmcLogFleet.SideFileTakesPointer | bmc-log-collector/log-pointer.go:54-71 | a poll takes away the pointer file of a machine whose serial is "_" and the polled one |
| BmcLogFleet.RepeatsBounded | bmc-log-collector/log-collector.go:138-175 | over any story of polls a line is written at most once more than the number of polls whose pointer update was lost |
| BmcLogDelivery.StepDelivers | bmc-log-collector/log-collector.go:138-170 | one walk adds exactly the difference between the deliveries of the longer and the shorter run, across growth and reset |
| BmcLogDelivery.PickedNewSuffix | bmc-log-collector/log-collector.go:138-149 | with the same first timestamp and the pointer at entry k - 1, exactly the entries from k on are emitted |
| BmcLogDelivery.PickedAfterReset | bmc-log-collector/log-collector.go:150-167 | after a changed first timestamp every entry is emitted, and the pointer ends at the newest |
| BmcLogDelivery.FailuresReportedOnChange | bmc-log-collector/log-collector.go:73-103 | reported failures are the polls without a connection or with another status than 200, with repetitions removed; successful polls do not show |
| BmcLogDelivery.FailureKeepsPosition | bmc-log-collector/log-collector.go:73-118 | a failed poll writes no line and leaves LastReadId and FirstCreateTime alone, however the pointer update ends |
| BmcLogDelivery.WalkEffect | bmc-log-collector/log-collector.go:127-171 | a walk appends its emitted lines up to the cut, and the pointer moves only if the update went through |
| BmcLogDelivery.GarbledPointerIsSilent | bmc-log-collector/log-pointer.go:78-94 | from an undecodable pointer file on, polls of any answer and any cut change nothing at all |
| BmcLogDelivery.RemovalRecovers | bmc-log-collector/log-pointer.go:97-125 | removing the file makes the machine start afresh |
| BmcLogDelivery.CutCreationLosesEntries | bmc-log-collector/log-pointer.go:33-42 | a first poll cut while it creates the pointer file, and then a poll that finishes without writing its entry |
| BmcLogCollector.LastAfterIsMaximum | bmc-log-collector/log-collector.go:138-149 | without a reset LastReadId is at least its start value and every id walked |
| BmcLogCollector.PickDecision | bmc-log-collector/log-collector.go:138-153 | comparing an id with LastReadId decides whether it is a strict running maximum above the start value |
| BmcLogCollector.PickedMeans | bmc-log-collector/log-collector.go:138-167 | without a reset exactly the running maxima of a forward pass are emitted, after one every numbered entry, and LastReadId ends accordingly |
| BmcLogCollector.UnreachablePoll | bmc-log-collector/log-collector.go:73-88 | a BMC that cannot be reached is reported unless its error is the stored one, and the error is stored with status 0; position and output stay |
| BmcLogCollector.RefusedPoll | bmc-log-collector/log-collector.go:89-103 | any status but 200 is reported unless it is the stored one, and stored without an error; position and output stay |
| BmcLogCollector.UselessPoll | bmc-log-collector/log-collector.go:108-124 | an answer that does not decode, has no entries or no time on the oldest one changes nothing |
| BmcLogCollector.UsefulPoll | bmc-log-collector/log-collector.go:125-171 | a log adds a line of the machine for each new maximum, or for each numbered entry if its oldest time is another, and moves the pointer |
| BmcLogCollector.SelCollector.WalkEntries | bmc-log-collector/log-collector.go:127-168 | the backward loop writes exactly the emitted entries, oldest first, cut where the process is killed, and ends with the advanced pointer |
| BmcLogCollector.SelCollector.CollectSystemEventLog | bmc-log-collector/log-collector.go:57-176 | a poll's effect on files, output and failure reports, for every answer and every cut, is that of the specification `Poll` |
| BmcLogCollector.SelCollector.UpdateLastPointer | bmc-log-collector/log-pointer.go:46-76 | the pointer file is replaced as a whole or stays as it was; a side file remains only after a cut |
| BmcLogCollector.SelCollector.CheckAndCreatePointerFile | bmc-log-collector/log-pointer.go:19-44 | an existing file is untouched; a new one holds the zero pointer, or is undecodable if cut |
| BmcLogCollector.SelCollector.DeletePtrFileDisappearedSerial | bmc-log-collector/log-pointer.go:97-125 | exactly the files of listed machines and those that resist removal remain, unchanged |
| Exporter.RegistryIsExact | neco-exporter/pkg/exporter/exporter.go:118-161 | under every interleaving, when goroutine i has finished, the registry under its prefix is exactly what its collector just returned with the last value per name, or empty if it failed or did not run |
| Exporter.RunKeepsInv | neco-exporter/pkg/exporter/exporter.go:118-161 | every reachable state relates each goroutine's part of the registry to prev, next and its progress |
| Exporter.StepKeepsInv | neco-exporter/pkg/exporter/exporter.go:130-159 | each single registry access, publication and tick keeps that relation for all goroutines |
| Exporter.StepIsLocal | neco-exporter/pkg/exporter/exporter.go:143-157 | a goroutine's step changes the registry under its own prefix only |
| Exporter.OutcomeIsKept | neco-exporter/pkg/exporter/exporter.go:129-158 | the outcome a goroutine works on is that of its own last Collect call in the tick |
| Exporter.OutcomeFollowsLeadership | neco-exporter/pkg/exporter/exporter.go:119-137 | in every run a collector is skipped exactly when it is leader-only on a non-leader, and health says whether Collect succeeded |
| Exporter.SkippedIff | neco-exporter/pkg/exporter/exporter.go:119-133 | in every run a collector is skipped if and only if it is leader-only and the exporter does not lead in that tick |
| Exporter.TickIsPublished | neco-exporter/pkg/exporter/exporter.go:133-195 | from the start of the program: a collector that needs no leadership or has it shows whether its last call succeeded and how long it took, the others' health is as it was |
| Exporter.LeaderIsPublished | neco-exporter/pkg/exporter/exporter.go:163-173 | leadership is published as 1 or 0 in cluster scope and not at all elsewhere |
| Exporter.OwnNamesPrinted | neco-exporter/pkg/exporter/exporter.go:163-193 | the printed names of leadership, health and duration |
| Exporter.PublishKeepsViews | neco-exporter/pkg/exporter/exporter.go:163-195 | the loop's own metrics never show under a collector's prefix |
| Exporter.HealthIsPublished | neco-exporter/pkg/exporter/exporter.go:175-195 | publication sets health and duration of each collector that is not leader-only or leads, none overwriting another, and leaves those of the others alone |
| Exporter.OwnNameInjective | neco-exporter/pkg/exporter/exporter.go:177-193 | the loop's own metric names determine the metric and the collector |
| Exporter.FinishedIsPrintable | neco-exporter/pkg/exporter/exporter.go:143-150 | in every run a goroutine that gets through its metrics has returned printable labels only |
| Exporter.WantedExact | neco-exporter/pkg/exporter/exporter.go:143-150 | metrics with different names are all kept, each with its value, and nothing else is |
| CollectorSelection.SelectCollectors | neco-exporter/main.go:45-64 | succeeds exactly when every name is a candidate of the scope and every Setup works, and gives these in order, repetitions included |
| CollectorSelection.CandidatesAre | neco-exporter/pkg/collector/registry/registry.go:17-31 | the eight collectors, four of cluster scope that need leadership and four of node scope that do not |
| CollectorSelection.SelectionExactIff | neco-exporter/main.go:47-63 | every finished goroutine of every run has exactly its collector's last outcome in the registry if and only if no collector is named twice |
| CollectorSelection.SelectionValidIff | neco-exporter/pkg/collector/registry/registry.go:17-31 | the registered prefixes meet the loop's assumption in every selection without repetitions |
| CollectorSelection.TwinLosesMetric | neco-exporter/pkg/exporter/exporter.go:154-158 | two goroutines, among any number, that share their names: the one that fails unregisters what the other has just returned |
| Exporter.Exporter.RunCollector | neco-exporter/pkg/exporter/exporter.go:130-158 | one goroutine alone: the registry becomes exact under its prefix, is untouched elsewhere, prev becomes the registered names; it panics exactly on an unprintable label |
| Exporter.Exporter.Goroutine | neco-exporter/pkg/exporter/exporter.go:130-158 | a whole tick of one goroutine: it calls Collect unless the collector is leader-only on a non-leader, notes health and duration, and leaves the registry exact |
| Exporter.Exporter.PublishOwn | neco-exporter/pkg/exporter/exporter.go:163-195 | the loop's own metrics as the specification of a publication has them |
| Exporter.Exporter.StoreAll | neco-exporter/pkg/exporter/exporter.go:143-150 | the loop over returned metrics reaches the state with all of them stored, or panics exactly on an unprintable label |
| Exporter.Exporter.StoreMetric | neco-exporter/pkg/exporter/exporter.go:144-149 | one metric is registered and set under its printed name, and is no longer stale |
| Exporter.Exporter.Sweep | neco-exporter/pkg/exporter/exporter.go:154-158 | stale names are unregistered, leaving exactly what was wanted |
| MetricName.ParseUndoesRender | neco-exporter/pkg/exporter/helper.go:10-27 | a parser recovers the metric name and the exact label map from the printed name |
| MetricName.RenderInjective | neco-exporter/pkg/exporter/helper.go:10-27 | printed names are equal only for equal metric names and labels |
| MetricName.RenderedBare | neco-exporter/pkg/exporter/helper.go:26-26 | without labels a name is neco, scope, prefix and metric name with underscores |
| MetricName.RenderedWith | neco-exporter/pkg/exporter/helper.go:12-26 | with labels they follow in braces, in the order of a dictionary, with commas between them |
| Text.LessIsBefore | neco-exporter/pkg/exporter/helper.go:13-13 | the order of keys: a shorter beginning first, otherwise the smaller character where they differ |
| MetricName.StemsDisjoint | neco-exporter/pkg/exporter/helper.go:26-26 | no name lies under two different prefixes without underscores |
| MetricName.ParseItemsUndoes | neco-exporter/pkg/exporter/helper.go:13-24 | the label list between the braces reads back as the labels |
| MetricName.BuildMetricName | neco-exporter/pkg/exporter/helper.go:10-27 | panics exactly on a label value that needs escaping; otherwise prints the sorted form, whatever order the map yields |
| MetricName.FormatItems | neco-exporter/pkg/exporter/helper.go:15-23 | the loop over the sorted keys prints one item for each, or panics exactly on a value that needs escaping |
| IdentityWatcher.CountDriftsOrPending | neco-exporter/pkg/collector/cluster/ciliumid/identity_watcher.go:92-131 | in every run, with moves and failed listings, each namespace's count is the store's plus its drift, or an event for it is still on its way |
| IdentityWatcher.CountExactIff | neco-exporter/pkg/collector/cluster/ciliumid/identity_watcher.go:112-124 | with nothing on its way the count is the store's plus the drift, hence exact if and only if the drift is zero |
| IdentityWatcher.InfoExactIff | neco-exporter/pkg/collector/cluster/ciliumid/identity_watcher.go:93-110 | with nothing on its way a name's info is the store's if and only if it is not stranded |
| IdentityWatcher.InfoExactOrPending | neco-exporter/pkg/collector/cluster/ciliumid/identity_watcher.go:126-130 | at any time a name's info is the store's, or stranded, or an event about it is still on its way |
| IdentityWatcher.CountExactOrPending | neco-exporter/pkg/collector/cluster/ciliumid/identity_watcher.go:92-131 | if listings succeed and no object changes its namespace, each count is exact or an event for it is still on its way |
| IdentityWatcher.UsualIsOnCourse | neco-exporter/pkg/collector/cluster/ciliumid/identity_watcher.go:92-131 | such runs have no drift and strand nothing |
| IdentityWatcher.QuiescentIsExact | neco-exporter/pkg/collector/cluster/ciliumid/identity_watcher.go:92-131 | with nothing on its way counts are exact with no zero entries and identities equals the store if and only if no count has drifted and no name is stranded |
| IdentityWatcher.RunKeepsCounts | neco-exporter/pkg/collector/cluster/ciliumid/identity_watcher.go:153-176 | store changes, resyncs, listings and commits in any order keep each count on its way to the store's plus the drift |
| IdentityWatcher.RunKeepsNames | neco-exporter/pkg/collector/cluster/ciliumid/identity_watcher.go:153-176 | and each name's info on its way to the store's, or stranded |
| IdentityWatcher.CountStep | neco-exporter/pkg/collector/cluster/ciliumid/identity_watcher.go:112-124 | a namespace stays covered with its drift, although a listing may fail or be older than the commit that uses it |
| IdentityWatcher.NameStep | neco-exporter/pkg/collector/cluster/ciliumid/identity_watcher.go:126-130 | delivering what is pending always ends with the store's info for a name, or with a stranded one |
| IdentityWatcher.MovedIdentityIsMiscounted | neco-exporter/pkg/collector/cluster/ciliumid/identity_watcher.go:112-124 | a reached state and one move after which the old namespace counts an identity it no longer has |
| IdentityWatcher.FailedListingLosesCount | neco-exporter/pkg/collector/cluster/ciliumid/identity_watcher.go:113-124 | a failed listing after which a namespace in use has no count |
| IdentityWatcher.UnreadableIdentityIsStranded | neco-exporter/pkg/collector/cluster/ciliumid/identity_watcher.go:93-97 | a change to unreadable labels after which the old info stays |
| IdentityWatcher.Watcher.Update | neco-exporter/pkg/collector/cluster/ciliumid/identity_watcher.go:92-131 | both maps after an event, for malformed objects and failed listings too |
| IdentityWatcher.NamespaceMeans | neco-exporter/pkg/collector/cluster/ciliumid/identity_watcher.go:44-54 | the namespace is the label's text, (null) without the label, and an error for labels of the wrong type |
| IdentityWatcher.InfoMeans | neco-exporter/pkg/collector/cluster/ciliumid/identity_watcher.go:99-110 | the info is the uid and all labels, and exists exactly if all of them can be read |
| SecurityLabels.PromLabelsMeaning | neco-exporter/pkg/collector/cluster/ciliumid/labels.go:23-43 | a sanitised name has the value of its one source key, or the conflict marker if two or more keys produce it |
| SecurityLabels.SecurityLabelsToPromLabels | neco-exporter/pkg/collector/cluster/ciliumid/labels.go:30-43 | the loop gives that map for every iteration order |
| SecurityLabels.SanitizeLabelName | neco-exporter/pkg/collector/cluster/ciliumid/labels.go:10-21 | prefix, then each character kept or replaced by an underscore |
| SecurityLabels.SanitizeMeans | neco-exporter/pkg/collector/cluster/ciliumid/labels.go:10-21 | character by character what a sanitised name is |
| SecurityLabels.FormatSecurityLabels | neco-exporter/pkg/collector/cluster/ciliumid/labels.go:48-59 | the text is the ordered join of one entry per key, for every iteration order |
| SecurityLabels.FormattedIs | neco-exporter/pkg/collector/cluster/ciliumid/labels.go:48-59 | any ordered arrangement of the entries joins to the same text, so the label map alone determines it |
| SecurityLabels.FormattedOne | neco-exporter/pkg/collector/cluster/ciliumid/labels.go:48-59 | one label is its key, with its value behind an equals sign if it has one |
| SecurityLabels.FormattedTwo | neco-exporter/pkg/collector/cluster/ciliumid/labels.go:48-59 | two entries stand in the order of a dictionary with a comma between them |
| SecurityLabels.DecodeUndoesFormat | neco-exporter/pkg/collector/cluster/ciliumid/labels.go:48-59 | the text decodes to the original map for nonempty keys without = or , and values without , |
| SecurityLabels.IdentityLabels | neco-exporter/pkg/collector/cluster/ciliumid/collector.go:58-69 | the labels of an identity_info metric |
| SecurityLabels.InfoLabelsKeep | neco-exporter/pkg/collector/cluster/ciliumid/collector.go:58-69 | the four fixed labels and all sanitised ones come through unchanged: none overwrites another |
| SecurityLabels.SeriesDistinct | neco-exporter/pkg/collector/cluster/ciliumid/collector.go:58-72 | different identities never share an identity_info series name |
| SecurityLabels.SeriesTellsIdentity | neco-exporter/pkg/collector/cluster/ciliumid/collector.go:58-72 | the labels of a series determine the name, uid and security labels of its identity |
| SecurityLabels.Collect | neco-exporter/pkg/collector/cluster/ciliumid/collector.go:43-74 | exactly one count metric per namespace and one info metric per identity, no metric twice |
| SecurityLabels.CollectedMeans | neco-exporter/pkg/collector/cluster/ciliumid/collector.go:46-72 | the names, labels and values of these metrics |
| IdentitySeries.RegistryShowsReads | neco-exporter/pkg/collector/cluster/ciliumid/collector.go:43-74 | end to end over joint runs of watcher and loop with the collector's two reads at any time: once its goroutine has finished, the registry under its prefix is in one-to-one correspondence with the two maps as read, and each was the store's at its read up to drift and strandedness, or had an event on its way |
| IdentitySeries.RegistryShowsStore | neco-exporter/pkg/collector/cluster/ciliumid/collector.go:43-74 | with both reads at a quiescent moment of a run on course, that is one count per namespace in use and one info per identity of the store, each with its value |
| IdentitySeries.QuiescentCache | neco-exporter/pkg/collector/cluster/ciliumid/identity_watcher.go:133-145 | at quiescence the watcher's two maps are those of the store if and only if the run is on course |
| IdentitySeries.NamesTellMetric | neco-exporter/pkg/exporter/helper.go:10-27 | two of these metrics never share a printed name |
| FillDeleter.Device.Delete | local-pv-provisioner/controllers/deleter.go:19-67 | succeeds if and only if every system call does; success zeroes exactly the bytes less than block size times count behind 0, 1, 10, 100 or 1000 GiB, clipped at the end, and no other; failure changes no byte outside them |
| FillDeleter.Device.FillAt | local-pv-provisioner/controllers/deleter.go:51-64 | from the cursor at a label position, success zeroes exactly the clipped range behind it and failure no byte outside it |
| FillDeleter.Device.WriteClipped | local-pv-provisioner/controllers/deleter.go:54-63 | one block from its start, where the cursor has to stand, to its end or that of the device, whichever comes first |
| FillDeleter.DeleteAt | local-pv-provisioner/controllers/deleter.go:19-67 | the bytes of a device before and after a call, opening it included; without a fault it succeeds |
| FillDeleter.Device.BlockOffsets | local-pv-provisioner/controllers/deleter.go:52-53 | the int64 offsets that are used are exact |
| FillDeleter.Offsets | local-pv-provisioner/controllers/deleter.go:52-53 | wrap-around never reaches an offset that is used |
| FillDeleter.LaterPositionsOutside | local-pv-provisioner/controllers/deleter.go:43-46 | the early break skips no position inside the device |
| FillDeleter.LabelledIff | local-pv-provisioner/controllers/deleter.go:27-33 | the ranges to be zeroed start at 0, 1, 10, 100 and 1000 GiB |
| Provisioner.WipeSafety | local-pv-provisioner/controllers/device_detector.go:275-294 | in every run no step wipes the device of a PV of the node that is not Released, and after a truthful live read a PV appears only in a step that fully wiped its device, also after an unwiped PV was deleted |
| Provisioner.FreshVolumesAreClean | local-pv-provisioner/controllers/device_detector.go:275-294 | detector, reconciler and zero fill together: in every regular run, with tenants writing anything, all bytes of the zeroed ranges are zero on the device of every volume not yet bound |
| Provisioner.UnwipedVolume | local-pv-provisioner/controllers/device_detector.go:277-287 | a run of create, bind, write, release, failed wipe with deletion and one failing live read that ends with a new volume on the tenant's byte |
| Provisioner.UnwipedCreateIff | local-pv-provisioner/controllers/device_detector.go:277-287 | in any state, a detector step brings about a PV of the node without a wipe exactly when cache and API server let createPV through and either the PV is absent and the live read failed other than with NotFound, or it is there without the node's label |
| Provisioner.AdoptedVolume | local-pv-provisioner/controllers/device_detector.go:277-287 | a foreign PV under the device's name that becomes the node's on an unwiped device |
| Provisioner.OneConfiguration | local-pv-provisioner/controllers/device_detector.go:248-264 | from no PVs of the node, all its PVs agree on storage class, mode, directory, filter and, for Filesystem, type in every reachable state, whatever reads and names do |
| Provisioner.DisagreeingRunChangesNothing | local-pv-provisioner/controllers/device_detector.go:248-264 | in every reachable state with a PV of the node a detector run starts if and only if its configuration is the recorded one |
| Provisioner.RunKeepsNames | local-pv-provisioner/controllers/device_detector.go:300-307 | in every run the node's PVs are named after their devices, and their names are used by nobody else |
| Provisioner.RunKeepsUniform | local-pv-provisioner/controllers/device_detector.go:248-264 | in every run the PVs and the detector run in progress record one configuration |
| Provisioner.StampedSetting | local-pv-provisioner/controllers/device_detector.go:314-330 | createPV records the whole configuration and the node, over whatever annotations were there |
| Provisioner.StampedMeans | local-pv-provisioner/controllers/device_detector.go:314-354 | by their keys: the labels and annotations createPV sets, the path, and the phase it leaves |
| Provisioner.RecordsIff | local-pv-provisioner/controllers/device_detector.go:112-132 | a PV records a configuration if each of its annotations says so, the file system type in Filesystem mode only |
| Provisioner.DetectMeans | local-pv-provisioner/controllers/device_detector.go:275-294 | one device in full: which bytes and which PV change, and to what, for every read, wipe and API result |
| Provisioner.ReconcileMeans | local-pv-provisioner/controllers/persistent_volume.go:39-57 | a released PV of the node loses its device's data as far as the wipe goes and is deleted; nothing else changes |
| Provisioner.HasAnnotsSetByAnotherConfiguration | local-pv-provisioner/controllers/device_detector.go:112-132 | true exactly when some PV records another setting or none |
| Provisioner.Controllers.DetectDevice | local-pv-provisioner/controllers/device_detector.go:275-294 | the loop body's effect on PVs and device bytes, and when the device is counted as failed or available |
| Provisioner.Controllers.Do | local-pv-provisioner/controllers/device_detector.go:248-298 | a whole detector run is a run of the steps, one for each device in order, with the exact numbers of available and failed ones, or only its refusal if the configuration disagrees |
| Provisioner.Controllers.ReconcilePV | local-pv-provisioner/controllers/persistent_volume.go:30-61 | only a released PV of the node is wiped, and it is deleted whether or not the wipe worked |
| PvName.NamesCollide | local-pv-provisioner/controllers/device_detector.go:300-303 | two base names on a node collide if and only if their collapsed, lower-cased forms agree after removing a leading dash |
| PvName.SanitizedIsName | local-pv-provisioner/controllers/device_detector.go:300-303 | only lower-case letters, digits, dots and dashes, never two dashes in a row |
| PvName.SanitizeIdempotent | local-pv-provisioner/controllers/device_detector.go:300-303 | sanitising a name again changes nothing |
| PvName.PlainName | local-pv-provisioner/controllers/device_detector.go:300-303 | a name that needs no change is local, the node and the device's base name with dashes |
| PvName.RunIsOneDash | local-pv-provisioner/controllers/device_detector.go:50-50 | any run of other characters than letters, digits and dots counts as one dash |
| PvName.CaseDoesNotCount | local-pv-provisioner/controllers/device_detector.go:302-302 | upper-case letters count as lower-case ones |
| PvName.BaseIsLast | local-pv-provisioner/controllers/device_detector.go:301-301 | the base of a path is its last element, whatever slashes follow |
| PvName.BaseOfRoot | local-pv-provisioner/controllers/device_detector.go:301-301 | and the root or a dot if there is none |
| EndpointSlices.Client.UpdateTargetEndpoints | machines-endpoints/pkg/machines-endpoints/k8sresource.go:82-171 | succeeds if and only if every API call it makes does; success converges, a failed call anywhere leaves an interrupted state, a dry run changes nothing |
| EndpointSlices.Client.DeleteStale | machines-endpoints/pkg/machines-endpoints/k8sresource.go:149-168 | exactly the managed slices outside the applied names are removed, up to the first failure |
| EndpointSlices.ConvergedIsExact | machines-endpoints/pkg/machines-endpoints/k8sresource.go:113-170 | from any state: the managed slices are exactly name-0 to name-(k-1) with k the rounded-up quotient, 1 to max endpoints each, concatenating to the input, others untouched |
| EndpointSlices.InterruptionForgotten | machines-endpoints/pkg/machines-endpoints/k8sresource.go:113-170 | a run cut short anywhere followed by a full run gives the slices of the full run alone |
| EndpointSlices.RepeatIsNoOp | machines-endpoints/pkg/machines-endpoints/k8sresource.go:113-170 | a second full run changes nothing |
| EndpointSlices.OtherTargetKept | machines-endpoints/pkg/machines-endpoints/k8sresource.go:123-168 | a run for one target leaves every slice of another target as it is |
| EndpointSlices.RepeatBothIsNoOp | machines-endpoints/pkg/machines-endpoints/main.go:73-85 | running both targets again changes nothing |
| EndpointSlices.SliceNameInjective | machines-endpoints/pkg/machines-endpoints/k8sresource.go:123-123 | slice names of different targets never meet: they split at the last dash |
| EndpointSlices.SliceNameMeans | machines-endpoints/pkg/machines-endpoints/k8sresource.go:123-123 | slice i is the target's name, a dash and i in decimal |
| EndpointSlices.ManagedMeans | machines-endpoints/pkg/machines-endpoints/k8sresource.go:150-155 | which labels make a slice a managed one of a service |
| EndpointSlices.AppliedMeans | machines-endpoints/pkg/machines-endpoints/k8sresource.go:124-131 | applying sets these labels, endpoints and ports and leaves all other labels |
| MachinesEndpoints.Sync | machines-endpoints/pkg/machines-endpoints/main.go:44-85 | refused exactly for bad flags, which change nothing; otherwise succeeds if and only if every call does, each target with ports brought about in turn with the ports its flags say |
| MachinesEndpoints.BothShown | machines-endpoints/pkg/machines-endpoints/main.go:73-85 | after a whole run both targets have exactly their chunks |
| EndpointSlices.ChunksPartition | machines-endpoints/pkg/machines-endpoints/k8sresource.go:117-117 | chunking loses, repeats and reorders nothing, no chunk is empty or overlong, and all but the last are full |
| EndpointSlices.ChunksAreFewest | machines-endpoints/pkg/machines-endpoints/k8sresource.go:117-117 | the number of chunks is the rounded-up quotient |
| NamedPorts.ParseNamedPorts | machines-endpoints/pkg/machines-endpoints/monitoring_endpoints.go:37-68 | succeeds exactly when all specs are valid and names and ports are each distinct; the result is their name-sorted arrangement |
| NamedPorts.SpecMeans | machines-endpoints/pkg/machines-endpoints/monitoring_endpoints.go:41-55 | a spec is valid exactly as a number from 1 to 65535, a colon and a name of at most 63 lower-case letters, digits and inner dashes |
| NamedPorts.ResultInOrder | machines-endpoints/pkg/machines-endpoints/monitoring_endpoints.go:66-66 | names ascend as in a dictionary |
| NamedPorts.OrderIrrelevant | machines-endpoints/pkg/machines-endpoints/monitoring_endpoints.go:37-68 | any permutation of the specs succeeds alike with the same result |
| NamedPorts.ResultUnique | machines-endpoints/pkg/machines-endpoints/monitoring_endpoints.go:66-67 | the result is determined by the set of specs |
| BmcResolve.HostResolves | bmc-reverse-proxy/pkg/bmc-reverse-proxy/main.go:42-69 | with the map written for a fleet, rackR-roleI, boot-R with or without a prefix, the dashed address, and the serial as it is or in lower case, each written out and with or without a domain, resolve to the machine's BMC |
| BmcResolve.ResolveExact | bmc-reverse-proxy/pkg/bmc-reverse-proxy/main.go:53-69 | every host at all goes to the one machine that claims the decoded name, else to the one that claims it in upper case, else to 0.0.0.0 |
| BmcResolve.LabelDecodes | bmc-reverse-proxy/pkg/bmc-reverse-proxy/main.go:42-51 | each such label decodes to a name the machine claims, or to its serial in lower case |
| BmcResolve.ShortenedExact | bmc-reverse-proxy/pkg/bmc-reverse-proxy/main.go:42-51 | exactly the labels that end in -boot- and a number are cut |
| BmcResolve.Request.DirectorToInner | bmc-reverse-proxy/pkg/bmc-reverse-proxy/main.go:53-69 | the request goes to the resolved address, or 0.0.0.0, on the inner port over https |
| BmcResolve.BmcReverseProxyConfigMapData | machines-endpoints/pkg/machines-endpoints/bmc_configmap.go:17-42 | each name maps to the BMC of the last eligible machine that claims it, and no other name is present |
| BmcResolve.ClaimsUnique | machines-endpoints/pkg/machines-endpoints/bmc_configmap.go:17-42 | two machines of a fleet never claim one name |
| BmcResolve.OwnerIsClaimant | machines-endpoints/pkg/machines-endpoints/bmc_configmap.go:17-42 | in a fleet the map gives each claimed name to its claimant, whatever the order of machines |
| BmcResolve.OwnerIsLast | machines-endpoints/pkg/machines-endpoints/bmc_configmap.go:33-38 | of several machines that claim a name the last one has it |
| BmcResolve.HostnameInjective | machines-endpoints/pkg/machines-endpoints/bmc_configmap.go:25-32 | a host name determines whether it is a boot server, its rack and otherwise role and index |
| HttpProxy.ClassesNeverChange | admission/hooks/validate_httpproxy.go:41-69 | over every history the three class values are those of the creation, and one is nonempty |
| HttpProxy.PolicyNeverChanges | admission/hooks/validate_httpproxy.go:71-75 | a nonempty ip-policy, once set, stays |
| HttpProxy.CreateAllowedIff | admission/hooks/validate_httpproxy.go:42-45 | a creation is admitted exactly if one of the three class values is set |
| HttpProxy.UpdateAllowedIff | admission/hooks/validate_httpproxy.go:47-78 | an update exactly if it keeps all three, and the ip-policy if there is one |
| HttpProxy.PolicyIsEnforced | admission/hooks/mutate_httpproxy.go:72-145 | while an ip-policy is set it names a policy, and every route's filters are free of duplicates and contain those of the first policy of that name |
| HttpProxy.StoredIsFixpoint | admission/hooks/mutate_httpproxy.go:147-168 | sending a stored object back never fails, is admitted and changes at most the order of filters |
| HttpProxy.ReapplyAdmittedIff | admission/hooks/validate_httpproxy.go:47-78 | applying the created manifest again gives the created object up to order, and is admitted if and only if no other ip-policy was added since |
| HttpProxy.ReapplyAtOnceIsAdmitted | admission/hooks/validate_httpproxy.go:47-78 | right after the creation it is always admitted |
| HttpProxy.ReapplyDenied | admission/hooks/validate_httpproxy.go:71-75 | a history of two writes that adds an ip-policy, after which the created manifest is denied |
| HttpProxy.Object.Mutate | admission/hooks/mutate_httpproxy.go:147-168 | fails exactly in the listed cases; otherwise the object is a mutation of what it was |
| HttpProxy.RefusedIff | admission/hooks/mutate_httpproxy.go:44-145 | a manifest is refused exactly for a class field or a route of the wrong type, or an ip-policy that no policy has for its name |
| HttpProxy.MutatedMeans | admission/hooks/mutate_httpproxy.go:44-145 | the default class goes where none is given, the filters of the first policy of that name into every route beside its own, and nothing else changes |
| HttpProxy.Object.MutateIngressClassNameField | admission/hooks/mutate_httpproxy.go:44-70 | the default class is set only where no class is given in any of the three places |
| HttpProxy.Object.SetPolicyField | admission/hooks/mutate_httpproxy.go:81-130 | each route ends with the union of its filters and the policy's, each once, or the call fails on a malformed route |
| HttpProxy.Object.MutatePolicy | admission/hooks/mutate_httpproxy.go:132-145 | refused exactly if no policy has that name or a route is malformed; otherwise the first policy of that name is merged into every route; without the annotation nothing changes |
| HttpProxy.Unique | admission/hooks/mutate_httpproxy.go:108-123 | the same filters, each once |

## Left out

- HTTP, TLS, the Kubernetes client, informer internals, JSON and YAML decoding and leader election: each call is a step or value with a success or failure outcome.
- Clocks and tickers: steps happen at any time; measured durations and leadership are inputs.
- bmc-log-collector: Atoi and time parsing arrive as decoded options; the writer and JSON encoding of an entry never fail; two machines with one serial, polls that overlap in time, the directory listing error and the Prometheus counters are not modelled.
- BmcLogCollector.SelCollector.CheckAndCreatePointerFile: a Stat error other than not-exist counts as an existing file, which is then readable or undecodable.
- Exporter: goroutines interleave as steps on values; `Exporter.RunCollector` is the in-place form of one goroutine without interference. The metrics library's own name validation and locking are not modelled, and values are exact numbers.
- IdentityWatcher: objects of a foreign type never arrive; events are delivered in order, one at a time.
- FillDeleter: arithmetic is in int64 with size plus block size at most the largest int64; closing the device is left out, and a failing seek leaves the cursor anywhere.
- Provisioner: each device of a detector run and each reconcile is one step; the PV list at the start of a run and the reconciler's read are true to the cluster; capacity, affinity, owner references, device listing, ConfigMap parsing and the gauges are left out. A device whose createPV failed is counted both as failed and as available by the program.
- EndpointSlices: Apply never conflicts; the address type, the printed form of a dry run and the listing of addresses are left out. The maximum is positive, as validateMaxEndpointsPerSlice demands.
- NamedPorts.ParseNamedPorts: which error is reported is not modelled, only that there is one.
- BmcResolve: a host with a port but no domain, certificates and the reloading of the map are left out, and so is the ConfigMap for bmc-log-collector.
- HttpProxy: routes that are not maps, and fields the two hooks do not read, are one opaque text; the JSON patch is left out, and deletes are always admitted.
- cep-checker, tcp-keepalive, s3gw, squid-exporter, ceph-extra-exporter, the other admission hooks and the other neco-exporter collectors: their laws are single branches, or weaker forms of those proved here.
- Dockerfiles, scripts, generated code and command-line flags.

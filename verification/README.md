# jappeos_core in Dafny

A model of the parts of jappeos_core whose correctness is hard to see by reading, with proofs of what they keep. Each
module stands for one piece of the daemon. Code that changes objects or loops over local variables is a class or a method
proved against a specification; pure code is functions; the properties are lemmas about the specifications. Where an answer
comes from outside (the kernel, libparted, PipeWire, systemd) it is a parameter, an arbitrary function or `*`.

**Installing a disk** (`Storage*`, `SectorArithmetic`, `PartitionTable`, `PartitionStep`, `CustomExecution`). The validator
plans in whole MiB on a vector of regions; the executor replays the same operations in sectors on a partition table. The
planner's vector refines a layout of partitions and gaps (`StorageRefinement`), the executor's steps simulate it
(`StorageSimulation`), and the region builder starts both in step (`StorageBuilder`). `StorageInstall.ValidateAndInstall` is
the end-to-end result: whatever the validator accepts is executed and gives the boot and root partitions that were promised.
It needs that the sector size divides one MiB, that no partition is mounted at `/` or `/boot` beforehand, and that each
operation's free-region id means the same gap on both sides. The last cannot be dropped: the builder counts gaps below one
MiB and the executor does not, and renumbers after every step. `InitialNameAgreesExactly` says exactly when the ids agree at
the start and `NameAgreesExactly` when they do at any point of a run. `StorageNames` tells it from the disk and the plan:
creates by falling region number, before any resize or removal, are always carried out where they were planned. A plan that
is not of that kind can be refused (`NamesCanDisagree`) or, without any error, end in the wrong gap
(`CarriedOutInTheWrongGap`).

**The PipeWire registry** (`Audio*`). Devices, the per-node index of their paths, streams and active devices, updated by
handlers; and the reconciliation that turns a card's routes into devices. The index always equals a scan, references never
dangle, and a refresh leaves exactly the devices the routes call for, which rests on the bit-packed route ids being injective
and disjoint from node ids. Every refresh is exact precisely for cards whose low 31 bits are not all zero; `AudioImages`
says field by field what exact means, down to the node a route belongs to and the route taken to be active. Where streams,
active and pending devices go is part of every step (`AudioReferences`), and `AudioFrame` says what a refresh leaves alone and
which streams it loses. `AudioMetadata` is the JSON text of a default device, `AudioEcho` an explicit choice and its echo.

**Signals** (`SignalDispatch`). Slot lists, subscriptions and dispatch snapshots share handler cells on the heap while
callbacks subscribe, unsubscribe, move subscriptions and throw.

**Sessions** (`Session*`). Session creation in stages with two guards, stopping, the greeter, unit signals and the installer
timer, against an operating system that counts leaders, pipes and timers and whose answers are given stage by stage.
`SessionRuns` follows one session through a run: when it counts as started, what its unit state decides, and that its
installer starts at most once.

**Smaller pieces**. The install worker as an interleaving of two threads (`InstallWorker`), the first-boot file
(`InitBootFile`), object paths and variants of the D-Bus wrapper (`ObjectPath`, `DBusVariants`) and the PulseAudio registry
(`PulseIndex`).

Properties the code does not have are stated with the input that breaks them or the exact condition under which they hold: a
64-bit request that wraps (`AdjunctionExactly`), a plan for a device without a table (`UnlabelledPlanExactly`), card ids 0
and 2^31 (`EveryRefreshExactExactly`), streams of a card whose routes are gone (`StreamsLostExactly`), a refused client
write of a stream's device (`ClientSetsStreamDevice`), a default name with a NUL (`StoredTargetReadsBackExactly`) or shared
with a device of another node (`ChoiceSurvivesExactly`), two bus names on one signal (`RuleInstalledExactly`,
`RuleGoneExactly`), a greeter that ends by itself (`GreeterStaleExactly`), an install cancelled too early or too late
(`CancelInTimeExactly`), PulseAudio ids, active devices and streams reported before their sink (`IdsInjectiveExactly`,
`ActiveOutlivesDevice`, `StreamsMovedExactly`), and a new PulseAudio default, which is looked up by the name shown to users
and not by the name the server gives it (`DefaultIsNamedExactly`). Two further findings follow from contracts: a client
cannot clear the active device, since the route of "/" is asked for first (`OnSetActiveInputDevice`), and a stop request
without a session id never stops anything (`OnStopSession`).

`dafny verify dfyconfig.toml` checks everything.

## Model

| member | source | states |
|---|---|---|
| StoragePlanner.RemoveAdjacentSpaces | src/services/installer/installer_service.cpp:732-747 | the in-place merging of neighbouring free regions ends with every run of free regions folded into its first |
| StoragePlanner.ApplyCreate | src/services/installer/installer_service.cpp:753-798 | a create is refused, by the first check it fails, or takes its size from the front of the named free region |
| StoragePlanner.ApplyResize | src/services/installer/installer_service.cpp:799-863 | a resize, with its mixed signed and unsigned arithmetic, is refused or moves space between the partition and the free region after it |
| StoragePlanner.ApplyRemove | src/services/installer/installer_service.cpp:864-883 | a remove turns the partition into free space of the same size and merges it |
| StoragePlanner.ApplyOperation | src/services/installer/installer_service.cpp:749-925 | one operation of any kind, as the planner step that every theorem below is about |
| StorageLayout.CoalescedHasNoNeighbours | src/services/installer/installer_service.cpp:732-747 | merging leaves no two neighbouring free regions |
| StorageLayout.CoalescedFixpoint | src/services/installer/installer_service.cpp:732-747 | merging changes nothing when there is nothing to merge |
| StorageLayout.CoalescedKeepsShape | src/services/installer/installer_service.cpp:732-747 | merging keeps the partitions, their order and the free space before each |
| StorageRefinement.ResizeTestExact | src/services/installer/installer_service.cpp:834-841 | for every 64-bit request the signed/unsigned test rejects exactly what exceeds the partition plus the free space after it |
| StorageRefinement.ResizeSubtractionDefined | src/services/installer/installer_service.cpp:834-837 | the signed subtraction of that test overflows exactly for requests in a window above 2^63, none of which fit |
| StorageRefinement.StepAcceptsExactly | src/services/installer/installer_service.cpp:749-925 | an operation is accepted exactly when it names an entry of the right kind, is well formed and fits |
| StorageRefinement.StepRefines | src/services/installer/installer_service.cpp:749-925 | an accepted operation is the corresponding edit of an abstract layout and keeps merged, unmounted free space and the total size |
| StorageRefinement.RunKeepsInvariants | src/services/installer/installer_service.cpp:749-936 | over any accepted list of operations the sum of sizes, merged free space and unmounted free space are kept |
| StorageValidation.VerifyMountpoints | src/services/installer/installer_service.cpp:969-1007 | accepted exactly for a FAT32 boot of 100 MiB and a supported non-FAT32 root of 40960 MiB, with the right warnings |
| StorageValidation.RequirementsInMiB | src/services/installer/installer_service.cpp:969-1007 | the requirements and the warnings written out in MiB and filesystem names |
| StorageValidation.CountMounted | src/services/installer/installer_service.cpp:938-964 | the counting with its captured pointer gives one exactly when one region has the mountpoint, and then points at it |
| StorageValidation.ValidateCustom | src/services/installer/installer_service.cpp:723-967 | a custom plan is accepted exactly when every operation is and the final layout is installable; the warnings are those for its boot and root partitions; the "sizes do not add up" failure is never reported |
| StorageValidation.SizesAlwaysAddUp | src/services/installer/installer_service.cpp:927-936 | the 64-bit sums compared at the end are always equal, so that failure is unreachable |
| StorageValidation.ValidateManual | src/services/installer/installer_service.cpp:671-721 | a manual mount list is accepted exactly when each mount names a different existing partition with a known mountpoint, once boot and once root, both installable; the warnings are those for these two |
| SectorArithmetic.ForMiBExact | src/services/installer/steps/partition_step.cpp:69-73 | a request below 2^44 MiB becomes its exact number of sectors |
| SectorArithmetic.ToMiBExact | src/services/installer/steps/partition_step.cpp:75-79 | sectors become their whole number of MiB |
| SectorArithmetic.Adjunction | src/services/installer/steps/partition_step.cpp:69-79 | a request fits in a run of sectors exactly when it is at most the whole MiB of the run |
| SectorArithmetic.AdjunctionExactly | src/services/installer/steps/partition_step.cpp:69-79 | with 64-bit wrap-around the two conversions agree on every run a disk can have exactly for the requests whose byte count does not wrap into range |
| SectorArithmetic.WrappedAdjunction | src/services/installer/steps/partition_step.cpp:69-79 | a wrapped request is compared as its remainder |
| PartitionTable.BuildPartitionView | src/services/installer/steps/partition_step.cpp:243-282 | the loop over the table lists every partition and every gap of at least one MiB, numbered in order |
| PartitionTable.ViewAt | src/services/installer/steps/partition_step.cpp:243-282 | where partition and gap number i are in that view |
| PartitionTable.PathFound | src/services/installer/steps/partition_step.cpp:284-291 | looking a partition up by its path finds that partition |
| PartitionTable.FreeIdInjective | src/services/installer/steps/partition_step.cpp:81-84 | free-space ids with different numbers differ |
| PartitionStep.UpdateMapKey | src/services/installer/steps/partition_step.cpp:308-337 | an entry follows its partition to a new path with its value, and no other entry changes |
| PartitionStep.StepKeepsSound | src/services/installer/steps/partition_step.cpp:534-669 | every executed operation keeps the table ordered and disjoint and every key of the three maps a live partition |
| CustomExecution.Executor.Create | src/services/installer/steps/partition_step.cpp:538-571 | a create adds the partition at the start of the gap, with its three map entries, or is refused |
| CustomExecution.Executor.Resize | src/services/installer/steps/partition_step.cpp:572-609 | a resize sets the new end if it fits in the partition and the listed gap directly behind it |
| CustomExecution.Executor.Remove | src/services/installer/steps/partition_step.cpp:610-629 | a remove deletes the partition and its map entries |
| CustomExecution.Executor.SetMountpoint | src/services/installer/steps/partition_step.cpp:630-642 | a mountpoint is recorded for a partition only |
| CustomExecution.Executor.SetFilesystem | src/services/installer/steps/partition_step.cpp:643-665 | a filesystem is recorded, the entries follow a changed path, and the partition is marked for formatting |
| CustomExecution.Executor.CollectTargets | src/services/installer/steps/partition_step.cpp:679-708 | "no longer exists" is never reported, and it succeeds exactly when one partition is boot and one is root; each target carries the format flag recorded for its partition |
| CustomExecution.Executor.ExecuteCustom | src/services/installer/steps/partition_step.cpp:485-709 | custom execution succeeds exactly when every operation does and one boot and one root result, and leaves their two targets, to be formatted exactly if the plan created the partition or set its filesystem and did not remove it afterwards |
| CustomExecution.RunFormatsExactly | src/services/installer/steps/partition_step.cpp:534-676 | told from the operations and replies alone: after a run a partition is to be formatted exactly when an operation created it or gave it its filesystem under that path and no later one removed it or moved it to another path |
| CustomExecution.RunKeepsSound | src/services/installer/steps/partition_step.cpp:534-669 | the same over any list of operations |
| CustomExecution.FindTarget | src/services/installer/steps/mount_step.cpp:71-92 | it succeeds exactly when one target has the mountpoint and a device |
| CustomExecution.CollectedTargetsFound | src/services/installer/steps/mount_step.cpp:71-92 | after a successful custom execution it succeeds for both mountpoints |
| StorageSimulation.CreateSimulated | src/services/installer/steps/partition_step.cpp:538-571 | a create the planner accepts passes the sector checks and keeps both sides in step |
| StorageSimulation.ResizeSimulated | src/services/installer/steps/partition_step.cpp:572-609 | the same for a resize |
| StorageSimulation.RemoveSimulated | src/services/installer/steps/partition_step.cpp:610-629 | the same for a remove |
| StorageSimulation.SetMountpointSimulated | src/services/installer/steps/partition_step.cpp:630-642 | the same for a mountpoint |
| StorageSimulation.SetFilesystemSimulated | src/services/installer/steps/partition_step.cpp:643-665 | the same for a filesystem |
| StorageSimulation.StepSimulated | src/services/installer/steps/partition_step.cpp:534-669 | whatever the planner accepts the executor carries out: partition order is the same and every planned size is at most the whole MiB of its sectors |
| StorageBuilder.PopulateDevice | src/services/installer/install_storage_data_builder.cpp:154-188 | the region list handed to the planner, with its own numbering of gaps |
| StorageBuilder.ApplyMountpoints | src/services/installer/install_storage_data_builder.cpp:209-213 | every region listed under a mount source gets its mountpoint, whatever the source is called, and nothing else changes |
| StorageBuilder.ShownRegionsExactly | src/services/installer/install_storage_data_builder.cpp:174-213 | the regions with their mounts are the planner's initial regions exactly when no mount source is the id of a free region |
| StorageBuilder.InitialShape | src/services/installer/install_storage_data_builder.cpp:154-188 | the planner starts from the partitions in order and the whole MiB of every gap |
| StorageBuilder.InitiallyRelated | src/services/installer/install_storage_data_builder.cpp:128-214 | planner and executor start in step exactly when no partition is mounted at the boot or root mountpoint |
| StorageBuilder.InitiallySound | src/services/installer/install_storage_data_builder.cpp:128-214 | the initial regions satisfy every planner invariant |
| StorageInstall.RunSimulated | src/services/installer/steps/partition_step.cpp:534-669 | the forward simulation over any accepted list of operations |
| StorageInstall.AcceptedPlanInstalls | src/services/installer/steps/partition_step.cpp:534-709 | an accepted plan executes and yields one boot of at least 100 MiB and one root of at least 40960 MiB with the promised filesystems |
| StorageInstall.ValidateAndInstall | src/services/installer/steps/partition_step.cpp:485-709 | the validator, the executor and the target lookup run one after the other: a plan is accepted exactly when every operation is and the layout is installable, whatever is accepted ends in the state of the executed run, and both targets are found there, large enough, with the promised filesystems, and to be formatted exactly if the plan made them or set their filesystem |
| StorageInstall.TargetAsPlanned | src/services/installer/steps/partition_step.cpp:692-703 | a target has the planned filesystem and mountpoint; the filesystem is one of the four supported ones if it is to be formatted, and is already on the partition if it is not |
| StorageInstall.PlannedSizeHeld | src/services/installer/steps/partition_step.cpp:69-79 | every planned size is held by its sectors |
| StorageInstall.InitialNameAgreesExactly | src/services/installer/install_storage_data_builder.cpp:167-173 | before any operation a free-region id means the same gap on both sides exactly when no gap below one MiB precedes it |
| StorageInstall.NameAgreesExactly | src/services/installer/steps/partition_step.cpp:258-264 | at any point of a run the id of a create means the same gap on both sides exactly when the executor lists that gap under the same number |
| StorageInstall.UnlabelledCreateExactly | src/services/installer/steps/partition_step.cpp:506-516 | on a device without a table a create the planner accepts is executed exactly when it fits in the usable range of the new table |
| StorageUnlabelled.UnlabelledPlanExactly | src/services/installer/steps/partition_step.cpp:506-516 | a whole plan accepted for such a device is executed exactly when its creates fit, one after the other, in the whole MiB of the usable range |
| StorageUnlabelled.OnlyCreates | src/services/installer/installer_service.cpp:749-925 | on such a device only creates in the one free region are ever accepted |
| StorageInstall.NamesCanDisagree | src/services/installer/steps/partition_step.cpp:258-264 | one such gap is enough: a create the planner accepts and the executor does not know |
| StorageNames.CreateKeepsNumbers | src/services/installer/steps/partition_step.cpp:258-264 | after a create in the region numbered n, every region numbered up to n is still the gap the executor gives that number, the rest of the region included |
| StorageNames.OrderlyPlansAgree | src/services/installer/steps/partition_step.cpp:258-264 | told from disk and plan alone: ids agree all along when creates come by falling region number, none after a resize or removal, and of the gaps up to the first number all but the last hold a whole MiB |
| StorageNames.OrderlyPlanInstalls | src/services/installer/steps/partition_step.cpp:534-709 | an accepted plan of that kind is carried out and yields the boot and root targets |
| StorageNames.WrongGapAccepted | src/services/installer/installer_service.cpp:749-1007 | the planner accepts a boot partition in the first gap and a root partition of 50000 MiB in the second |
| StorageNames.CarriedOutInTheWrongGap | src/services/installer/steps/partition_step.cpp:258-264 | and without any small gap the executor carries both out, with the root partition one MiB long in the third gap |
| AudioModel.RouteKeyInjective | src/services/audio/audio_service.cpp:75-78 | route keys differ for different directions or indexes |
| AudioModel.RouteIdInjectiveExactly | src/services/audio/audio_service.cpp:349-358 | two route ids are equal exactly when direction bit, index and the low 31 bits of the card are |
| AudioModel.RouteIdsAvoidNodesExactly | src/services/audio/audio_service.cpp:349-358 | a card's route ids avoid every node id exactly when its low 31 bits are not all zero or the direction is output |
| AudioModel.PathsInjective | src/services/audio/audio_service.cpp:349-358 | device paths made from different ids differ |
| AudioRegistry.Registry.FindDevicePathByNodeId | src/services/audio/audio_service.cpp:2598-2627 | the result is "/" exactly when the node has no device, else one of its devices of the best rank |
| AudioRegistry.Registry.BestMatch | src/services/audio/audio_service.cpp:2650-2674 | the least match by rank and then by path |
| AudioRegistry.Registry.FindDevicePathByTargetObject | src/services/audio/audio_service.cpp:2645-2690 | nothing for a target without a match, else a preferred device of the best match's node |
| AudioRegistry.Registry.AddLogicalDevice | src/services/audio/audio_service.cpp:1007-1066 | the device is written and the per-node index still equals a scan of the table |
| AudioRegistry.AddedMeans | src/services/audio/audio_service.cpp:1027-1052 | field by field what is stored: all that is given, and the node name and serial of the node's own device if there is one |
| AudioRegistry.Registry.UnlistPath | src/services/audio/audio_service.cpp:1049-1058 | a path leaves its old node's list, and an emptied list goes |
| AudioRegistry.Registry.ListPath | src/services/audio/audio_service.cpp:1060-1062 | a path joins its node's list once |
| AudioRegistry.Registry.RebuildNodeDevicePaths | src/services/audio/audio_service.cpp:1109-1122 | the rebuilt entry agrees with the table |
| AudioRegistry.Registry.RemoveLogicalDevice | src/services/audio/audio_service.cpp:1068-1107 | the device goes; streams and active devices that named it move to its node's preferred device, active ones only if the direction fits |
| AudioRegistry.Registry.RemoveDeviceNode | src/services/audio/audio_service.cpp:1245-1256 | exactly the node's devices go, and streams and active devices on them are left without one |
| AudioRegistry.Registry.RefreshActiveDevicesForNode | src/services/audio/audio_service.cpp:1124-1243 | a pending choice on the node freezes both active devices until its route is active; otherwise both follow the preferred device |
| AudioReferences.ActivesFollowNode | src/services/audio/audio_service.cpp:1157-1243 | told without the functions it is computed by: with no pending choice on the node an active device on it gives way to a preferred device of the right direction or to none, a missing one is filled by a preferred device whose route is active, and every other stays; a pending choice on it keeps both and ends when its route is active |
| AudioRegistry.Registry.SnapshotNodes | src/services/audio/audio_service.cpp:1622-1644 | one entry for each of the card's nodes; each text is empty exactly when it is on all the node's devices of the card and else that of one of them, and so for the profile device |
| AudioRegistry.NodeHasDirection | src/services/audio/audio_service.cpp:1622-1661 | a node whose devices on the card all have one direction is among the nodes of that direction |
| AudioRegistry.Registry.CollectDirectionNodes | src/services/audio/audio_service.cpp:1646-1656 | the nodes of a direction in id order |
| AudioRegistry.Registry.RemoveStaleRouteDevices | src/services/audio/audio_service.cpp:1658-1677 | exactly the stale route devices go; what referred to one refers to a preferred device of its node or, as the active device, to none |
| AudioRegistry.Registry.RemoveFallbackDevices | src/services/audio/audio_service.cpp:1679-1694 | exactly the nodes' own paths go, with the same for what referred to them |
| AudioRegistry.Registry.RefreshDirection | src/services/audio/audio_service.cpp:1696-1893 | the table is the one of the specification; references leave the devices removed from it and the active devices of the nodes are read again |
| AudioRegistry.Registry.RefreshLogicalDevicesForRouteDevice | src/services/audio/audio_service.cpp:1600-1897 | both directions, output first, from one snapshot of the card: the table, and where streams, active and pending devices end up |
| AudioReferences.RefsMovedTwice | src/services/audio/audio_service.cpp:1068-1122 | removing devices one after the other moves references as removing them at once: to a preferred device of the same node among those left |
| AudioReferences.NodeGone | src/services/audio/audio_service.cpp:1245-1256 | with all devices of a node gone, whatever referred to one refers to nothing |
| AudioReferences.TargetFound | src/services/audio/audio_service.cpp:2645-2690 | what a lookup finds exists, is on the best match's node and ranks no worse than any match |
| AudioReferences.PreferredMeans | src/services/audio/audio_service.cpp:2599-2628 | a preferred device of a node is one of its devices and no worse than any other: an active route comes before availability, and none is preferred only on a node without devices |
| AudioModel.NamesExactly | src/services/audio/audio_service.cpp:2656-2659 | a device is named by its node name, serial, node id or object id, as far as it has them, and by nothing else |
| AudioFrame.RefreshKeepsReferences | src/services/audio/audio_service.cpp:1600-1897 | a refresh leaves alone, with its streams, every path that is none of the card's, and if it is on none of the card's nodes it stays active and pending |
| AudioFrame.DroppedStreamsFollow | src/services/audio/audio_service.cpp:1770-1897 | with routes, a stream of a dropped device follows to a preferred device of the same node |
| AudioFrame.StreamsLostExactly | src/services/audio/audio_service.cpp:1732-1766 | when a card's routes are gone, a stream of a route device loses its device exactly when its node had nothing but such devices, although the node has its own device again afterwards |
| AudioFrame.NoneStaysNone | src/services/audio/audio_service.cpp:1600-1897 | a stream without a device stays without one |
| AudioRefresh.RefreshMakesExact | src/services/audio/audio_service.cpp:1696-1893 | after refreshing a direction of a card in range its route devices are exactly the images of the kept routes (described field by field by `AudioImages.ImageShows`) with no fallback left, or one fallback per node |
| AudioRefresh.RefreshLeaves | src/services/audio/audio_service.cpp:1696-1893 | every other device stays as it is, present or absent |
| AudioRefresh.RefreshExact | src/services/audio/audio_service.cpp:1895-1896 | both directions are exact after a refresh of a card whose low 31 bits are not all zero |
| AudioRefresh.EveryRefreshExactExactly | src/services/audio/audio_service.cpp:349-358 | over all 32-bit card ids: every refresh of the card is exact exactly when its low 31 bits are not all zero |
| AudioRefresh.CollidingCardNotExact | src/services/audio/audio_service.cpp:349-358 | for the other two card ids an input route can take the path of a node's own device and is removed again |
| AudioRegistry.CardRefreshedExact | src/services/audio/audio_service.cpp:1600-1897 | the same for the refresh of a snapshot and a route table |
| AudioEvents.AdoptDevices | src/services/audio/audio_service.cpp:826-838 | exactly the card-less devices whose node name implies the card adopt it |
| AudioEvents.HandleCardGlobal | src/services/audio/audio_service.cpp:819-852 | a refresh follows exactly when a device was adopted, and still uses the old description |
| AudioEvents.BindDeviceProxy | src/services/audio/audio_service.cpp:1337-1360 | a bound card is never replaced |
| AudioEvents.BoundMeans | src/services/audio/audio_service.cpp:1337-1360 | a card bound anew has no routes and has not said whether it takes any; a bound one, or a failed bind, changes nothing |
| AudioEvents.AddDeviceNode | src/services/audio/audio_service.cpp:902-965 | the node's device is written, and its card is refreshed from the table that has it |
| AudioEvents.AddStreamNode | src/services/audio/audio_service.cpp:967-1005 | a new stream gets the lookup result for its target; a known one is left alone |
| AudioEvents.RemoveStreamNode | src/services/audio/audio_service.cpp:1258-1272 | exactly the node's stream goes |
| AudioEvents.HandleRegistryGlobalRemove | src/services/audio/audio_service.cpp:867-900 | everything keyed by the id goes, and what referred to a device of the node refers to nothing |
| AudioEvents.RemovedNodeForgotten | src/services/audio/audio_service.cpp:1245-1256 | afterwards no index entry, stream or active device mentions the node |
| AudioNodeInfo.InformDevices | src/services/audio/audio_service.cpp:1922-1954 | every device of the node learns the new properties; a route device keeps its name, availability and known profile device |
| AudioNodeInfo.InformedMeans | src/services/audio/audio_service.cpp:1922-1954 | field by field what each device of the node takes over and what it keeps, with no other device changed |
| AudioNodeInfo.ChooseActiveRoute | src/services/audio/audio_service.cpp:1956-2006 | among the routes of the selected profile device one is kept active, an active one if any, else an available one; the node's other known routes are not |
| AudioNodeInfo.AtMostOneActive | src/services/audio/audio_service.cpp:1956-2006 | at most one known route of the node is active, and exactly one when a route has the selected profile device |
| AudioNodeInfo.HandleNodeInfo | src/services/audio/audio_service.cpp:1899-2043 | the steps in order, with index and references intact and the node's stream on the lookup result |
| AudioRoutes.CurrentRouteIsOnlyActive | src/services/audio/audio_service.cpp:1587-1595 | after a report of the current route it is the one active route of its direction, and no other direction changed |
| AudioRoutes.ReportedMeans | src/services/audio/audio_service.cpp:1573-1595 | field by field what a reported route becomes: what the report gives, else what was known of it; of any other route only the active mark can change |
| AudioRoutes.HandleDeviceRouteParam | src/services/audio/audio_service.cpp:1573-1598 | the route is updated, keeping what the report does not give, and the refreshed card is exact |
| AudioRoutes.OutcomeExact | src/services/audio/audio_service.cpp:1600-1897 | every refresh of a bound card whose low 31 bits are not all zero leaves it exactly as its routes say |
| AudioRoutes.CardExactMeans | src/services/audio/audio_service.cpp:1600-1897 | what that says of the table alone, for a node of one direction: route devices sit at the paths of the card's routes, every usable or active route has its device, the node has its own exactly when there is no route, and every device shows its route and the node the route belongs to, field by field |
| AudioRoutes.CardExactShown | src/services/audio/audio_service.cpp:1696-1893 | in every direction with a node: a route has a device exactly when it is not unavailable, or active, or inferred active, and the device is of the node with the least id whose profile device the route uses, else of the one with the least id, with that node's name and serial; without routes every node has its own device |
| AudioImages.SelectedIsRouteNode | src/services/audio/audio_service.cpp:1833-1846 | the node taken for a route is the one with the least id whose profile device is the route's card device, or the one with the least id when there is none |
| AudioImages.InferredExactly | src/services/audio/audio_service.cpp:1765-1796 | a route is inferred active exactly when none of its direction is reported active and among those in use by a node it is the foremost: available before unavailable, then by index |
| AudioImages.ImageShows | src/services/audio/audio_service.cpp:1853-1885 | every field of a route's device, its shown name included: the first non-empty of the route's and the node's texts, with the card's description behind it unless it already occurs there |
| AudioRoutes.HandleDeviceInfo | src/services/audio/audio_service.cpp:1396-1425 | a card that supports routes forgets those it had |
| AudioControl.HandleMetadataProperty | src/services/audio/audio_service.cpp:2185-2268 | with no pending choice a named default makes the lookup result active; a pending choice ends, and the result becomes active, exactly when both exist on different nodes, and otherwise both stay; a stream target becomes the lookup result |
| AudioControl.SetRouteByDevicePath | src/services/audio/audio_service.cpp:2367-2435 | when asking for a route succeeds |
| AudioControl.SetDefaultDevice | src/services/audio/audio_service.cpp:2437-2596 | exactly when it succeeds, and that the device is active and pending, or not pending if its route cannot be set |
| AudioControl.OnSetActiveInputDevice | src/services/audio/audio_service.cpp:2724-2728 | a path that names no device, "/" included, is refused before anything changes; otherwise which device becomes active and which stays pending is determined |
| AudioControl.OnSetActiveOutputDevice | src/services/audio/audio_service.cpp:2730-2740 | the same for outputs; on success every output stream is on the device, on failure each is there or where it was |
| AudioControl.SetStreamDevice | src/services/audio/audio_service.cpp:554-594 | exactly when a stream is moved, and only it |
| AudioControl.ClientSetsStreamDevice | src/dbus/dbus_wrapper.h:2261-2271 | the property stores the value before the callback decides, so references stay intact exactly when the device exists |
| AudioRun.Handle | src/services/audio/audio_service.cpp:793-900 | every event does its step on devices, streams, active and pending devices, cards and metadata, and keeps the registry healthy, except exactly the client write of an unknown device |
| AudioRun.Run | src/services/audio/audio_service.cpp:793-900 | from any healthy registry, over any list of events up to such a write: one step per event, every state in between sound |
| AudioRun.Start | src/services/audio/audio_service.cpp:442-470 | a new registry is healthy, so runs can start from it |
| AudioRun.HealthyMeans | src/services/audio/audio_service.cpp:1007-1122 | what healthy means: the index entry of a node is exactly its devices, once each, and absent when there are none; nothing dangles |
| AudioRun.NamedDefaultFollowed | src/services/audio/audio_service.cpp:2185-2252 | the same for every such event in a run, told of the states before and after it |
| AudioMetadata.EscapeJsonString | src/services/audio/audio_service.cpp:308-318 | quotes and backslashes are escaped, one pass |
| AudioMetadata.ExtractJsonField | src/services/audio/audio_service.cpp:216-253 | the scanner for quoted fields, as a function of the text |
| AudioMetadata.ExtractJsonNumericField | src/services/audio/audio_service.cpp:255-281 | the scanner for numeric fields |
| AudioMetadata.NumericFieldMeans | src/services/audio/audio_service.cpp:270-280 | it gives a maximal run of digits with an optional minus, exactly when the field starts with one |
| AudioMetadata.ParseMetadataTarget | src/services/audio/audio_service.cpp:283-306 | which text is a value's target |
| AudioMetadata.TrimmedMeans | src/services/audio/audio_service.cpp:207-214 | trimming takes all white space off both ends and nothing else |
| AudioMetadata.StoredTargetReadsBackExactly | src/services/audio/audio_service.cpp:2484-2512 | the stored default reads back as its target exactly when the target has no NUL |
| AudioMetadata.EchoResolves | src/services/audio/audio_service.cpp:2484-2512 | an echoed default resolves to an existing device that ranks no worse |
| AudioEcho.EchoLeavesChoiceExactly | src/services/audio/audio_service.cpp:2514-2533 | the echo of an explicit choice leaves it alone exactly when it resolves to a device of the chosen device's node, and otherwise ends it |
| AudioEcho.ChoiceSurvivesExactly | src/services/audio/audio_service.cpp:2514-2533 | told before the choice: exactly when the best match of the stored name is on the same node |
| AudioEcho.ChooseAndHear | src/services/audio/audio_service.cpp:2437-2545 | the choice and its echo run one after the other |
| AudioMetadata.BareName | src/services/audio/audio_service.cpp:283-306 | a bare name is its own target |
| SignalDispatch.Connection.SubscribeSignal | src/dbus/dbus_wrapper.cpp:486-507 | a new slot at the end, the match rule exactly when the list is new; whether rules stay balanced and whether the rule for this bus name is there is exact |
| SignalDispatch.Connection.Destroy | src/dbus/dbus_wrapper.cpp:509-529 | the cell is emptied for every snapshot, the slot freed, and with the last one the list goes; no rule is left for the key exactly when the bus names agree |
| SignalDispatch.Connection.MoveSubscription | src/dbus/dbus_wrapper.cpp:531-539 | the new object owns the same slot and the old one none |
| SignalDispatch.PlacedAdded | src/dbus/dbus_wrapper.cpp:498-503 | each active subscription's index still denotes its own slot after a subscription, list re-creation included |
| SignalDispatch.PlacedEmptied | src/dbus/dbus_wrapper.cpp:519-528 | and after an unsubscription; the list goes exactly with its last subscription |
| SignalDispatch.PlacedMoved | src/dbus/dbus_wrapper.cpp:531-539 | and after a move |
| SignalDispatch.Connection.RunCallback | src/dbus/dbus_wrapper.cpp:470-478 | a callback that subscribes, unsubscribes, moves and throws as it likes keeps all of this, and its actions up to the first throw happen to the program's subscriptions |
| SignalDispatch.Connection.TakeTurn | src/dbus/dbus_wrapper.cpp:468-478 | one slot's turn: the handler is called, and its script runs, exactly when it has not ended by then |
| SignalDispatch.Connection.Perform | src/dbus/dbus_wrapper.cpp:484-560 | what one action does to the program's subscription objects: a new active one, one that falls silent, or one that falls silent and is taken over |
| SignalDispatch.Connection.HandleSignal | src/dbus/dbus_wrapper.cpp:449-482 | a delivery walks its snapshot: each cell that has not ended by its turn is called with its own callback, nothing else is, and the program's subscriptions end as the scripts of the calls made leave them, one after the other |
| SignalDispatch.RunsExactlyOnce | src/dbus/dbus_wrapper.cpp:464-479 | a handler subscribed throughout runs exactly once |
| SignalDispatch.RunsInOrder | src/dbus/dbus_wrapper.cpp:464-479 | in subscription order |
| SignalDispatch.RunsExactlyWhen | src/dbus/dbus_wrapper.cpp:464-479 | a handler runs exactly when it was subscribed at the start and has not ended by its turn |
| SignalDispatch.RuleExactlyWhenSubscribed | src/dbus/dbus_wrapper.cpp:498-528 | with one bus name per key a key's rule is on the bus, once, exactly when it has an active subscription |
| SignalDispatch.RuleInstalledExactly | src/dbus/dbus_wrapper.cpp:498-507 | with one rule per listed key, a subscription leaves the rule for its bus name installed exactly when the key had no list or the name is the key's |
| SignalDispatch.RuleGoneExactly | src/dbus/dbus_wrapper.cpp:519-528 | the end of a key's last subscription leaves no rule for the key exactly when its bus name is the key's; otherwise the first rule leaks |
| SignalDispatch.SecondBusNameGetsNoRule | src/dbus/dbus_wrapper.cpp:505-506 | an instance: with two bus names on one key the second rule is never installed |
| SessionLifecycle.SessionManager.AuthenticateAndOpenPAMSession | src/services/session_manager/session_manager_service.cpp:668-817 | a leader and an open control pipe on success; on every failure both are gone |
| SessionLifecycle.SessionManager.CleanupPam | src/services/session_manager/session_manager_service.cpp:377-412 | the guard closes the pipe once and reaps the leader once |
| SessionLifecycle.SessionManager.TerminatePAMForSession | src/services/session_manager/session_manager_service.cpp:1194-1233 | the session's leader is reaped and its pipe closed |
| SessionLifecycle.SessionManager.CreateSession | src/services/session_manager/session_manager_service.cpp:356-531 | a session is created exactly when every answer is positive and its id is new; every failing stage restores what is owned; success adds a session that is starting, with the unit state that was read and its two start jobs, and retires an active greeter |
| SessionLifecycle.SessionManager.EnterSession | src/services/session_manager/session_manager_service.cpp:457-493 | registration is taken back when start-up fails, leaving leader and pipe to the outer guard |
| SessionLifecycle.SessionManager.StartUp | src/services/session_manager/session_manager_service.cpp:490-493 | a start succeeds exactly when the user manager, both units and the unit state answer, and then leaves the three subscriptions, the two start jobs and the unit state |
| SessionLifecycle.SessionManager.StopSession | src/services/session_manager/session_manager_service.cpp:533-607 | everything the session owned is released; when and how a login session follows; the recursion ends |
| SessionLifecycle.SessionManager.CreateLoginSession | src/services/session_manager/session_manager_service.cpp:319-340 | with an active greeter nothing changes; otherwise the automatic login's session is added if it can be created, else the greeter's, which the greeter fields then name, or nothing changes |
| SessionLifecycle.SessionManager.StopLoginSession | src/services/session_manager/session_manager_service.cpp:342-354 | the greeter's session goes and the fields are cleared, unless it has none |
| SessionLifecycle.SessionManager.TryAutologinSession | src/services/session_manager/session_manager_service.cpp:609-666 | one more session, of the live or the selected user, or no change |
| SessionLifecycle.SessionManager.RefreshSessionState | src/services/session_manager/session_manager_service.cpp:858-890 | nothing without an answer; with one, the entry and the installer timer, or the stop, that the answer calls for; a starting session is never stopped |
| SessionLifecycle.SessionManager.HandleSessionActiveStateChanged | src/services/session_manager/session_manager_service.cpp:1252-1316 | the state is recorded; the timer is set exactly for the live user's started session that is active for the first time; a started session whose unit failed or ended is stopped |
| SessionLifecycle.SessionManager.EvaluateSessionState | src/services/session_manager/session_manager_service.cpp:1318-1341 | when a session is stopped for its unit state, and that nothing changes otherwise |
| SessionEvents.OnCreateSession | src/services/session_manager/session_manager_service.cpp:166-197 | a session is created exactly for root or the greeter's user when everything answers; a refusal changes nothing, a creation adds the session and retires the greeter |
| SessionEvents.OnStopSession | src/services/session_manager/session_manager_service.cpp:199-272 | only the owner stops a session, everything else changes nothing, and a request with an empty id always fails |
| SessionEvents.HandleSessionJobRemoved | src/services/session_manager/session_manager_service.cpp:892-920 | a failed start job stops the session; a good one is taken out once, the others staying in order, and nothing else changes while one is left; with the last good one the session has started and its unit state is read |
| SessionEvents.BegunStaysBegun | src/services/session_manager/session_manager_service.cpp:915-919 | a session that counts as started goes on counting as such until its leader is gone |
| SessionRuns.StartedAfterBothJobs | src/services/session_manager/session_manager_service.cpp:892-1080 | in every run from an empty manager, every session was created with two start jobs, each of which is still listed or ended with "done" since, and one that counts as started has none listed |
| SessionRuns.UnitStateDecides | src/services/session_manager/session_manager_service.cpp:1252-1341 | reading the unit state of a started session keeps it exactly when the unit has not failed, gives no bad result and did not end after success; while it is starting the state is only recorded |
| SessionRuns.InstallerScheduled | src/services/session_manager/session_manager_service.cpp:1261-1275 | a reading that keeps the session gives it a new timer exactly when it is the live user's, has started, is active and was never scheduled; no other timer comes or goes |
| SessionRuns.InstallerForLiveUserOnly | src/services/session_manager/session_manager_service.cpp:1261-1311 | in every run only started sessions of the live user in the live environment ever have an installer scheduled or started |
| SessionRuns.InstallerAtMostOnce | src/services/session_manager/session_manager_service.cpp:1276-1311 | as long as a session keeps its leader its installer starts at most once |
| SessionEvents.FireTimer | src/services/session_manager/session_manager_service.cpp:1276-1311 | the timer's session is there and waits for it; its installer starts if it is still active, and only once |
| SessionEvents.GreeterFlagGoesStale | src/services/session_manager/session_manager_service.cpp:549-584 | the greeter flag outlives a greeter that ends by itself |
| SessionEvents.GreeterStaleExactly | src/services/session_manager/session_manager_service.cpp:549-584 | a stop leaves the flag naming no session exactly when it was set and the greeter itself was stopped or already gone |
| SessionEvents.Destroy | src/services/session_manager/session_manager_service.cpp:73-114 | no leader, pipe or timer is left |
| SessionEvents.Run | src/services/session_manager/session_manager_service.cpp:44-607 | from any valid state, over any events: one step per event, and leaders, pipes, timers and subscriptions correspond to sessions after each |
| SessionEvents.Lifetime | src/services/session_manager/session_manager_service.cpp:44-607 | from start to destruction every leader ever started is reaped exactly once |
| SessionEvents.QuiescentCounts | src/services/session_manager/session_manager_service.cpp:319-607 | as many leaders and open pipes as sessions, none reaped while its session lives, subscriptions for exactly the sessions |
| SessionSystem.AsManyLeadersAsSessions | src/services/session_manager/session_manager_service.cpp:457-468 | distinct leaders and pipes per entry make the counts equal |
| InstallWorker.StepKeepsCoherent | src/services/installer/install_controller.cpp:46-117 | one step of either thread keeps the state Running exactly while a worker is or is about to be there |
| InstallWorker.EveryRunComplete | src/services/installer/install_controller.cpp:46-117 | under every interleaving every finished run went through all steps, or stopped at a check that saw the cancel, or at a step that threw |
| InstallWorker.FromTheStart | src/services/installer/install_controller.cpp:46-117 | the same for every interleaving from the idle controller |
| InstallWorker.CompleteRunsInOrder | src/services/installer/install_controller.cpp:70-117 | such a run executes a prefix of the steps in order, ends once, and succeeds exactly when every step returned |
| InstallWorker.NothingRunsAfterCancelSeen | src/services/installer/install_controller.cpp:78-83 | after a check that saw the cancel the run only ends |
| InstallWorker.ProgressRises | src/services/installer/install_controller.cpp:87-113 | progress never falls, stays within 100 and is 100 exactly on success |
| InstallWorker.ProgressIsShare | src/services/installer/install_controller.cpp:83-113 | every reported progress is the number of steps executed so far times the whole percents of one step, and 100 after all of them |
| InstallWorker.RunInstall | src/services/installer/install_controller.cpp:70-117 | the loop itself, for any answers of the flag and the steps |
| InstallWorker.CancelHonoured | src/services/installer/install_controller.cpp:61-83 | a cancel after the worker's reset lets at most the current step finish |
| InstallWorker.CancelBeforeResetIsLost | src/services/installer/install_controller.cpp:61-72 | one before it changes nothing |
| InstallWorker.CancelInTimeExactly | src/services/installer/install_controller.cpp:61-113 | when the flag is stored, the next run to finish cannot succeed exactly when the worker is at a check, in a step that is not the last, or done without success; before the reset, in the last step and at the end the request is lost |
| InitBootFile.InitBootFile.ReadFull | src/services/installer/init_boot_file.h:114-135 | the table is what the lines say, comments, blank lines and lines without separator skipped |
| InitBootFile.InitBootFile.Write | src/services/installer/init_boot_file.h:146-153 | a value with a newline is refused, any other appended as one line |
| InitBootFile.InitBootFile.Read | src/services/installer/init_boot_file.h:137-144 | the value or nothing; not from a file open for writing |
| InitBootFile.ReadsBack | src/services/installer/init_boot_file.h:114-153 | reading a key gives its last written value or nothing |
| InitBootFile.WriteThenRead | src/services/installer/init_boot_file.h:114-153 | the same through the object, with refused writes in between |
| InitBootFile.FoundExactlyWhenPlain | src/services/installer/init_boot_file.h:120-133 | a written key is found again exactly when it is no comment and has neither separator nor newline |
| ObjectPath.IsValid | src/dbus/dbus_wrapper.cpp:130-146 | the cursor loop accepts exactly the object paths of the specification |
| ObjectPath.IsValidElement | src/dbus/dbus_wrapper.cpp:117-128 | a non-empty run of letters, digits and underscores |
| ObjectPath.ElementCharsExactly | src/dbus/dbus_wrapper.cpp:117-128 | the characters of an element, listed one by one |
| ObjectPath.ChildUndone | src/dbus/dbus_wrapper.cpp:85-115 | a child is a path, and its parent and leaf are what it was made of |
| ObjectPath.ParentThenChild | src/dbus/dbus_wrapper.cpp:85-115 | off the root a path is the child of its parent by its leaf |
| DBusVariants.LosslessExactly | src/dbus/dbus_wrapper.h:1036-1163 | reading accepts exactly the supported payloads, appending writes the same contents, and the signature is theirs |
| DBusVariants.ReadValue | src/dbus/dbus_wrapper.h:1075-1117 | one value is read and passed, or refused |
| DBusVariants.ReadStruct | src/dbus/dbus_wrapper.h:1052-1073 | the fields are read in order and the signature is put together from theirs |
| DBusVariants.ReadArray | src/dbus/dbus_wrapper.h:1130-1162 | the array is read according to its signature |
| DBusVariants.VectorTypeExactly | src/dbus/dbus_wrapper.h:1130-1162 | the signature of an array tells its element type |
| DBusVariants.Append | src/dbus/dbus_wrapper.h:721-741 | a struct is appended only as a whole |
| DBusVariants.CopyVariant | src/dbus/dbus_wrapper.h:744-763 | a payload is copied exactly, or nothing is |
| DBusVariants.GetExactly | src/dbus/dbus_wrapper.h:415-488 | a typed get succeeds exactly for the payload's type, nested structs and arities included |
| DBusVariants.GetShows | src/dbus/dbus_wrapper.h:415-488 | what it returns is the stored value, the stored elements, or a tuple of as many parts whose part i is the value of field i, at every depth |
| DBusVariants.GetReturnsMessage | src/dbus/dbus_wrapper.h:369-488 | a supported value read from a message and got at its own type is that value: every number, text and truth value at its place in every array and nested struct; at any other type the get fails |
| DBusVariants.PathTextExactly | src/dbus/dbus_wrapper.h:866-879 | the texts accepted as object paths are those of the grammar |
| PulseIndex.EncodeForObjectPath | src/services/audio_pulse/audio_service.cpp:1239-1251 | two hexadecimal digits per byte |
| PulseIndex.EncodedInjective | src/services/audio_pulse/audio_service.cpp:1239-1251 | different port names are encoded differently |
| PulseIndex.PathsInjective | src/services/audio_pulse/audio_service.cpp:1170-1183 | paths are injective in direction, index and port name |
| PulseIndex.IdsEqualExactly | src/services/audio_pulse/audio_service.cpp:657 | two ids are equal exactly for the same device, or for one direction when the digits of one index extend the other's by a run the other's port starts with |
| PulseIndex.IdsInjectiveExactly | src/services/audio_pulse/audio_service.cpp:657 | over all 32-bit indexes ids tell devices apart exactly when no port is named like another behind one to nine digits |
| PulseIndex.IdsInjectiveWithoutDigits | src/services/audio_pulse/audio_service.cpp:657 | in particular when no port name starts with a digit |
| PulseIndex.IdsTellDevicesApart | src/services/audio_pulse/audio_service.cpp:647-657 | and then no two devices of the registry share an id |
| PulseIndex.IdsCollide | src/services/audio_pulse/audio_service.cpp:657 | an instance: the ids shown to clients do not tell all devices apart |
| PulseIndex.Registry.RemoveDevice | src/services/audio_pulse/audio_service.cpp:677-695 | the device goes and the index sets still equal a scan; an active port is forgotten exactly with the last device of its index |
| PulseIndex.Registry.RemoveDevicesByIndex | src/services/audio_pulse/audio_service.cpp:697-706 | exactly the devices of the index go |
| PulseIndex.IndexRemovedMeans | src/services/audio_pulse/audio_service.cpp:697-706 | exactly the devices of the index go, its active port is forgotten if it had any device, and nothing else changes |
| PulseIndex.Registry.AddOrUpdateDevice | src/services/audio_pulse/audio_service.cpp:599-675 | a report of a sink or source does to devices, active ports, active devices and streams what the specification says; the index sets still equal a scan |
| PulseIndex.ReportedMeans | src/services/audio_pulse/audio_service.cpp:599-675 | the devices of the index are exactly those of the reported named ports, or the one port-less device, written anew; no other changes; the active port and the active device are as reported |
| PulseIndex.Registry.HandleActiveOutputPortChanged | src/services/audio_pulse/audio_service.cpp:735-744 | exactly the streams of the sink are pointed at the port |
| PulseIndex.StreamsMovedExactly | src/services/audio_pulse/audio_service.cpp:611-614 | after a report all streams of the sink are at its active port exactly when that port's name is new to the registry or they were there already |
| PulseIndex.EarlyStreamLeftBehind | src/services/audio_pulse/audio_service.cpp:611-614 | an instance: a stream reported before a sink without ports stays without a device |
| PulseIndex.Registry.AddOrUpdateStream | src/services/audio_pulse/audio_service.cpp:922-966 | a stream is pointed at its sink's active port when the sink is known |
| PulseIndex.Registry.HandleServerInfo | src/services/audio_pulse/audio_service.cpp:513-570 | a new default name makes active a device that shows that name and is its active port, or none |
| PulseIndex.DefaultIsNamedExactly | src/services/audio_pulse/audio_service.cpp:513-570 | whatever it makes active is the active port of the sink or source of that name exactly when some active port shows the name and all that show it belong to that sink or source |
| PulseIndex.NamedSinkNotFound | src/services/audio_pulse/audio_service.cpp:541-569 | an instance: a reported sink with a description becomes the default and no device is active |
| PulseIndex.RunsKeepFollowing | src/services/audio_pulse/audio_service.cpp:599-973 | after every event of every run of server reports the streams of a sink with a named active port are at that port |
| PulseIndex.ActiveOutlivesDevice | src/services/audio_pulse/audio_service.cpp:677-695 | an active device names a device after a removal exactly when it did before and is not one of those removed |
| PulseIndex.Run | src/services/audio_pulse/audio_service.cpp:513-973 | over any reports, removals, streams and server changes: one step per event, and the index sets equal a scan after every one |

## Left out

- libparted, udev, PAM, systemd, logind, PipeWire, PulseAudio, GLib and libdbus themselves: foreign code; only the state they
  hand over and the answers they can give appear.
- Failures of libparted on geometry it was given in range, extended partitions and partitions that share a path: the table is
  a flat GPT with ordered disjoint partitions, and a changed path on relabelling is a reply of libparted.
- StorageInstall.ValidateAndInstall: assumes that free-region ids agree at every create, that a relabelled partition keeps its
  path and that no mount source is the id of a free region; `OrderlyPlansAgree`, `NameAgreesExactly` and `ShownRegionsExactly`
  say when.
- Erase mode: its root can be smaller than the custom-mode minimum by design of its layout.
- The order in which unordered tables are walked: loops over them pick any element, so results hold for every order.
- AudioRegistry.Registry.FindDevicePathByNodeId: which of several equally ranked devices is returned is not stated, because
  the list order after a rebuild is not determined.
- Volumes, mute, display-name sorting and the parsing of SPA objects: easy or foreign.
- The inference of a card from device or node names: its result is a parameter.
- AudioControl.ClientSetsStreamDevice: the refused callback is modelled by its refusal, not by its error text.
- Shutdown of the PipeWire loop: the tables are dropped without further events.
- SignalDispatch.Connection.HandleSignal: a callback that processes further messages while it runs is not modelled.
- SignalDispatch.Connection.SubscribeSignal: a bus that refuses to add or remove a match rule, and private peers, which have
  no rules.
- SessionLifecycle.SessionManager.CreateSession: PAM conversation, terminals and seats are answers of the system; process ids
  are never reused, and the status pipes that a failed second pipe leaves open are not tracked.
- SessionLifecycle.SessionManager.StopSession: what is answered while the login session that follows a stop is created, and to
  the activation of another session, is left open.
- Privileged client processes and the caller policy of sessions: the policy is a parameter.
- InstallWorker.EveryRunComplete: the order in which state and progress notifications reach the main loop is not modelled.
- InitBootFile: the file system; the file is its text.
- DBusVariants.Append: values made by the program with other types than a variant can be read with, and the cache of converted
  tuples, which only saves work.
- DBusVariants.ReadValue: only messages the library has already validated are read.
- PulseIndex.RunsKeepFollowing: speaks of reports of the server only; a client's write of a stream's device stays until the
  server reports the stream again.
- `InterfaceName::IsValid`, which accepts a trailing dot, and the network encoder: not a grammar and not injective.
- Watchdog, driver worker, service manager, locale, power and command execution: they would only add easy members.

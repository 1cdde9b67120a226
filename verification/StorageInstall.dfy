/** The end-to-end result for custom mode: a plan the validator accepts is carried out by the executor and yields
    one boot and one root target of the promised sizes and filesystems. Also where the two sides part ways. */
module StorageInstall {
  import opened StorageTypes
  import opened SectorArithmetic
  import opened Numerals
  import opened StoragePlanner
  import opened StorageLayout
  import Refinement = StorageRefinement
  import opened StorageValidation
  import opened PartitionTable
  import opened PartitionStep
  import opened CustomExecution
  import opened StorageSimulation
  import Builder = StorageBuilder

  // ---------- whole plans ----------

  /** Along the run, Create ids mean the same gap on both sides and relabelling keeps paths. */
  ghost predicate RunNamesAgree(rs: seq<Region>, s: Execution, diskPath: string, known: set<string>,
                                ops: seq<Operation>, replies: seq<Reply>)
    requires Sound(s) && |replies| == |ops| && RepliesAdmissible(s, diskPath, known, ops, replies)
    decreases |ops|
  {
    ops != [] ==>
      NamesAgree(rs, s, diskPath, ops[0], replies[0]) &&
      var planned, step := PlanStep(rs, ops[0]), ExecStep(s, diskPath, known, ops[0], replies[0]);
      planned.Ok? && step.Ok? ==>
        (StepKeepsSound(s, diskPath, known, ops[0], replies[0]);
         RunNamesAgree(planned.value, step.value, diskPath, known, ops[1..], replies[1..]))
  }

  lemma {:induction false} RunSimulated(rs: seq<Region>, s: Execution, perMiB: int, diskPath: string,
                                        known: set<string>, ops: seq<Operation>, replies: seq<Reply>)
    requires InStep(rs, s, perMiB, known) && PlanRun(rs, ops).Ok?
    requires |replies| == |ops| && RepliesAdmissible(s, diskPath, known, ops, replies)
    requires RunNamesAgree(rs, s, diskPath, known, ops, replies)
    ensures ExecRun(s, diskPath, known, ops, replies).Ok?
    ensures InStep(PlanRun(rs, ops).value, ExecRun(s, diskPath, known, ops, replies).value, perMiB, known)
    decreases |ops|
  {
    hide ExecStep, PlanStep, Related, Admissible, NamesAgree, DistinctPaths;
    if ops != [] {
      StepSimulated(rs, s, perMiB, diskPath, known, ops[0], replies[0]);
      RunSimulated(PlanStep(rs, ops[0]).value, ExecStep(s, diskPath, known, ops[0], replies[0]).value, perMiB,
                   diskPath, known, ops[1..], replies[1..]);
    }
  }

  /** Every partition of the layout is an entry of the region vector. */
  lemma {:induction false} PartIsRegion(rs: seq<Region>, i: int) returns (k: nat)
    requires 0 <= i < |ShapeOf(rs).parts|
    ensures k < |rs| && !rs[k].IsFree() && rs[k] == ShapeOf(rs).parts[i] && SlotAt(rs, k) == i
  {
    if !rs[0].IsFree() && i == 0 {
      k := 0;
    } else {
      var j := PartIsRegion(rs[1..], if rs[0].IsFree() then i else i - 1);
      k := j + 1;
      assert rs[..k] == [rs[0]] + rs[1..][..j];
      Refinement.PrependShape(rs[0], rs[1..][..j]);
    }
  }

  /** The planner's only entry at a mountpoint is the executor's only partition at it. */
  lemma MountCarriesOver(rs: seq<Region>, s: Execution, perMiB: int, known: set<string>, mp: string, k: int)
    requires InStep(rs, s, perMiB, known) && IsValidMountpoint(mp) && OnlyMount(rs, mp, k)
    ensures var at := SlotAt(rs, k);
            !rs[k].IsFree() && at < |s.disk.parts| && ShapeOf(rs).parts[at] == rs[k] &&
            OnlyKey(s.mounts, mp, s.disk.parts[at].path)
  {
    hide SlotAt, ShapeOf, Covers, GapLen, Valid;
    var l, at := ShapeOf(rs), SlotAt(rs, k);
    assert rs[k] in rs;
    Refinement.SlotLookup(rs, k);
    var path := s.disk.parts[at].path;
    assert SameChoices(l.parts[at], s.disk.parts[at], s);
    forall q <- s.mounts | q != path ensures s.mounts[q] != mp {
      var i :| 0 <= i < |s.disk.parts| && s.disk.parts[i].path == q;
      assert SameChoices(l.parts[i], s.disk.parts[i], s);
      var j := PartIsRegion(rs, i);
    }
  }

  /** The filesystem of the target a mounted partition becomes is the planned one; it is supported if the target is to
      be formatted, and already on the partition if it is not. */
  lemma TargetAsPlanned(l: Layout, s: Execution, perMiB: int, diskPath: string, at: int)
    requires Sound(s) && Related(l, s, perMiB) && 0 <= at < |l.parts| && s.disk.parts[at].path in s.mounts
    ensures var t := TargetFor(s, ViewOf(s.disk, diskPath), s.disk.parts[at].path);
            t.filesystem == l.parts[at].filesystem && t.mountpoint == l.parts[at].mountpoint &&
            (if t.format then IsValidFilesystem(t.filesystem) else s.disk.parts[at].probed == t.filesystem)
  {
    hide ViewOf, Covers, GapLen, Valid;
    ValidOpens(s.disk);
    assert SameChoices(l.parts[at], s.disk.parts[at], s);
    PathFound(s.disk, diskPath, at);
    ViewAt(s.disk, diskPath, at);
  }

  /** Partition i of the executed table holds at least `mib` whole MiB. */
  ghost predicate HoldsMiB(d: Disk, i: int, mib: int) {
    0 < d.sectorSize && 0 <= i < |d.parts| && 0 <= d.parts[i].length &&
    mib <= SectorsToMiB(d.sectorSize, d.parts[i].length)
  }

  /** The outcome the installer needs: one boot and one root partition, large enough, with the right filesystems. */
  ghost predicate Installs(s: Execution, diskPath: string, b: int, r: int)
    requires Valid(s.disk) && 0 <= b < |s.disk.parts| && 0 <= r < |s.disk.parts|
  {
    var v, boot, root := ViewOf(s.disk, diskPath), s.disk.parts[b].path, s.disk.parts[r].path;
    OnlyKey(s.mounts, MOUNTPOINT_BOOT, boot) && OnlyKey(s.mounts, MOUNTPOINT_ROOT, root) &&
    HoldsMiB(s.disk, b, BOOT_MIN_MIB) && HoldsMiB(s.disk, r, ROOT_MIN_MIB) &&
    TargetFor(s, v, boot).filesystem == FILESYSTEM_FAT32 &&
    IsValidFilesystem(TargetFor(s, v, root).filesystem) && TargetFor(s, v, root).filesystem != FILESYSTEM_FAT32
  }

  lemma FinalLayoutInstalls(rs: seq<Region>, s: Execution, perMiB: int, diskPath: string, known: set<string>)
    requires InStep(rs, s, perMiB, known) && InstallableLayout(rs)
    ensures exists b, r | 0 <= b < |s.disk.parts| && 0 <= r < |s.disk.parts| :: Installs(s, diskPath, b, r)
  {
    hide SlotAt, ShapeOf, GapLen, ViewOf, Valid, TargetFor, SectorsToMiB;
    var kb, kr :| OnlyMount(rs, MOUNTPOINT_BOOT, kb) && OnlyMount(rs, MOUNTPOINT_ROOT, kr) &&
        Installable(rs[kb], rs[kr]);
    var l, b, r := ShapeOf(rs), SlotAt(rs, kb), SlotAt(rs, kr);
    MountCarriesOver(rs, s, perMiB, known, MOUNTPOINT_BOOT, kb);
    MountCarriesOver(rs, s, perMiB, known, MOUNTPOINT_ROOT, kr);
    TargetAsPlanned(l, s, perMiB, diskPath, b);
    TargetAsPlanned(l, s, perMiB, diskPath, r);
    PlannedSizeHeld(l, s, perMiB, b);
    PlannedSizeHeld(l, s, perMiB, r);
    assert Installs(s, diskPath, b, r);
  }

  /** Every planned partition size is at most the whole MiB of its sectors. */
  lemma PlannedSizeHeld(l: Layout, s: Execution, perMiB: int, i: int)
    requires Sound(s) && WholeSectors(s.disk.sectorSize, perMiB) && Related(l, s, perMiB) && 0 <= i < |l.parts|
    ensures HoldsMiB(s.disk, i, l.parts[i].sizeMiB)
  {
    hide SectorsToMiB, GapLen;
    GapBounds(s.disk, i);
    RunBounds(s.disk, perMiB, s.disk.parts[i].length, l.parts[i].sizeMiB);
  }

  /** An accepted plan on a labelled device executes in sectors and produces the targets the installation needs. */
  lemma AcceptedPlanInstalls(d: Disk, diskPath: string, mounted: map<string, string>, perMiB: int, known: set<string>,
                             ops: seq<Operation>, replies: seq<Reply>)
    requires Valid(d) && DistinctPaths(d) && Builder.Probed(d) && WholeSectors(d.sectorSize, perMiB) &&
        SUPPORTED <= known
    requires forall i | 0 <= i < |d.parts| :: !IsValidMountpoint(Builder.MountedAt(mounted, d.parts[i].path))
    requires PlanRun(Builder.RegionsOf(d, diskPath, mounted), ops).Ok?
    requires InstallableLayout(PlanRun(Builder.RegionsOf(d, diskPath, mounted), ops).value)
    requires |replies| == |ops|
    requires RepliesAdmissible(Execution(d, map[], map[], map[]), diskPath, known, ops, replies)
    requires RunNamesAgree(Builder.RegionsOf(d, diskPath, mounted), Execution(d, map[], map[], map[]), diskPath, known,
                           ops, replies)
    ensures var run := ExecRun(Execution(d, map[], map[], map[]), diskPath, known, ops, replies);
            run.Ok? && Sound(run.value) &&
            exists b, r | 0 <= b < |run.value.disk.parts| && 0 <= r < |run.value.disk.parts| ::
              Installs(run.value, diskPath, b, r)
  {
    hide PlanRun, ExecRun, RepliesAdmissible, RunNamesAgree, InstallableLayout, Installs, Related, ShapeOf;
    var rs, s := Builder.RegionsOf(d, diskPath, mounted), Execution(d, map[], map[], map[]);
    Builder.InitiallySound(d, diskPath, mounted, perMiB);
    Builder.InitiallyRelated(d, diskPath, mounted, perMiB);
    RunSimulated(rs, s, perMiB, diskPath, known, ops, replies);
    FinalLayoutInstalls(PlanRun(rs, ops).value, ExecRun(s, diskPath, known, ops, replies).value, perMiB, diskPath,
                        known);
  }

  /** A target on a partition of the executed table that holds at least `mib` whole MiB. */
  ghost predicate TargetHolds(ex: Executor, t: Target, mib: int)
    reads ex
  {
    exists i :: HoldsMiB(ex.disk, i, mib) && ex.disk.parts[i].path == t.device
  }

  /** The whole way of a custom plan: the regions are read, the plan is validated, and if it is accepted it is
      executed and the mount step looks its targets up. Whatever is accepted is executed, both targets are found, and
      they are as large and of the filesystems the validator promised. */
  method ValidateAndInstall(d: Disk, diskPath: string, mounted: map<string, string>, ghost perMiB: int,
                            known: set<string>, ops: seq<Operation>, replies: seq<Reply>)
    returns (accepted: bool, ex: Executor, boot: Result<Target>, root: Result<Target>)
    requires Valid(d) && DistinctPaths(d) && Builder.Probed(d) && WholeSectors(d.sectorSize, perMiB) &&
        SUPPORTED <= known
    requires Builder.LengthsOpen(d) && Builder.GapsUnmounted(d, diskPath, mounted, |d.parts| + 1)
    requires forall i | 0 <= i < |d.parts| :: !IsValidMountpoint(Builder.MountedAt(mounted, d.parts[i].path))
    requires |replies| == |ops| && RepliesAdmissible(Execution(d, map[], map[], map[]), diskPath, known, ops, replies)
    requires RunNamesAgree(Builder.RegionsOf(d, diskPath, mounted), Execution(d, map[], map[], map[]), diskPath, known,
                           ops, replies)
    ensures accepted <==> PlanRun(Builder.RegionsOf(d, diskPath, mounted), ops).Ok? &&
                          InstallableLayout(PlanRun(Builder.RegionsOf(d, diskPath, mounted), ops).value)
    ensures accepted ==> ExecRun(Execution(d, map[], map[], map[]), diskPath, known, ops, replies) == Ok(ex.State())
    ensures accepted ==> boot.Ok? && root.Ok?
    ensures accepted ==> OnlyKey(ex.State().mounts, MOUNTPOINT_BOOT, boot.value.device) &&
                         OnlyKey(ex.State().mounts, MOUNTPOINT_ROOT, root.value.device)
    ensures !accepted ==> ex.State() == Execution(d, map[], map[], map[])
    ensures accepted ==> boot.value.mountpoint == MOUNTPOINT_BOOT && root.value.mountpoint == MOUNTPOINT_ROOT
    ensures accepted ==> boot.value.filesystem == FILESYSTEM_FAT32
    ensures accepted ==> IsValidFilesystem(root.value.filesystem) && root.value.filesystem != FILESYSTEM_FAT32
    ensures accepted ==> TargetHolds(ex, boot.value, BOOT_MIN_MIB) && TargetHolds(ex, root.value, ROOT_MIN_MIB)
    ensures accepted ==> (boot.value.format <==> ToFormat(ops, replies, boot.value.device)) &&
                         (root.value.format <==> ToFormat(ops, replies, root.value.device))
  {
    hide Builder.RegionsOf, PlanRun, ExecRun, RepliesAdmissible, RunNamesAgree, InstallableLayout, ViewOf, Installs,
         TargetFor, OnlyKey, OneBootOneRoot, HoldsMiB, InEitherOrder, Valid, ToFormat;
    ex := new Executor(d, diskPath, known);
    var base := Builder.PopulateDevice(d, diskPath);
    var regions := Builder.ApplyMountpoints(mounted, base);
    Builder.ShownRegionsExactly(d, diskPath, mounted);
    var validated, _ := ValidateCustom(false, regions, ops);
    Builder.InitiallySound(d, diskPath, mounted, perMiB);
    if PlanRun(regions, ops).Ok? { SizesAlwaysAddUp(regions, ops); }
    if validated.Err? { return false, ex, Err(UnknownTarget), Err(UnknownTarget); }
    accepted := true;
    AcceptedPlanInstalls(d, diskPath, mounted, perMiB, known, ops, replies);
    ghost var s := ExecRun(Execution(d, map[], map[], map[]), diskPath, known, ops, replies).value;
    ghost var b, r :| 0 <= b < |s.disk.parts| && 0 <= r < |s.disk.parts| && Installs(s, diskPath, b, r);
    InstallsOne(s, diskPath, b, r);
    var executed := ex.ExecuteCustom(false, ops, replies);
    ValidOpens(s.disk);
    CollectedTargetsFound(s, ViewOf(s.disk, diskPath), ex.targets, ex.bootPartition, ex.rootPartition);
    boot := FindTarget(ex.targets, MOUNTPOINT_BOOT);
    root := FindTarget(ex.targets, MOUNTPOINT_ROOT);
    FoundAsInstalled(s, diskPath, b, r, ex.bootPartition, ex.rootPartition, ex.targets, boot.value, root.value);
    assert HoldsMiB(ex.disk, b, BOOT_MIN_MIB) && HoldsMiB(ex.disk, r, ROOT_MIN_MIB);
  }

  lemma InstallsOne(s: Execution, diskPath: string, b: int, r: int)
    requires Valid(s.disk) && 0 <= b < |s.disk.parts| && 0 <= r < |s.disk.parts| && Installs(s, diskPath, b, r)
    ensures OneBootOneRoot(s.mounts)
  {
    hide OnlyKey, ViewOf, TargetFor;
  }

  /** The targets found are those of the installed boot and root partitions. */
  lemma FoundAsInstalled(s: Execution, diskPath: string, b: int, r: int, bootPartition: string, rootPartition: string,
                         targets: seq<Target>, boot: Target, root: Target)
    requires Valid(s.disk) && 0 <= b < |s.disk.parts| && 0 <= r < |s.disk.parts| && Installs(s, diskPath, b, r)
    requires OnlyKey(s.mounts, MOUNTPOINT_BOOT, bootPartition) && OnlyKey(s.mounts, MOUNTPOINT_ROOT, rootPartition)
    requires var v := ViewOf(s.disk, diskPath);
             InEitherOrder(targets, TargetFor(s, v, bootPartition), TargetFor(s, v, rootPartition))
    requires boot in targets && boot.mountpoint == MOUNTPOINT_BOOT
    requires root in targets && root.mountpoint == MOUNTPOINT_ROOT
    ensures boot.device == s.disk.parts[b].path && root.device == s.disk.parts[r].path
    ensures HoldsMiB(s.disk, b, BOOT_MIN_MIB) && HoldsMiB(s.disk, r, ROOT_MIN_MIB)
    ensures boot.filesystem == FILESYSTEM_FAT32
    ensures IsValidFilesystem(root.filesystem) && root.filesystem != FILESYSTEM_FAT32
  {
    hide ViewOf, Valid, HoldsMiB;
  }

  // ---------- where free-space ids agree ----------

  lemma {:induction false} PrefixAvoids(d: Disk, diskPath: string, mounted: map<string, string>, n: int, i: int)
    requires Builder.LengthsOpen(d) && DistinctPaths(d) && 0 <= n <= i <= |d.parts|
    ensures forall r <- Builder.RegionPrefix(d, diskPath, mounted, n) ::
        r.device != Builder.GapRegion(d, diskPath, i).device
  {
    hide SectorsToMiB, FreeSpaceRegionId, Builder.RegionPrefix, ListedBefore, Builder.CountedBefore;
    Builder.NoRegions(d, diskPath, mounted);
    if n > 0 {
      Builder.RegionPrefixNext(d, diskPath, mounted, n - 1);
      PrefixAvoids(d, diskPath, mounted, n - 1, i);
      FreeIdInjective(diskPath, Builder.CountedBefore(d, n - 1) + 1, Builder.CountedBefore(d, i) + 1);
      FreeIdInjective(diskPath, Builder.CountedBefore(d, i) + 1, 0);
      if Listed(d, n - 1) { Builder.ListedGrows(d, n - 1, i); }
    }
  }

  /** The planner resolves its own id for gap i to gap i. */
  lemma PlannerResolvesGap(d: Disk, diskPath: string, mounted: map<string, string>, i: int)
    requires Valid(d) && DistinctPaths(d) && Builder.Probed(d) && 0 <= i <= |d.parts| && Listed(d, i)
    ensures var rs := Builder.RegionsOf(d, diskPath, mounted);
            var k := IndexOf(rs, Builder.GapRegion(d, diskPath, i).device);
            k < |rs| && rs[k] == Builder.GapRegion(d, diskPath, i) && SlotAt(rs, k) == i
  {
    hide Listed, Builder.GapRegion, Builder.RegionsOf, SlotAt, GapLen;
    var rs, at := Builder.RegionsOf(d, diskPath, mounted), i + ListedBefore(d, i);
    Builder.GapRegionAt(d, diskPath, mounted, i);
    PrefixAvoids(d, diskPath, mounted, i, i);
    FirstNamed(rs, at, Builder.GapRegion(d, diskPath, i).device);
  }

  lemma FirstNamed(rs: seq<Region>, at: nat, name: string)
    requires at < |rs| && rs[at].device == name && forall r <- rs[..at] :: r.device != name
    ensures IndexOf(rs, name) == at
  {
    forall j | 0 <= j < at ensures rs[j].device != name {
      assert rs[j] == rs[..at][j];
    }
  }

  /** The executor resolves the free-space id with a given number to the listed gap with that number. */
  lemma ExecutorResolvesGap(d: Disk, diskPath: string, index: nat, i: int)
    requires Valid(d) && DistinctPaths(d) && 0 <= i <= |d.parts| && Listed(d, i)
    ensures var v := ViewOf(d, diskPath);
            var j := FindView(v, FreeSpaceRegionId(diskPath, index));
            (j < |v| && v[j].isFree && v[j].slot == i) <==> ListedBefore(d, i) + 1 == index
  {
    hide Listed, FreeSpaceRegionId, GapLen, ViewOf;
    var v := ViewOf(d, diskPath);
    var j := FindView(v, FreeSpaceRegionId(diskPath, index));
    ViewAt(d, diskPath, i);
    if j < |v| {
      NamedEntry(d, diskPath, v[j], index);
      var m := v[j].slot;
      if m < i { Builder.ListedGrows(d, m, i); }
      if i < m { Builder.ListedGrows(d, i, m); }
    }
  }

  /** At any point of a run, a create that names free region number `index` means the same gap on both sides exactly
      when the executor lists the gap the planner resolved, and lists `index - 1` gaps before it. */
  lemma NameAgreesExactly(rs: seq<Region>, s: Execution, diskPath: string, op: Operation, index: nat)
    requires Sound(s) && op.Create? && op.region == FreeSpaceRegionId(diskPath, index)
    requires IndexOf(rs, op.region) < |rs| && SlotAt(rs, IndexOf(rs, op.region)) <= |s.disk.parts|
    ensures GapsOpen(s.disk)
    ensures var at := SlotAt(rs, IndexOf(rs, op.region));
            SameGap(rs, s, diskPath, op) <==> Listed(s.disk, at) && ListedBefore(s.disk, at) + 1 == index
  {
    hide Listed, FreeSpaceRegionId, GapLen, ViewOf, SlotAt, FindView, Valid;
    ValidOpens(s.disk);
    var d, at := s.disk, SlotAt(rs, IndexOf(rs, op.region));
    var v := ViewOf(d, diskPath);
    var j := FindView(v, op.region);
    if Listed(d, at) {
      ExecutorResolvesGap(d, diskPath, index, at);
    } else if j < |v| {
      NamedEntry(d, diskPath, v[j], index);
    }
  }

  /** Before any operation, the id the planner shows for a gap means the same gap to the executor exactly when no
      gap below one MiB comes before it: the planner's numbering counts those, the executor's does not. */
  lemma InitialNameAgreesExactly(d: Disk, diskPath: string, mounted: map<string, string>, i: int, op: Operation)
    requires Valid(d) && DistinctPaths(d) && Builder.Probed(d) && 0 <= i <= |d.parts| && Listed(d, i)
    requires op.Create? && op.region == Builder.GapRegion(d, diskPath, i).device
    ensures SameGap(Builder.RegionsOf(d, diskPath, mounted), Execution(d, map[], map[], map[]), diskPath, op) <==>
            forall j | 0 <= j < i :: GapLen(d, j) > 0 ==> Listed(d, j)
  {
    hide Listed, FreeSpaceRegionId, GapLen, ViewOf, Builder.RegionsOf, SlotAt, FindView;
    PlannerResolvesGap(d, diskPath, mounted, i);
    ExecutorResolvesGap(d, diskPath, Builder.CountedBefore(d, i) + 1, i);
    Builder.CountsCompare(d, i);
  }

  /** A view entry carrying a free-space id is the listed gap with that number. */
  lemma NamedEntry(d: Disk, diskPath: string, e: View, index: nat)
    requires GapsOpen(d) && DistinctPaths(d) && e in ViewOf(d, diskPath) && e.id == FreeSpaceRegionId(diskPath, index)
    ensures e.isFree && 0 <= e.slot <= |d.parts| && Listed(d, e.slot) && ListedBefore(d, e.slot) + 1 == index
  {
    hide ViewOf, SectorsToMiB, FreeSpaceRegionId;
    FreeIdInjective(diskPath, index, 0);
    if e.isFree {
      FreeIdInjective(diskPath, ListedBefore(d, e.slot) + 1, index);
    }
  }

  // ---------- devices without a partition table ----------

  /** The planner sees the whole device as one region; the executor first writes an empty table, whose usable
      range is shorter. */
  ghost function WholeDevice(sectorSize: int, length: int, diskPath: string): seq<Region>
    requires 0 < sectorSize && 0 <= length
  {
    [Region(FreeSpaceRegionId(diskPath, 1), "", Builder.MiBOf(sectorSize, length), "")]
  }

  /** On an unlabelled device a Create the planner accepts is carried out exactly when it fits in the usable range
      of the new table, or asks for the remaining space. */
  lemma UnlabelledCreateExactly(d: Disk, length: int, perMiB: int, diskPath: string, known: set<string>,
                                op: Operation, reply: Reply)
    requires Valid(d) && d.parts == [] && Listed(d, 0) && WholeSectors(d.sectorSize, perMiB)
    requires 0 <= length && d.sectorSize * length < TWO_63 && SUPPORTED <= known
    requires op.Create? && op.region == FreeSpaceRegionId(diskPath, 1)
    requires PlanStep(WholeDevice(d.sectorSize, length, diskPath), op).Ok?
    ensures ExecStep(Execution(d, map[], map[], map[]), diskPath, known, op, reply).Ok? <==>
            op.remaining || op.sizeMiB <= SectorsToMiB(d.sectorSize, GapLen(d, 0))
  {
    hide SectorsToMiB, SectorsForMiB, ViewOf, Coalesced;
    var v := ViewOf(d, diskPath);
    ViewAt(d, diskPath, 0);
    assert ListedBefore(d, 0) == 0;
    assert v[0] == FreeView(d, diskPath, 0) && v[0].id == op.region;
    ListedGap(d, diskPath, 0);
    if !op.remaining {
      MiBBound(d.sectorSize, perMiB, length);
      GapBounds(d, 0);
      RunBounds(d, perMiB, GapLen(d, 0), 0);
      Adjunction(d.sectorSize, perMiB, op.sizeMiB, GapLen(d, 0));
      ForMiBExact(d.sectorSize, perMiB, op.sizeMiB);
      Scale(1, op.sizeMiB, perMiB);
    }
  }

  // ---------- a concrete disagreement ----------

  const SMALL_GAP_DISK := Disk(512, 34, 206948, [Part("/dev/sda1", 100, 2048, FILESYSTEM_EXT4)])
  const SECOND_GAP := Create("/dev/sda#free-2", 100, false, FILESYSTEM_FAT32, MOUNTPOINT_BOOT)

  lemma SmallGapFacts()
    ensures var d := SMALL_GAP_DISK;
            Valid(d) && DistinctPaths(d) && Builder.Probed(d) && GapLen(d, 0) == 66 && GapLen(d, 1) == 204800 &&
            !Listed(d, 0) && Listed(d, 1) && Builder.MiBOf(512, GapLen(d, 1)) == 100 &&
            SECOND_GAP.region == Builder.GapRegion(d, "/dev/sda", 1).device == FreeSpaceRegionId("/dev/sda", 2)
  {
    var d := SMALL_GAP_DISK;
    assert GapLen(d, 0) == 66 && GapLen(d, 1) == 204800;
    assert SectorsToMiB(512, 66) == 0 && SectorsToMiB(512, 204800) == 100;
    assert Builder.CountedBefore(d, 1) == 1;
    assert ToString(2) == "2";
  }

  /** One sub-MiB gap in front of a partition is enough: the planner accepts a Create in the region it calls
      "#free-2", which the executor does not know, because it calls that gap "#free-1". */
  lemma NamesCanDisagree(reply: Reply)
    ensures Valid(SMALL_GAP_DISK) && DistinctPaths(SMALL_GAP_DISK) && Builder.Probed(SMALL_GAP_DISK)
    ensures PlanStep(Builder.RegionsOf(SMALL_GAP_DISK, "/dev/sda", map[]), SECOND_GAP).Ok?
    ensures ExecStep(Execution(SMALL_GAP_DISK, map[], map[], map[]), "/dev/sda", SUPPORTED, SECOND_GAP, reply) ==
            Err(UnknownTarget)
  {
    hide SectorsToMiB, SectorsForMiB, GapLen, ViewOf, FreeSpaceRegionId, Builder.RegionsOf, Coalesced;
    var d := SMALL_GAP_DISK;
    SmallGapFacts();
    PlannerResolvesGap(d, "/dev/sda", map[], 1);
    var v := ViewOf(d, "/dev/sda");
    var j := FindView(v, SECOND_GAP.region);
    if j < |v| {
      NamedEntry(d, "/dev/sda", v[j], 2);
      assert false;
    }
  }
}

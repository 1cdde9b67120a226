/** The two validators built around the planner: custom mode runs it and checks the layout it leaves,
    manual mode checks a list of mounts on the partitions that already exist. */
module StorageValidation {
  import opened StorageTypes
  import opened StoragePlanner
  import opened StorageLayout
  import opened StorageRefinement

  datatype Warning = BootSmallerThanRecommended | RootSmallerThanRecommended

  // ---------- boot and root requirements ----------

  /** A pair of partitions the system can be installed on. */
  predicate Installable(boot: Region, root: Region) {
    boot.filesystem == FILESYSTEM_FAT32 && boot.sizeMiB >= BOOT_MIN_MIB &&
    IsValidFilesystem(root.filesystem) && root.filesystem != FILESYSTEM_FAT32 && root.sizeMiB >= ROOT_MIN_MIB
  }

  /** The warnings for an accepted pair of partitions, the boot partition's first. */
  function WarningsFor(boot: Region, root: Region): seq<Warning> {
    (if boot.sizeMiB < BOOT_RECOMMENDED_MIB then [BootSmallerThanRecommended] else []) +
    (if root.sizeMiB < ROOT_RECOMMENDED_MIB then [RootSmallerThanRecommended] else [])
  }

  /** The requirements and the warnings in MiB. */
  lemma RequirementsInMiB(boot: Region, root: Region)
    ensures Installable(boot, root) <==>
            boot.filesystem == "fat32" && root.filesystem in {"ext4", "btrfs", "xfs"} &&
            100 <= boot.sizeMiB && 40 * 1024 <= root.sizeMiB
    ensures BootSmallerThanRecommended in WarningsFor(boot, root) <==> boot.sizeMiB < 512
    ensures RootSmallerThanRecommended in WarningsFor(boot, root) <==> root.sizeMiB < 80 * 1024
    ensures |WarningsFor(boot, root)| <= 2
  {
  }

  /** Refuses what the system cannot be installed on, and warns of what is too small for comfort. */
  method VerifyMountpoints(boot: Region, root: Region, given: seq<Warning>)
    returns (r: Result<()>, warnings: seq<Warning>)
    ensures r.Ok? <==> Installable(boot, root)
    ensures r.Ok? ==> warnings == given + WarningsFor(boot, root)
    ensures r != Err(SizesDoNotAddUp)
  {
    warnings := given;
    if boot.filesystem != FILESYSTEM_FAT32 { return Err(BadFilesystem), warnings; }
    if boot.sizeMiB < BOOT_MIN_MIB { return Err(BootTooSmall), warnings; }
    if boot.sizeMiB < BOOT_RECOMMENDED_MIB { warnings := warnings + [BootSmallerThanRecommended]; }
    if root.filesystem == FILESYSTEM_FAT32 { return Err(BadFilesystem), warnings; }
    if !IsValidFilesystem(root.filesystem) { return Err(BadFilesystem), warnings; }
    if root.sizeMiB < ROOT_MIN_MIB { return Err(RootTooSmall), warnings; }
    if root.sizeMiB < ROOT_RECOMMENDED_MIB { warnings := warnings + [RootSmallerThanRecommended]; }
    r := Ok(());
  }

  // ---------- custom mode ----------

  /** Entry i is the only one mounted at mp. */
  ghost predicate OnlyMount(rs: seq<Region>, mp: string, i: int) {
    0 <= i < |rs| && rs[i].mountpoint == mp && forall j | 0 <= j < |rs| && j != i :: rs[j].mountpoint != mp
  }

  /** The layout has exactly one boot and one root entry and both meet the requirements. */
  ghost predicate InstallableLayout(rs: seq<Region>) {
    exists b, r :: OnlyMount(rs, MOUNTPOINT_BOOT, b) && OnlyMount(rs, MOUNTPOINT_ROOT, r) && Installable(rs[b], rs[r])
  }

  /** `count_if` with the capture of the last match. */
  method CountMounted(rs: seq<Region>, mp: string) returns (count: nat, last: int)
    ensures count == 1 <==> exists i :: OnlyMount(rs, mp, i)
    ensures count == 1 ==> OnlyMount(rs, mp, last)
  {
    count, last := 0, -1;
    var i := 0;
    ghost var first := -1;
    while i < |rs|
      invariant 0 <= i <= |rs|
      invariant count == 0 ==> forall j | 0 <= j < i :: rs[j].mountpoint != mp
      invariant count > 0 ==> 0 <= last < i && rs[last].mountpoint == mp
      invariant count == 1 ==> forall j | 0 <= j < i && j != last :: rs[j].mountpoint != mp
      invariant count > 1 ==> 0 <= first < last && rs[first].mountpoint == mp
    {
      if rs[i].mountpoint == mp {
        first := last;
        last := i;
        count := count + 1;
      }
      i := i + 1;
    }
    if count == 1 { assert OnlyMount(rs, mp, last); }
  }

  function Sum64(rs: seq<Region>): U64 {
    if rs == [] then 0 else ToUnsigned(Sum64(rs[..|rs| - 1]) + rs[|rs| - 1].sizeMiB)
  }

  method SumSizes(rs: seq<Region>) returns (sum: U64)
    ensures sum == Sum64(rs)
  {
    sum := 0;
    for i := 0 to |rs|
      invariant sum == Sum64(rs[..i])
    {
      assert rs[..i + 1][..i] == rs[..i];
      sum := ToUnsigned(sum + rs[i].sizeMiB);
    }
    assert rs[..|rs|] == rs;
  }

  lemma {:induction false} Sum64IsTotal(rs: seq<Region>)
    requires Total(rs) < TWO_64
    ensures Sum64(rs) == Total(rs)
  {
    if rs != [] {
      var init, last := rs[..|rs| - 1], rs[|rs| - 1];
      assert rs == init + [last];
      TotalConcat(init, [last]);
      Sum64IsTotal(init);
    }
  }

  /** The custom-mode validator: it accepts exactly the plans whose every operation is accepted and whose
      final layout is installable (and whose sizes add up, which `SizesAlwaysAddUp` shows they always do). */
  method ValidateCustom(hasMounts: bool, device: seq<Region>, operations: seq<Operation>)
    returns (r: Result<seq<Region>>, warnings: seq<Warning>)
    ensures r.Ok? <==>
      !hasMounts && PlanRun(device, operations).Ok? &&
      Sum64(PlanRun(device, operations).value) == Sum64(device) &&
      InstallableLayout(PlanRun(device, operations).value)
    ensures r.Ok? ==> r.value == PlanRun(device, operations).value
    ensures r.Ok? ==> exists b, k | OnlyMount(r.value, MOUNTPOINT_BOOT, b) && OnlyMount(r.value, MOUNTPOINT_ROOT, k) ::
      warnings == WarningsFor(r.value[b], r.value[k])
    ensures Sound(device) ==> r != Err(SizesDoNotAddUp)
  {
    warnings := [];
    if hasMounts { return Err(MountsNotAllowed), warnings; }
    var partitions := device;
    var i := 0;
    while i < |operations|
      invariant 0 <= i <= |operations|
      invariant PlanRun(device, operations) == PlanRun(partitions, operations[i..])
    {
      var step := ApplyOperation(partitions, operations[i]);
      assert operations[i..][1..] == operations[i + 1..];
      if step.Err? {
        NoStepReportsSizes(partitions, operations[i]);
        return Err(step.error), warnings;
      }
      partitions := step.value;
      i := i + 1;
    }
    assert partitions == PlanRun(device, operations).value;
    var expected := SumSizes(device);
    var sum := SumSizes(partitions);
    if sum != expected {
      if Sound(device) { SizesAlwaysAddUp(device, operations); }
      return Err(SizesDoNotAddUp), warnings;
    }
    var boots, boot := CountMounted(partitions, MOUNTPOINT_BOOT);
    if boots != 1 { return Err(NotOneBoot), warnings; }
    var roots, root := CountMounted(partitions, MOUNTPOINT_ROOT);
    if roots != 1 { return Err(NotOneRoot), warnings; }
    var verdict: Result<()>;
    verdict, warnings := VerifyMountpoints(partitions[boot], partitions[root], warnings);
    if verdict.Err? { return Err(verdict.error), warnings; }
    r := Ok(partitions);
  }

  lemma NoStepReportsSizes(rs: seq<Region>, op: Operation)
    ensures PlanStep(rs, op) != Err(SizesDoNotAddUp)
  {
    hide Coalesced, Resized;
  }

  /** The "sizes do not add up" failure cannot happen. */
  lemma SizesAlwaysAddUp(device: seq<Region>, operations: seq<Operation>)
    requires Sound(device) && PlanRun(device, operations).Ok?
    ensures Sum64(PlanRun(device, operations).value) == Sum64(device)
  {
    RunKeepsInvariants(device, operations);
    Sum64IsTotal(device);
    Sum64IsTotal(PlanRun(device, operations).value);
  }

  // ---------- manual mode ----------

  datatype Mount = Mount(partition: string, mountpoint: string)

  /** Mount i names an existing partition, has a known mountpoint and does not repeat an earlier partition. */
  ghost predicate MountFits(partitions: seq<Region>, mounts: seq<Mount>, i: int)
    requires 0 <= i < |mounts|
  {
    var k := IndexOf(partitions, mounts[i].partition);
    IsValidMountpoint(mounts[i].mountpoint) && k < |partitions| && !partitions[k].IsFree() &&
    forall j | 0 <= j < i :: mounts[j].partition != mounts[i].partition
  }

  ghost predicate OnlyMountFor(mounts: seq<Mount>, mp: string, i: int) {
    0 <= i < |mounts| && mounts[i].mountpoint == mp &&
    forall j | 0 <= j < |mounts| && j != i :: mounts[j].mountpoint != mp
  }

  ghost predicate InstallableMounts(partitions: seq<Region>, bootName: string, rootName: string) {
    var b, r := IndexOf(partitions, bootName), IndexOf(partitions, rootName);
    b < |partitions| && r < |partitions| && Installable(partitions[b], partitions[r])
  }

  ghost predicate ManualInstallable(partitions: seq<Region>, mounts: seq<Mount>) {
    (forall i | 0 <= i < |mounts| :: MountFits(partitions, mounts, i)) &&
    exists b, r :: OnlyMountFor(mounts, MOUNTPOINT_BOOT, b) && OnlyMountFor(mounts, MOUNTPOINT_ROOT, r) &&
                   InstallableMounts(partitions, mounts[b].partition, mounts[r].partition)
  }

  method CountMounts(mounts: seq<Mount>, mp: string) returns (count: nat)
    ensures count == 1 <==> exists i :: OnlyMountFor(mounts, mp, i)
  {
    count := 0;
    var i := 0;
    ghost var last, first := -1, -1;
    while i < |mounts|
      invariant 0 <= i <= |mounts|
      invariant count == 0 ==> forall j | 0 <= j < i :: mounts[j].mountpoint != mp
      invariant count > 0 ==> 0 <= last < i && mounts[last].mountpoint == mp
      invariant count == 1 ==> forall j | 0 <= j < i && j != last :: mounts[j].mountpoint != mp
      invariant count > 1 ==> 0 <= first < last && mounts[first].mountpoint == mp
    {
      if mounts[i].mountpoint == mp {
        first := last;
        last := i;
        count := count + 1;
      }
      i := i + 1;
    }
    if count == 1 { assert OnlyMountFor(mounts, mp, last); }
  }

  /** The manual-mode validator accepts exactly the installable mount lists. */
  method ValidateManual(hasOperations: bool, partitions: seq<Region>, mounts: seq<Mount>)
    returns (r: Result<()>, warnings: seq<Warning>)
    ensures r.Ok? <==> !hasOperations && ManualInstallable(partitions, mounts)
    ensures r.Ok? ==> exists b, k | OnlyMountFor(mounts, MOUNTPOINT_BOOT, b) &&
                                    OnlyMountFor(mounts, MOUNTPOINT_ROOT, k) ::
      var boot, root := IndexOf(partitions, mounts[b].partition), IndexOf(partitions, mounts[k].partition);
      boot < |partitions| && root < |partitions| && warnings == WarningsFor(partitions[boot], partitions[root])
  {
    warnings := [];
    if hasOperations { return Err(MountsNotAllowed), warnings; }
    var boot, root := -1, -1;
    var seen: set<string> := {};
    ghost var lastBoot, lastRoot := -1, -1;
    var i := 0;
    while i < |mounts|
      invariant 0 <= i <= |mounts|
      invariant seen == set j | 0 <= j < i :: mounts[j].partition
      invariant forall j | 0 <= j < i :: MountFits(partitions, mounts, j)
      invariant if lastBoot < 0 then forall j | 0 <= j < i :: mounts[j].mountpoint != MOUNTPOINT_BOOT
                else 0 <= lastBoot < i && mounts[lastBoot].mountpoint == MOUNTPOINT_BOOT &&
                     boot == IndexOf(partitions, mounts[lastBoot].partition)
      invariant if lastRoot < 0 then forall j | 0 <= j < i :: mounts[j].mountpoint != MOUNTPOINT_ROOT
                else 0 <= lastRoot < i && mounts[lastRoot].mountpoint == MOUNTPOINT_ROOT &&
                     root == IndexOf(partitions, mounts[lastRoot].partition)
    {
      var mount := mounts[i];
      var k := IndexOf(partitions, mount.partition);
      if !IsValidMountpoint(mount.mountpoint) || k == |partitions| || partitions[k].IsFree() ||
          mount.partition in seen {
        assert !MountFits(partitions, mounts, i);
        return Err(if !IsValidMountpoint(mount.mountpoint) then BadMountpoint
                   else if k == |partitions| then UnknownTarget
                   else if partitions[k].IsFree() then WrongKind else MultipleMountpoints), warnings;
      }
      seen := seen + {mount.partition};
      if mount.mountpoint == MOUNTPOINT_BOOT {
        boot, lastBoot := k, i;
      } else if mount.mountpoint == MOUNTPOINT_ROOT {
        root, lastRoot := k, i;
      }
      i := i + 1;
    }
    var boots := CountMounts(mounts, MOUNTPOINT_BOOT);
    if boots != 1 { return Err(NotOneBoot), warnings; }
    var roots := CountMounts(mounts, MOUNTPOINT_ROOT);
    if roots != 1 { return Err(NotOneRoot), warnings; }
    assert OnlyMountFor(mounts, MOUNTPOINT_BOOT, lastBoot) && MountFits(partitions, mounts, lastBoot);
    assert OnlyMountFor(mounts, MOUNTPOINT_ROOT, lastRoot) && MountFits(partitions, mounts, lastRoot);
    r, warnings := VerifyMountpoints(partitions[boot], partitions[root], warnings);
  }
}

/** The region list handed to the planner: libparted's walk in whole MiB, with mountpoints filled in
    (`PopulateDeviceWithParted`, `ApplyMountpoints`). Its free-space numbering is not the executor's. */
module StorageBuilder {
  import opened StorageTypes
  import opened SectorArithmetic
  import opened StoragePlanner
  import opened StorageLayout
  import Refinement = StorageRefinement
  import opened PartitionTable
  import opened PartitionStep
  import opened StorageSimulation

  function MiBOf(sectorSize: int, sectors: int): U64
    requires 0 < sectorSize && 0 <= sectors
  {
    WordQuotient(sectorSize, sectors);
    SectorsToMiB(sectorSize, sectors)
  }

  lemma WordQuotient(sectorSize: int, sectors: int)
    requires 0 < sectorSize && 0 <= sectors
    ensures 0 <= SectorsToMiB(sectorSize, sectors) < TWO_64
  {
    Division((sectorSize * sectors) % 0x1_0000_0000_0000_0000, 0x10_0000);
  }

  /** Gaps the walk reports before gap i, whatever their size: the builder's free-space counter. */
  ghost function CountedBefore(d: Disk, i: int): nat
    requires 0 <= i <= |d.parts| + 1
  {
    if i == 0 then 0 else CountedBefore(d, i - 1) + (if GapLen(d, i - 1) > 0 then 1 else 0)
  }

  ghost function GapRegion(d: Disk, diskPath: string, i: int): Region
    requires GapsOpen(d) && 0 <= i <= |d.parts|
  {
    Region(FreeSpaceRegionId(diskPath, CountedBefore(d, i) + 1), "", MiBOf(d.sectorSize, GapLen(d, i)), "")
  }

  ghost function GapRegions(d: Disk, diskPath: string, i: int): seq<Region>
    requires GapsOpen(d) && 0 <= i <= |d.parts|
  {
    if Listed(d, i) then [GapRegion(d, diskPath, i)] else []
  }

  /** Where a device path is mounted now, if anywhere. */
  function MountedAt(mounted: map<string, string>, device: string): string {
    if device in mounted then mounted[device] else ""
  }

  ghost function PartRegion(d: Disk, mounted: map<string, string>, i: int): Region
    requires GapsOpen(d) && 0 <= i < |d.parts| && d.parts[i].length >= 0
  {
    var p := d.parts[i];
    Region(p.path, p.probed, MiBOf(d.sectorSize, p.length), MountedAt(mounted, p.path))
  }

  ghost predicate LengthsOpen(d: Disk) {
    GapsOpen(d) && forall i | 0 <= i < |d.parts| :: d.parts[i].length >= 0
  }

  ghost function RegionPrefix(d: Disk, diskPath: string, mounted: map<string, string>, i: int): seq<Region>
    requires LengthsOpen(d) && 0 <= i <= |d.parts|
  {
    if i == 0 then []
    else RegionPrefix(d, diskPath, mounted, i - 1) + GapRegions(d, diskPath, i - 1) + [PartRegion(d, mounted, i - 1)]
  }

  /** The planner's initial regions for a partitioned device. */
  ghost function RegionsOf(d: Disk, diskPath: string, mounted: map<string, string>): seq<Region>
    requires LengthsOpen(d)
  {
    RegionPrefix(d, diskPath, mounted, |d.parts|) + GapRegions(d, diskPath, |d.parts|)
  }

  // ---------- the loops ----------

  /** The walk loop's result after the entries `es`. */
  ghost function Populated(es: seq<Entry>, sectorSize: int, diskPath: string): (seq<Region>, nat)
    requires 0 < sectorSize && forall e <- es :: e.length >= 0
  {
    if es == [] then ([], 0)
    else
      var (regions, index) := Populated(es[..|es| - 1], sectorSize, diskPath);
      var e := es[|es| - 1];
      if e.kind == Extended || e.kind == Metadata then (regions, index)
      else if e.kind == FreeSpace then
        if MiBOf(sectorSize, e.length) == 0 then (regions, index + 1)
        else (regions + [Region(FreeSpaceRegionId(diskPath, index + 1), "", MiBOf(sectorSize, e.length), "")],
              index + 1)
      else (regions + [Region(e.path, e.probed, MiBOf(sectorSize, e.length), "")], index)
  }

  method PopulateDevice(d: Disk, diskPath: string) returns (partitions: seq<Region>)
    requires Valid(d)
    ensures partitions == RegionsOf(d, diskPath, map[])
  {
    hide SectorsToMiB, FreeSpaceRegionId, Walk;
    var walk := Walk(d);
    WalkLengths(d);
    partitions := [];
    var freeSpaceIndex: nat := 0;
    var k := 0;
    while k < |walk|
      invariant 0 <= k <= |walk|
      invariant (partitions, freeSpaceIndex) == Populated(walk[..k], d.sectorSize, diskPath)
    {
      var part := walk[k];
      assert walk[..k + 1][..k] == walk[..k];
      k := k + 1;
      if part.kind == Extended { continue; }
      if part.kind == Metadata { continue; }
      var sizeMiB := MiBOf(d.sectorSize, part.length);
      if part.kind == FreeSpace {
        freeSpaceIndex := freeSpaceIndex + 1;
        if sizeMiB == 0 { continue; }
        partitions := partitions + [Region(FreeSpaceRegionId(diskPath, freeSpaceIndex), "", sizeMiB, "")];
      } else {
        partitions := partitions + [Region(part.path, part.probed, sizeMiB, "")];
      }
    }
    assert walk[..|walk|] == walk;
    PopulatedWalk(d, diskPath);
  }

  /** A region as shown with the mounts of the running system filled in. */
  function MountedRegion(r: Region, mounted: map<string, string>): Region {
    if r.device in mounted then r.(mountpoint := mounted[r.device]) else r
  }

  function WithMounts(rs: seq<Region>, mounted: map<string, string>): seq<Region> {
    seq(|rs|, i requires 0 <= i < |rs| => MountedRegion(rs[i], mounted))
  }

  method ApplyMountpoints(mounted: map<string, string>, input: seq<Region>) returns (partitions: seq<Region>)
    ensures partitions == WithMounts(input, mounted)
  {
    partitions := input;
    var i := 0;
    while i < |partitions|
      invariant 0 <= i <= |partitions| == |input|
      invariant forall j | 0 <= j < i :: partitions[j] == MountedRegion(input[j], mounted)
      invariant forall j | i <= j < |input| :: partitions[j] == input[j]
    {
      if partitions[i].device in mounted {
        partitions := partitions[i := partitions[i].(mountpoint := mounted[partitions[i].device])];
      }
      i := i + 1;
    }
  }

  lemma PopulatedNothing(sectorSize: int, diskPath: string)
    requires 0 < sectorSize
    ensures Populated([], sectorSize, diskPath) == ([], 0)
  {
  }

  lemma PopulatedAppend(es: seq<Entry>, e: Entry, sectorSize: int, diskPath: string)
    requires 0 < sectorSize && e.length >= 0 && forall x <- es :: x.length >= 0
    ensures forall x <- es + [e] :: x.length >= 0
    ensures var (regions, index) := Populated(es, sectorSize, diskPath);
            Populated(es + [e], sectorSize, diskPath) ==
              if e.kind == Extended || e.kind == Metadata then (regions, index)
              else if e.kind == FreeSpace then
                if MiBOf(sectorSize, e.length) == 0 then (regions, index + 1)
                else (regions + [Region(FreeSpaceRegionId(diskPath, index + 1), "", MiBOf(sectorSize, e.length), "")],
                      index + 1)
              else (regions + [Region(e.path, e.probed, MiBOf(sectorSize, e.length), "")], index)
  {
    assert (es + [e])[..|es + [e]| - 1] == es;
  }

  lemma PopulatedGap(d: Disk, es: seq<Entry>, diskPath: string, i: int)
    requires Valid(d) && 0 <= i <= |d.parts| && forall x <- es :: x.length >= 0
    requires Populated(es, d.sectorSize, diskPath).1 == CountedBefore(d, i)
    ensures forall x <- es + GapEntries(d, i) :: x.length >= 0
    ensures Populated(es + GapEntries(d, i), d.sectorSize, diskPath) ==
            (Populated(es, d.sectorSize, diskPath).0 + GapRegions(d, diskPath, i), CountedBefore(d, i + 1))
  {
    hide SectorsToMiB, FreeSpaceRegionId, Populated;
    var regions := Populated(es, d.sectorSize, diskPath).0;
    assert regions + [] == regions;
    if GapLen(d, i) > 0 {
      PopulatedAppend(es, GapEntries(d, i)[0], d.sectorSize, diskPath);
      assert GapEntries(d, i) == [GapEntries(d, i)[0]];
    } else {
      assert es + GapEntries(d, i) == es;
      NoSectors(d.sectorSize);
    }
  }

  lemma PopulatedPart(d: Disk, es: seq<Entry>, diskPath: string, i: int)
    requires Valid(d) && 0 <= i < |d.parts| && forall x <- es :: x.length >= 0
    ensures forall x <- es + [PartEntry(d, i)] :: x.length >= 0
    ensures Populated(es + [PartEntry(d, i)], d.sectorSize, diskPath) ==
            (Populated(es, d.sectorSize, diskPath).0 + [PartRegion(d, map[], i)],
             Populated(es, d.sectorSize, diskPath).1)
  {
    PopulatedAppend(es, PartEntry(d, i), d.sectorSize, diskPath);
  }

  lemma {:induction false} PopulatedPrefix(d: Disk, diskPath: string, i: int)
    requires Valid(d) && 0 <= i <= |d.parts|
    ensures forall e <- WalkPrefix(d, i) :: e.length >= 0
    ensures Populated(WalkPrefix(d, i), d.sectorSize, diskPath) ==
            (RegionPrefix(d, diskPath, map[], i), CountedBefore(d, i))
  {
    hide Populated, GapRegions, GapEntries, PartEntry, PartRegion, MiBOf;
    WalkPrefixLengths(d, i);
    if i == 0 {
      PopulatedNothing(d.sectorSize, diskPath);
      PopulatedAppend([], WalkPrefix(d, 0)[0], d.sectorSize, diskPath);
      assert [] + WalkPrefix(d, 0) == WalkPrefix(d, 0);
    } else {
      PopulatedPrefix(d, diskPath, i - 1);
      PopulatedGap(d, WalkPrefix(d, i - 1), diskPath, i - 1);
      PopulatedPart(d, WalkPrefix(d, i - 1) + GapEntries(d, i - 1), diskPath, i - 1);
    }
  }

  lemma PopulatedWalk(d: Disk, diskPath: string)
    requires Valid(d)
    ensures forall e <- Walk(d) :: e.length >= 0
    ensures Populated(Walk(d), d.sectorSize, diskPath).0 == RegionsOf(d, diskPath, map[])
  {
    hide GapRegions, GapEntries, MiBOf;
    var n := |d.parts|;
    WalkLengths(d);
    PopulatedPrefix(d, diskPath, n);
    PopulatedGap(d, WalkPrefix(d, n), diskPath, n);
    PopulatedAppend(WalkPrefix(d, n) + GapEntries(d, n), Entry(Metadata, d.limit, 0, 0, "", ""), d.sectorSize,
                    diskPath);
  }

  /** No mount of the running system is listed under the id of a free region. */
  ghost predicate GapsUnmounted(d: Disk, diskPath: string, mounted: map<string, string>, n: int)
    requires GapsOpen(d) && 0 <= n <= |d.parts| + 1
  {
    forall i | 0 <= i < n && Listed(d, i) :: MountedAt(mounted, GapRegion(d, diskPath, i).device) == ""
  }

  lemma ConcatEqual<T>(a: seq<T>, b: seq<T>, x: seq<T>, y: seq<T>)
    requires |a| == |x|
    ensures a + b == x + y <==> a == x && b == y
  {
    if a + b == x + y {
      assert a == (a + b)[..|a|] == (x + y)[..|x|] == x;
      assert b == (a + b)[|a|..] == (x + y)[|x|..] == y;
    }
  }

  lemma WithMountsConcat(a: seq<Region>, b: seq<Region>, mounted: map<string, string>)
    ensures WithMounts(a + b, mounted) == WithMounts(a, mounted) + WithMounts(b, mounted)
  {
  }

  lemma GapShown(d: Disk, diskPath: string, mounted: map<string, string>, i: int)
    requires GapsOpen(d) && 0 <= i <= |d.parts|
    ensures WithMounts(GapRegions(d, diskPath, i), mounted) == GapRegions(d, diskPath, i) <==>
            (Listed(d, i) ==> MountedAt(mounted, GapRegion(d, diskPath, i).device) == "")
  {
    hide GapRegion, Listed;
    var shown := WithMounts(GapRegions(d, diskPath, i), mounted);
    if Listed(d, i) {
      GapUnmounted(d, diskPath, i);
      assert shown == [MountedRegion(GapRegion(d, diskPath, i), mounted)];
      assert shown == GapRegions(d, diskPath, i) <==> shown[0] == GapRegion(d, diskPath, i);
    }
  }

  lemma GapUnmounted(d: Disk, diskPath: string, i: int)
    requires GapsOpen(d) && 0 <= i <= |d.parts|
    ensures GapRegion(d, diskPath, i).mountpoint == ""
  {
  }

  lemma PartShown(d: Disk, mounted: map<string, string>, i: int)
    requires LengthsOpen(d) && 0 <= i < |d.parts|
    ensures WithMounts([PartRegion(d, map[], i)], mounted) == [PartRegion(d, mounted, i)]
  {
    hide MiBOf;
  }

  lemma {:induction false} PrefixShown(d: Disk, diskPath: string, mounted: map<string, string>, n: int)
    requires LengthsOpen(d) && 0 <= n <= |d.parts|
    ensures |RegionPrefix(d, diskPath, map[], n)| == |RegionPrefix(d, diskPath, mounted, n)|
    ensures WithMounts(RegionPrefix(d, diskPath, map[], n), mounted) == RegionPrefix(d, diskPath, mounted, n) <==>
            GapsUnmounted(d, diskPath, mounted, n)
  {
    hide GapRegions, PartRegion, GapRegion, Listed, WithMounts;
    if n == 0 {
      ShownLength([], mounted);
    } else {
      var bare, shown := RegionPrefix(d, diskPath, map[], n - 1), RegionPrefix(d, diskPath, mounted, n - 1);
      var gap := GapRegions(d, diskPath, n - 1);
      PrefixShown(d, diskPath, mounted, n - 1);
      GapShown(d, diskPath, mounted, n - 1);
      PartShown(d, mounted, n - 1);
      WithMountsConcat(bare, gap, mounted);
      WithMountsConcat(bare + gap, [PartRegion(d, map[], n - 1)], mounted);
      ShownLength(bare, mounted);
      ShownLength(gap, mounted);
      ConcatEqual(WithMounts(bare, mounted), WithMounts(gap, mounted), shown, gap);
      ConcatEqual(WithMounts(bare, mounted) + WithMounts(gap, mounted), [PartRegion(d, mounted, n - 1)],
                  shown + gap, [PartRegion(d, mounted, n - 1)]);
    }
  }

  lemma ShownLength(rs: seq<Region>, mounted: map<string, string>)
    ensures |WithMounts(rs, mounted)| == |rs|
  {
  }

  /** Filling in the mounts gives the planner's initial regions exactly when none is listed under the id of a free
      region; otherwise a free region carries a mountpoint. */
  lemma ShownRegionsExactly(d: Disk, diskPath: string, mounted: map<string, string>)
    requires LengthsOpen(d)
    ensures WithMounts(RegionsOf(d, diskPath, map[]), mounted) == RegionsOf(d, diskPath, mounted) <==>
            GapsUnmounted(d, diskPath, mounted, |d.parts| + 1)
  {
    hide GapRegions, PartRegion, GapRegion, Listed, WithMounts, RegionPrefix;
    var n := |d.parts|;
    var bare, gap := RegionPrefix(d, diskPath, map[], n), GapRegions(d, diskPath, n);
    PrefixShown(d, diskPath, mounted, n);
    GapShown(d, diskPath, mounted, n);
    WithMountsConcat(bare, gap, mounted);
    ShownLength(bare, mounted);
    ConcatEqual(WithMounts(bare, mounted), WithMounts(gap, mounted), RegionPrefix(d, diskPath, mounted, n), gap);
  }

  // ---------- the initial state is sound and in step ----------

  /** A probe always names a filesystem, "unknown" included, so a partition never looks like free space. */
  ghost predicate Probed(d: Disk) {
    forall i | 0 <= i < |d.parts| :: d.parts[i].probed != ""
  }

  ghost predicate PlannedLayout(l: Layout, d: Disk, mounted: map<string, string>, n: int)
    requires LengthsOpen(d) && 0 <= n <= |d.parts|
  {
    |l.parts| == n && |l.gaps| == n + 1 &&
    (forall i | 0 <= i < n :: l.parts[i] == PartRegion(d, mounted, i)) &&
    (forall i | 0 <= i < n :: l.gaps[i] == MiBOf(d.sectorSize, GapLen(d, i)))
  }

  lemma GapShape(d: Disk, diskPath: string, i: int)
    requires LengthsOpen(d) && 0 <= i <= |d.parts|
    ensures ShapeOf(GapRegions(d, diskPath, i)) == Layout([], [MiBOf(d.sectorSize, GapLen(d, i))])
    ensures Total(GapRegions(d, diskPath, i)) == MiBOf(d.sectorSize, GapLen(d, i))
  {
  }

  lemma {:induction false} PrefixShape(d: Disk, diskPath: string, mounted: map<string, string>, n: int)
    requires LengthsOpen(d) && Probed(d) && 0 <= n <= |d.parts|
    ensures var l := ShapeOf(RegionPrefix(d, diskPath, mounted, n));
            PlannedLayout(l, d, mounted, n) && l.gaps[n] == 0
    ensures |RegionPrefix(d, diskPath, mounted, n)| == n + ListedBefore(d, n)
  {
    hide MiBOf, FreeSpaceRegionId, GapRegions, Total, ShapeOf, Join, Prepend, PartRegion, ListedBefore;
    EmptyShape();
    if n > 0 {
      var before, gap, part := RegionPrefix(d, diskPath, mounted, n - 1), GapRegions(d, diskPath, n - 1),
          PartRegion(d, mounted, n - 1);
      PrefixShape(d, diskPath, mounted, n - 1);
      GapShape(d, diskPath, n - 1);
      ListedNext(d, diskPath, n - 1);
      PartIsNotFree(d, mounted, n - 1);
      ShapeConcat(before, gap);
      Refinement.ShapeOfThree(before + gap, part, []);
      assert before + gap + [part] + [] == before + gap + [part];
      ExtendLayout(ShapeOf(before), MiBOf(d.sectorSize, GapLen(d, n - 1)), part);
    } else {
      ListedNone(d);
    }
  }

  lemma EmptyShape()
    ensures ShapeOf([]) == Layout([], [0])
  {
  }

  lemma ListedNone(d: Disk)
    requires GapsOpen(d)
    ensures ListedBefore(d, 0) == 0
  {
  }

  lemma PartIsNotFree(d: Disk, mounted: map<string, string>, i: int)
    requires LengthsOpen(d) && Probed(d) && 0 <= i < |d.parts|
    ensures !PartRegion(d, mounted, i).IsFree()
  {
  }

  lemma ExtendLayout(l: Layout, gap: int, part: Region)
    requires l.Valid() && !part.IsFree()
    ensures var n := |l.parts|;
            Join(Join(l, Layout([], [gap])), Prepend(part, Layout([], [0]))) ==
            Layout(l.parts + [part], l.gaps[..n] + [l.gaps[n] + gap, 0])
  {
  }

  lemma ListedNext(d: Disk, diskPath: string, i: int)
    requires LengthsOpen(d) && 0 <= i <= |d.parts|
    ensures |GapRegions(d, diskPath, i)| == ListedBefore(d, i + 1) - ListedBefore(d, i)
  {
  }

  /** The planner starts from the partitions in order and the whole MiB of every gap. */
  lemma InitialShape(d: Disk, diskPath: string, mounted: map<string, string>)
    requires LengthsOpen(d) && Probed(d)
    ensures var l, n := ShapeOf(RegionsOf(d, diskPath, mounted)), |d.parts|;
            PlannedLayout(l, d, mounted, n) && l.gaps[n] == MiBOf(d.sectorSize, GapLen(d, n))
  {
    hide MiBOf, GapRegions;
    var n := |d.parts|;
    PrefixShape(d, diskPath, mounted, n);
    GapShape(d, diskPath, n);
    ShapeConcat(RegionPrefix(d, diskPath, mounted, n), GapRegions(d, diskPath, n));
  }

  /** On a labelled device, planner and executor start in step exactly when nothing is mounted at the boot or
      root mountpoint already. */
  lemma InitiallyRelated(d: Disk, diskPath: string, mounted: map<string, string>, perMiB: int)
    requires Valid(d) && Probed(d) && WholeSectors(d.sectorSize, perMiB)
    ensures Related(ShapeOf(RegionsOf(d, diskPath, mounted)), Execution(d, map[], map[], map[]), perMiB) <==>
            forall i | 0 <= i < |d.parts| :: !IsValidMountpoint(MountedAt(mounted, d.parts[i].path))
  {
    hide SectorsToMiB, GapLen, RegionsOf, ShapeOf, IsValidMountpoint;
    var l := ShapeOf(RegionsOf(d, diskPath, mounted));
    var s := Execution(d, map[], map[], map[]);
    InitialShape(d, diskPath, mounted);
    forall i | 0 <= i <= |d.parts| ensures Covers(l.gaps[i], GapLen(d, i), perMiB) {
      GapBounds(d, i);
      RunBounds(d, perMiB, GapLen(d, i), l.gaps[i]);
    }
    forall i | 0 <= i < |d.parts|
      ensures Covers(l.parts[i].sizeMiB, d.parts[i].length, perMiB)
      ensures SameChoices(l.parts[i], d.parts[i], s) <==> !IsValidMountpoint(MountedAt(mounted, d.parts[i].path))
    {
      GapBounds(d, i);
      RunBounds(d, perMiB, d.parts[i].length, l.parts[i].sizeMiB);
    }
  }

  lemma {:induction false} PrefixTotal(d: Disk, diskPath: string, mounted: map<string, string>, perMiB: int, n: int)
    requires Valid(d) && WholeSectors(d.sectorSize, perMiB) && 0 <= n <= |d.parts|
    ensures Covers(Total(RegionPrefix(d, diskPath, mounted, n)), EndBefore(d, n), perMiB)
  {
    hide SectorsToMiB, GapRegions;
    if n == 0 {
      CoversNothing(d.first, perMiB);
    } else {
      var before, gap, part := RegionPrefix(d, diskPath, mounted, n - 1), GapRegions(d, diskPath, n - 1),
          PartRegion(d, mounted, n - 1);
      PrefixTotal(d, diskPath, mounted, perMiB, n - 1);
      GapTotal(d, diskPath, perMiB, n - 1);
      GapBounds(d, n - 1);
      RunBounds(d, perMiB, d.parts[n - 1].length, part.sizeMiB);
      TotalConcat(before, gap);
      TotalConcat(before + gap, [part]);
      CoversAdd(Total(before), Total(gap), EndBefore(d, n - 1), GapLen(d, n - 1), perMiB);
      CoversAdd(Total(before + gap), part.sizeMiB, EndBefore(d, n - 1) + GapLen(d, n - 1), d.parts[n - 1].length,
                perMiB);
    }
  }

  lemma GapTotal(d: Disk, diskPath: string, perMiB: int, i: int)
    requires Valid(d) && WholeSectors(d.sectorSize, perMiB) && 0 <= i <= |d.parts|
    ensures Covers(Total(GapRegions(d, diskPath, i)), GapLen(d, i), perMiB)
  {
    GapShape(d, diskPath, i);
    GapBounds(d, i);
    RunBounds(d, perMiB, GapLen(d, i), MiBOf(d.sectorSize, GapLen(d, i)));
  }

  lemma {:induction false} PrefixMerged(d: Disk, diskPath: string, mounted: map<string, string>, n: int)
    requires LengthsOpen(d) && Probed(d) && 0 <= n <= |d.parts|
    ensures var rs := RegionPrefix(d, diskPath, mounted, n);
            NoAdjacentFree(rs) && FreeUnmounted(rs) && (rs != [] ==> !rs[|rs| - 1].IsFree())
  {
    hide MiBOf, Listed, GapRegion, PartRegion, RegionPrefix, NoAdjacentFree, FreeUnmounted;
    if n == 0 {
      NoRegions(d, diskPath, mounted);
      MergedNothing();
    } else {
      PrefixMerged(d, diskPath, mounted, n - 1);
      PartIsNotFree(d, mounted, n - 1);
      GapIsFree(d, diskPath, n - 1);
      RegionPrefixNext(d, diskPath, mounted, n - 1);
      MergedAppend(RegionPrefix(d, diskPath, mounted, n - 1), GapRegions(d, diskPath, n - 1),
                   PartRegion(d, mounted, n - 1));
    }
  }

  lemma MergedNothing()
    ensures NoAdjacentFree([]) && FreeUnmounted([])
  {
  }

  /** A free region, if any, and a partition behind a list that does not end in free space. */
  lemma MergedAppend(before: seq<Region>, gap: seq<Region>, part: Region)
    requires NoAdjacentFree(before) && FreeUnmounted(before) && (before != [] ==> !before[|before| - 1].IsFree())
    requires |gap| <= 1 && (gap != [] ==> gap[0].IsFree() && gap[0].mountpoint == "") && !part.IsFree()
    ensures NoAdjacentFree(before + gap + [part]) && FreeUnmounted(before + gap + [part])
  {
    var rs := before + gap + [part];
    forall i, j | 0 <= i < j < |rs| && j == i + 1 ensures !(rs[i].IsFree() && rs[j].IsFree()) {
      if j < |before| { assert rs[i] == before[i] && rs[j] == before[j]; }
    }
    forall r <- rs ensures r.IsFree() ==> r.mountpoint == "" {
      assert r in before || r in gap || r == part;
    }
  }

  lemma GapIsFree(d: Disk, diskPath: string, i: int)
    requires LengthsOpen(d) && 0 <= i <= |d.parts|
    ensures GapRegion(d, diskPath, i).IsFree() && GapRegion(d, diskPath, i).mountpoint == ""
  {
  }

  /** The regions handed to the planner satisfy everything it needs: free space merged and unmounted, sizes in
      range. */
  lemma InitiallySound(d: Disk, diskPath: string, mounted: map<string, string>, perMiB: int)
    requires Valid(d) && Probed(d) && WholeSectors(d.sectorSize, perMiB)
    ensures Refinement.Sound(RegionsOf(d, diskPath, mounted))
  {
    hide MiBOf, Listed, FreeSpaceRegionId, SectorsToMiB, RegionPrefix;
    var n := |d.parts|;
    var before, gap := RegionPrefix(d, diskPath, mounted, n), GapRegions(d, diskPath, n);
    PrefixMerged(d, diskPath, mounted, n);
    PrefixTotal(d, diskPath, mounted, perMiB, n);
    GapTotal(d, diskPath, perMiB, n);
    TotalConcat(before, gap);
    CoversAdd(Total(before), Total(gap), EndBefore(d, n), GapLen(d, n), perMiB);
    assert Covers(Total(before + gap), d.limit, perMiB);
    Scale(1, perMiB, Total(before + gap));
    Scale(1, d.sectorSize, d.limit);
  }

  // ---------- names of gaps ----------

  lemma {:induction false} CountsCompare(d: Disk, i: int)
    requires GapsOpen(d) && 0 <= i <= |d.parts| + 1
    ensures ListedBefore(d, i) <= CountedBefore(d, i)
    ensures ListedBefore(d, i) == CountedBefore(d, i) <==>
            forall j | 0 <= j < i :: GapLen(d, j) > 0 ==> Listed(d, j)
  {
    NoSectors(d.sectorSize);
    if i > 0 { CountsCompare(d, i - 1); }
  }

  lemma {:induction false} ListedGrows(d: Disk, i: int, j: int)
    requires GapsOpen(d) && 0 <= i < j <= |d.parts| && Listed(d, i)
    ensures ListedBefore(d, i) < ListedBefore(d, j) && CountedBefore(d, i) < CountedBefore(d, j)
    decreases j
  {
    NoSectors(d.sectorSize);
    if i + 1 < j { ListedGrows(d, i, j - 1); }
  }

  lemma {:induction false} RegionPrefixGrows(d: Disk, diskPath: string, mounted: map<string, string>, i: int, j: int)
    requires LengthsOpen(d) && 0 <= i <= j <= |d.parts|
    ensures RegionPrefix(d, diskPath, mounted, i) <= RegionPrefix(d, diskPath, mounted, j)
    decreases j
  {
    hide GapRegions, PartRegion;
    if i < j { RegionPrefixGrows(d, diskPath, mounted, i, j - 1); }
  }

  /** A listed gap is in the region list right after everything before it. */
  lemma GapRegionAt(d: Disk, diskPath: string, mounted: map<string, string>, i: int)
    requires LengthsOpen(d) && Probed(d) && 0 <= i <= |d.parts| && Listed(d, i)
    ensures var rs, k := RegionsOf(d, diskPath, mounted), i + ListedBefore(d, i);
            k < |rs| && rs[k] == GapRegion(d, diskPath, i) && rs[..k] == RegionPrefix(d, diskPath, mounted, i) &&
            SlotAt(rs, k) == i
  {
    hide GapRegion, PartRegion, ShapeOf, RegionPrefix, ListedBefore, Listed;
    var rs, before := RegionsOf(d, diskPath, mounted), RegionPrefix(d, diskPath, mounted, i);
    PrefixShape(d, diskPath, mounted, i);
    if i < |d.parts| {
      RegionPrefixGrows(d, diskPath, mounted, i + 1, |d.parts|);
      RegionPrefixNext(d, diskPath, mounted, i);
      PrefixSlice(before, GapRegion(d, diskPath, i), [PartRegion(d, mounted, i)], rs);
    } else {
      assert before + [GapRegion(d, diskPath, i)] + [] == rs;
      PrefixSlice(before, GapRegion(d, diskPath, i), [], rs);
    }
  }

  lemma NoRegions(d: Disk, diskPath: string, mounted: map<string, string>)
    requires LengthsOpen(d)
    ensures RegionPrefix(d, diskPath, mounted, 0) == []
  {
  }

  lemma RegionPrefixNext(d: Disk, diskPath: string, mounted: map<string, string>, i: int)
    requires LengthsOpen(d) && 0 <= i < |d.parts|
    ensures RegionPrefix(d, diskPath, mounted, i + 1) ==
            RegionPrefix(d, diskPath, mounted, i) + GapRegions(d, diskPath, i) + [PartRegion(d, mounted, i)]
  {
  }

  lemma PrefixSlice(before: seq<Region>, r: Region, tail: seq<Region>, rs: seq<Region>)
    requires before + [r] + tail <= rs
    ensures |before| < |rs| && rs[|before|] == r && rs[..|before|] == before
  {
    var p := before + [r] + tail;
    assert p[|before|] == r && p[..|before|] == before;
    assert rs[|before|] == p[|before|];
  }
}

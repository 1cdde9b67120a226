/** A flat partition table as libparted hands it over: ordered, disjoint partitions in the usable range of a
    device. Its maximal gaps are the free space. Also the view of it that the partitioning step builds. */
module PartitionTable {
  import opened StorageTypes
  import opened SectorArithmetic
  import opened Numerals

  datatype Part = Part(path: string, start: int, length: int, probed: string)

  /** Usable sectors are first..limit; `probed` is the filesystem found on a partition. */
  datatype Disk = Disk(sectorSize: int, first: int, limit: int, parts: seq<Part>)

  function EndBefore(d: Disk, i: int): int
    requires 0 <= i <= |d.parts|
  {
    if i == 0 then d.first else d.parts[i - 1].start + d.parts[i - 1].length
  }

  function StartAfter(d: Disk, i: int): int
    requires 0 <= i <= |d.parts|
  {
    if i < |d.parts| then d.parts[i].start else d.limit
  }

  /** Free sectors before partition i (after the last one for i == |parts|). */
  function GapLen(d: Disk, i: int): int
    requires 0 <= i <= |d.parts|
  {
    StartAfter(d, i) - EndBefore(d, i)
  }

  ghost predicate Valid(d: Disk) {
    0 < d.sectorSize <= MIB && 0 <= d.first <= d.limit && d.sectorSize * d.limit < TWO_63 &&
    (forall i | 0 <= i < |d.parts| :: d.parts[i].length >= 1) &&
    (forall i | 0 <= i <= |d.parts| :: GapLen(d, i) >= 0)
  }

  /** Device paths never contain the mark that free-space ids carry. */
  ghost predicate IsPath(path: string) {
    path != "" && '#' !in path
  }

  /** Every partition has its own path. */
  ghost predicate DistinctPaths(d: Disk) {
    (forall i | 0 <= i < |d.parts| :: IsPath(d.parts[i].path)) &&
    (forall i, j | 0 <= i < j < |d.parts| :: d.parts[i].path != d.parts[j].path)
  }

  function Paths(d: Disk): set<string> {
    set i | 0 <= i < |d.parts| :: d.parts[i].path
  }

  // ---------- libparted's walk over the table ----------

  datatype Kind = Metadata | Extended | FreeSpace | Normal

  /** One step of the walk; `slot` stands for the libparted handle: a gap or a partition index. */
  datatype Entry = Entry(kind: Kind, start: int, length: int, slot: int, path: string, probed: string)

  function GapEntries(d: Disk, i: int): seq<Entry>
    requires 0 <= i <= |d.parts|
  {
    if GapLen(d, i) > 0 then [Entry(FreeSpace, EndBefore(d, i), GapLen(d, i), i, "", "")] else []
  }

  function PartEntry(d: Disk, i: int): Entry
    requires 0 <= i < |d.parts|
  {
    var p := d.parts[i];
    Entry(Normal, p.start, p.length, i, p.path, p.probed)
  }

  function WalkPrefix(d: Disk, i: int): seq<Entry>
    requires 0 <= i <= |d.parts|
  {
    if i == 0 then [Entry(Metadata, 0, d.first, 0, "", "")]
    else WalkPrefix(d, i - 1) + GapEntries(d, i - 1) + [PartEntry(d, i - 1)]
  }

  function Walk(d: Disk): seq<Entry> {
    WalkPrefix(d, |d.parts|) + GapEntries(d, |d.parts|) + [Entry(Metadata, d.limit, 0, 0, "", "")]
  }

  // ---------- the view of the partitioning step ----------

  datatype View = View(id: string, filesystem: string, slot: int, isFree: bool)

  function FreeSpaceRegionId(diskPath: string, index: nat): string {
    diskPath + "#free-" + ToString(index)
  }

  lemma FreeIdInjective(diskPath: string, a: nat, b: nat)
    ensures FreeSpaceRegionId(diskPath, a) == FreeSpaceRegionId(diskPath, b) <==> a == b
    ensures '#' in FreeSpaceRegionId(diskPath, a)
  {
    var x, y := FreeSpaceRegionId(diskPath, a), FreeSpaceRegionId(diskPath, b);
    var n := |diskPath| + 6;
    assert x[n..] == ToString(a) && y[n..] == ToString(b);
    ToStringInjective(a, b);
    assert x[|diskPath|] == '#';
  }

  /** A gap is listed when it holds at least one whole MiB. */
  predicate Listed(d: Disk, i: int)
    requires 0 < d.sectorSize && 0 <= i <= |d.parts| && GapLen(d, i) >= 0
  {
    SectorsToMiB(d.sectorSize, GapLen(d, i)) != 0
  }

  ghost predicate GapsOpen(d: Disk) {
    0 < d.sectorSize && forall i | 0 <= i <= |d.parts| :: GapLen(d, i) >= 0
  }

  /** How many listed gaps come before gap i. */
  ghost function ListedBefore(d: Disk, i: int): nat
    requires GapsOpen(d) && 0 <= i <= |d.parts| + 1
  {
    if i == 0 then 0 else ListedBefore(d, i - 1) + (if Listed(d, i - 1) then 1 else 0)
  }

  ghost function FreeView(d: Disk, diskPath: string, i: int): View
    requires GapsOpen(d) && 0 <= i <= |d.parts|
  {
    View(FreeSpaceRegionId(diskPath, ListedBefore(d, i) + 1), "", i, true)
  }

  ghost function PartView(d: Disk, i: int): View
    requires 0 <= i < |d.parts|
  {
    View(d.parts[i].path, d.parts[i].probed, i, false)
  }

  ghost function GapViews(d: Disk, diskPath: string, i: int): seq<View>
    requires GapsOpen(d) && 0 <= i <= |d.parts|
  {
    if Listed(d, i) then [FreeView(d, diskPath, i)] else []
  }

  /** The view of everything before gap i. */
  ghost function ViewPrefix(d: Disk, diskPath: string, i: int): (v: seq<View>)
    requires GapsOpen(d) && 0 <= i <= |d.parts|
    ensures |v| == i + ListedBefore(d, i)
    ensures forall e <- v :: if e.isFree then 0 <= e.slot < i && Listed(d, e.slot) && e == FreeView(d, diskPath, e.slot)
                             else 0 <= e.slot < i && e == PartView(d, e.slot)
  {
    if i == 0 then []
    else ViewPrefix(d, diskPath, i - 1) + GapViews(d, diskPath, i - 1) + [PartView(d, i - 1)]
  }

  ghost function ViewOf(d: Disk, diskPath: string): (v: seq<View>)
    requires GapsOpen(d)
    ensures |v| == |d.parts| + ListedBefore(d, |d.parts| + 1)
    ensures forall e <- v ::
      if e.isFree then 0 <= e.slot <= |d.parts| && Listed(d, e.slot) && e == FreeView(d, diskPath, e.slot)
      else 0 <= e.slot < |d.parts| && e == PartView(d, e.slot)
  {
    ViewPrefix(d, diskPath, |d.parts|) + GapViews(d, diskPath, |d.parts|)
  }

  /** What the view-building loop has after the walk entries `es`: the views and the free-space counter. */
  ghost function Viewed(es: seq<Entry>, sectorSize: int, diskPath: string): (seq<View>, nat)
    requires 0 < sectorSize && forall e <- es :: e.length >= 0
  {
    if es == [] then ([], 0)
    else
      var (views, index) := Viewed(es[..|es| - 1], sectorSize, diskPath);
      var e := es[|es| - 1];
      if e.kind == Extended || e.kind == Metadata then (views, index)
      else if e.kind == FreeSpace then
        if SectorsToMiB(sectorSize, e.length) == 0 then (views, index)
        else (views + [View(FreeSpaceRegionId(diskPath, index + 1), "", e.slot, true)], index + 1)
      else (views + [View(e.path, e.probed, e.slot, false)], index)
  }

  method BuildPartitionView(d: Disk, diskPath: string) returns (partitions: seq<View>)
    requires Valid(d)
    ensures partitions == ViewOf(d, diskPath)
  {
    hide SectorsToMiB, FreeSpaceRegionId, Walk;
    var walk := Walk(d);
    WalkLengths(d);
    partitions := [];
    var freeSpaceIndex: nat := 0;
    var k := 0;
    while k < |walk|
      invariant 0 <= k <= |walk|
      invariant (partitions, freeSpaceIndex) == Viewed(walk[..k], d.sectorSize, diskPath)
    {
      var part := walk[k];
      assert walk[..k + 1][..k] == walk[..k];
      k := k + 1;
      if part.kind == Extended { continue; }
      if part.kind == Metadata { continue; }
      if part.kind == FreeSpace {
        if SectorsToMiB(d.sectorSize, part.length) == 0 { continue; }
        freeSpaceIndex := freeSpaceIndex + 1;
        partitions := partitions + [View(FreeSpaceRegionId(diskPath, freeSpaceIndex), "", part.slot, true)];
        continue;
      }
      partitions := partitions + [View(part.path, part.probed, part.slot, false)];
    }
    assert walk[..|walk|] == walk;
    ViewedWalk(d, diskPath);
  }

  lemma {:induction false} WalkPrefixLengths(d: Disk, i: int)
    requires Valid(d) && 0 <= i <= |d.parts|
    ensures forall e <- WalkPrefix(d, i) :: e.length >= 0
  {
    if i > 0 { WalkPrefixLengths(d, i - 1); }
  }

  lemma WalkLengths(d: Disk)
    requires Valid(d)
    ensures forall e <- Walk(d) :: e.length >= 0
  {
    WalkPrefixLengths(d, |d.parts|);
  }

  lemma ViewedNothing(sectorSize: int, diskPath: string)
    requires 0 < sectorSize
    ensures Viewed([], sectorSize, diskPath) == ([], 0)
  {
  }

  lemma ViewedAppend(es: seq<Entry>, e: Entry, sectorSize: int, diskPath: string)
    requires 0 < sectorSize && e.length >= 0 && forall x <- es :: x.length >= 0
    ensures forall x <- es + [e] :: x.length >= 0
    ensures var (views, index) := Viewed(es, sectorSize, diskPath);
            Viewed(es + [e], sectorSize, diskPath) ==
              if e.kind == Extended || e.kind == Metadata then (views, index)
              else if e.kind == FreeSpace then
                if SectorsToMiB(sectorSize, e.length) == 0 then (views, index)
                else (views + [View(FreeSpaceRegionId(diskPath, index + 1), "", e.slot, true)], index + 1)
              else (views + [View(e.path, e.probed, e.slot, false)], index)
  {
    assert (es + [e])[..|es + [e]| - 1] == es;
  }

  lemma ViewedGap(d: Disk, es: seq<Entry>, diskPath: string, i: int)
    requires Valid(d) && 0 <= i <= |d.parts| && forall x <- es :: x.length >= 0
    requires Viewed(es, d.sectorSize, diskPath).1 == ListedBefore(d, i)
    ensures forall x <- es + GapEntries(d, i) :: x.length >= 0
    ensures Viewed(es + GapEntries(d, i), d.sectorSize, diskPath) ==
            (Viewed(es, d.sectorSize, diskPath).0 + GapViews(d, diskPath, i), ListedBefore(d, i + 1))
  {
    hide SectorsToMiB, FreeSpaceRegionId, Viewed;
    if GapLen(d, i) > 0 {
      ViewedAppend(es, GapEntries(d, i)[0], d.sectorSize, diskPath);
      assert GapEntries(d, i) == [GapEntries(d, i)[0]];
    } else {
      assert es + GapEntries(d, i) == es;
      NoSectors(d.sectorSize);
    }
    assert Viewed(es, d.sectorSize, diskPath).0 + [] == Viewed(es, d.sectorSize, diskPath).0;
  }

  lemma ViewedPart(d: Disk, es: seq<Entry>, diskPath: string, i: int)
    requires Valid(d) && 0 <= i < |d.parts| && forall x <- es :: x.length >= 0
    ensures forall x <- es + [PartEntry(d, i)] :: x.length >= 0
    ensures Viewed(es + [PartEntry(d, i)], d.sectorSize, diskPath) ==
            (Viewed(es, d.sectorSize, diskPath).0 + [PartView(d, i)], Viewed(es, d.sectorSize, diskPath).1)
  {
    ViewedAppend(es, PartEntry(d, i), d.sectorSize, diskPath);
  }

  lemma {:induction false} ViewedPrefix(d: Disk, diskPath: string, i: int)
    requires Valid(d) && 0 <= i <= |d.parts|
    ensures forall e <- WalkPrefix(d, i) :: e.length >= 0
    ensures Viewed(WalkPrefix(d, i), d.sectorSize, diskPath) == (ViewPrefix(d, diskPath, i), ListedBefore(d, i))
  {
    hide Viewed, GapViews, GapEntries, Listed, PartEntry, PartView;
    WalkPrefixLengths(d, i);
    if i == 0 {
      assert Viewed([], d.sectorSize, diskPath) == ([], 0) by { ViewedNothing(d.sectorSize, diskPath); }
      ViewedAppend([], WalkPrefix(d, 0)[0], d.sectorSize, diskPath);
      assert [] + WalkPrefix(d, 0) == WalkPrefix(d, 0);
    } else {
      ViewedPrefix(d, diskPath, i - 1);
      ViewedGap(d, WalkPrefix(d, i - 1), diskPath, i - 1);
      ViewedPart(d, WalkPrefix(d, i - 1) + GapEntries(d, i - 1), diskPath, i - 1);
    }
  }

  lemma ViewedWalk(d: Disk, diskPath: string)
    requires Valid(d)
    ensures forall e <- Walk(d) :: e.length >= 0
    ensures Viewed(Walk(d), d.sectorSize, diskPath).0 == ViewOf(d, diskPath)
  {
    var n := |d.parts|;
    WalkLengths(d);
    ViewedPrefix(d, diskPath, n);
    ViewedGap(d, WalkPrefix(d, n), diskPath, n);
    ViewedAppend(WalkPrefix(d, n) + GapEntries(d, n), Entry(Metadata, d.limit, 0, 0, "", ""), d.sectorSize, diskPath);
  }

  // ---------- where things are in the view ----------

  ghost function PartPosition(d: Disk, i: int): int
    requires GapsOpen(d) && 0 <= i < |d.parts|
  {
    i + ListedBefore(d, i + 1)
  }

  lemma {:induction false} ViewPrefixGrows(d: Disk, diskPath: string, i: int, j: int)
    requires GapsOpen(d) && 0 <= i <= j <= |d.parts|
    ensures ViewPrefix(d, diskPath, i) <= ViewPrefix(d, diskPath, j)
    decreases j
  {
    hide Listed, GapViews, PartView;
    if i < j { ViewPrefixGrows(d, diskPath, i, j - 1); }
  }

  /** Partition i is at its position, a listed gap i just before it. */
  lemma ViewAt(d: Disk, diskPath: string, i: int)
    requires GapsOpen(d) && 0 <= i <= |d.parts|
    ensures var v, at := ViewOf(d, diskPath), i + ListedBefore(d, i);
            (Listed(d, i) ==> at < |v| && v[at] == FreeView(d, diskPath, i)) &&
            (i < |d.parts| ==> PartPosition(d, i) < |v| && v[PartPosition(d, i)] == PartView(d, i)) &&
            (i == |d.parts| && !Listed(d, i) ==> at == |v|)
  {
    hide Listed, FreeView, PartView, ViewPrefix, ViewOf;
    var n, v := |d.parts|, ViewOf(d, diskPath);
    ViewSplit(d, diskPath, i);
    if i < n {
      ViewPrefixGrows(d, diskPath, i + 1, n);
      InPrefix(ViewPrefix(d, diskPath, i), GapViews(d, diskPath, i), PartView(d, i), ViewPrefix(d, diskPath, n), v);
    }
  }

  lemma ViewSplit(d: Disk, diskPath: string, i: int)
    requires GapsOpen(d) && 0 <= i <= |d.parts|
    ensures ViewPrefix(d, diskPath, |d.parts|) + GapViews(d, diskPath, |d.parts|) == ViewOf(d, diskPath)
    ensures i < |d.parts| ==>
      ViewPrefix(d, diskPath, i + 1) == ViewPrefix(d, diskPath, i) + GapViews(d, diskPath, i) + [PartView(d, i)]
  {
    hide GapViews, PartView;
  }

  lemma InPrefix(before: seq<View>, gap: seq<View>, part: View, all: seq<View>, v: seq<View>)
    requires before + gap + [part] <= all <= v
    ensures |before| + |gap| < |v| && v[|before| + |gap|] == part
    ensures gap != [] ==> v[|before|] == gap[0]
  {
    var p := before + gap + [part];
    assert p[|before| + |gap|] == part && (gap != [] ==> p[|before|] == gap[0]);
    assert forall k | 0 <= k < |p| :: p[k] == all[k] == v[k];
  }

  function FindView(v: seq<View>, id: string): (k: nat)
    ensures k <= |v|
    ensures k < |v| ==> v[k].id == id
    ensures forall j | 0 <= j < k :: v[j].id != id
  {
    if v == [] then 0 else if v[0].id == id then 0 else 1 + FindView(v[1..], id)
  }

  /** Looking a partition up by its path finds that partition. */
  lemma PathFound(d: Disk, diskPath: string, i: int)
    requires GapsOpen(d) && DistinctPaths(d) && 0 <= i < |d.parts|
    ensures FindView(ViewOf(d, diskPath), d.parts[i].path) == PartPosition(d, i)
  {
    var v := ViewOf(d, diskPath);
    var k := FindView(v, d.parts[i].path);
    ViewAt(d, diskPath, i);
    var at := PartPosition(d, i);
    FreeIdsMarked(d, diskPath);
    if k < at {
      if v[k].isFree {
        assert false;
      } else {
        PositionsDiffer(d, diskPath, k, at);
      }
    }
  }

  lemma FreeIdsMarked(d: Disk, diskPath: string)
    requires GapsOpen(d)
    ensures forall e <- ViewOf(d, diskPath) | e.isFree :: '#' in e.id
  {
    forall e <- ViewOf(d, diskPath) | e.isFree ensures '#' in e.id {
      FreeIdInjective(diskPath, ListedBefore(d, e.slot) + 1, 0);
    }
  }

  lemma {:induction false} ViewPrefixSlots(d: Disk, diskPath: string, m: int, k: int)
    requires GapsOpen(d) && 0 <= m <= |d.parts| && 0 <= k < |ViewPrefix(d, diskPath, m)|
    requires !ViewPrefix(d, diskPath, m)[k].isFree
    ensures k == PartPosition(d, ViewPrefix(d, diskPath, m)[k].slot)
  {
    hide Listed, FreeSpaceRegionId, ViewPrefix, ViewOf;
    ViewEmpty(d, diskPath);
    ViewSplit(d, diskPath, m - 1);
    var prev, gap := ViewPrefix(d, diskPath, m - 1), GapViews(d, diskPath, m - 1);
    var v := prev + gap + [PartView(d, m - 1)];
    if k < |prev| {
      assert v[k] == prev[k];
      ViewPrefixSlots(d, diskPath, m - 1, k);
    } else if k < |prev + gap| {
      assert false;
    }
  }

  lemma ViewEmpty(d: Disk, diskPath: string)
    requires GapsOpen(d)
    ensures ViewPrefix(d, diskPath, 0) == []
  {
  }

  /** A partition entry of the view stands at its partition's position. */
  lemma PartAtPosition(d: Disk, diskPath: string, k: int)
    requires GapsOpen(d) && 0 <= k < |ViewOf(d, diskPath)| && !ViewOf(d, diskPath)[k].isFree
    ensures 0 <= ViewOf(d, diskPath)[k].slot < |d.parts| && k == PartPosition(d, ViewOf(d, diskPath)[k].slot)
  {
    ViewPrefixSlots(d, diskPath, |d.parts|, k);
  }

  lemma PositionsDiffer(d: Disk, diskPath: string, k: int, at: int)
    requires GapsOpen(d) && 0 <= k < |ViewOf(d, diskPath)| && 0 <= at < |ViewOf(d, diskPath)|
    requires !ViewOf(d, diskPath)[k].isFree && !ViewOf(d, diskPath)[at].isFree
    requires ViewOf(d, diskPath)[k].slot == ViewOf(d, diskPath)[at].slot
    ensures k == at
  {
    ViewPrefixSlots(d, diskPath, |d.parts|, k);
    ViewPrefixSlots(d, diskPath, |d.parts|, at);
  }
}

/** Forward simulation: a plan the MiB planner accepts also fits in sectors. The executor's sector layout keeps
    up with the planner's layout partition by partition and gap by gap, as long as the free-space ids of Create
    operations mean the same gap on both sides. */
module StorageSimulation {
  import opened StorageTypes
  import opened SectorArithmetic
  import opened StoragePlanner
  import opened StorageLayout
  import Refinement = StorageRefinement
  import opened PartitionTable
  import opened PartitionStep

  // ---------- the relation ----------

  /** `mib` MiB take no more than `sectors` sectors. */
  ghost predicate Covers(mib: int, sectors: int, perMiB: int) {
    mib * perMiB <= sectors
  }

  /** The executor's choices for a partition are the planner's: mountpoint and filesystem, chosen or found. */
  ghost predicate SameChoices(planned: Region, p: Part, s: Execution) {
    (planned.device == "" || planned.device == p.path) &&
    (p.path in s.mounts ==> s.mounts[p.path] == planned.mountpoint) &&
    (p.path !in s.mounts ==> !IsValidMountpoint(planned.mountpoint)) &&
    (p.path in s.systems ==> s.systems[p.path] == planned.filesystem && IsValidFilesystem(planned.filesystem)) &&
    (p.path !in s.systems ==> p.probed == planned.filesystem)
  }

  /** Same partitions in the same order, each planned size and gap covered by its sectors. */
  ghost predicate Related(l: Layout, s: Execution, perMiB: int) {
    |l.parts| == |s.disk.parts| && |l.gaps| == |l.parts| + 1 &&
    (forall i | 0 <= i < |l.parts| :: Covers(l.parts[i].sizeMiB, s.disk.parts[i].length, perMiB)) &&
    (forall i | 0 <= i < |l.parts| :: SameChoices(l.parts[i], s.disk.parts[i], s)) &&
    (forall i | 0 <= i <= |l.parts| :: Covers(l.gaps[i], GapLen(s.disk, i), perMiB))
  }

  // ---------- coverage arithmetic ----------

  lemma CoversAdd(a: int, b: int, x: int, y: int, perMiB: int)
    requires Covers(a, x, perMiB) && Covers(b, y, perMiB)
    ensures Covers(a + b, x + y, perMiB)
  {
    assert (a + b) * perMiB == a * perMiB + b * perMiB;
  }

  lemma CoversTake(a: int, x: int, made: int, perMiB: int)
    requires Covers(a, x, perMiB)
    ensures Covers(a - made, x - made * perMiB, perMiB) && Covers(made, made * perMiB, perMiB)
  {
    assert (a - made) * perMiB == a * perMiB - made * perMiB;
  }

  lemma CoversLess(a: int, b: int, x: int, perMiB: int)
    requires a <= b && 0 < perMiB && Covers(b, x, perMiB)
    ensures Covers(a, x, perMiB)
  {
    Scale(a, b, perMiB);
  }

  lemma CoversNothing(x: int, perMiB: int)
    ensures 0 <= x ==> Covers(0, x, perMiB)
  {
  }

  lemma {:induction false} EndsNonNegative(d: Disk, i: int)
    requires Valid(d) && 0 <= i <= |d.parts|
    ensures 0 <= EndBefore(d, i)
  {
    if i > 0 {
      EndsNonNegative(d, i - 1);
      assert GapLen(d, i - 1) >= 0;
    }
  }

  lemma {:induction false} StartsBelowLimit(d: Disk, i: int)
    requires Valid(d) && 0 <= i <= |d.parts|
    ensures StartAfter(d, i) <= d.limit
    decreases |d.parts| - i
  {
    if i < |d.parts| {
      StartsBelowLimit(d, i + 1);
      assert GapLen(d, i + 1) >= 0;
    }
  }

  /** A run of sectors inside the table is worth fewer than 2^43 MiB, and covering it means fitting in it. */
  lemma RunBounds(d: Disk, perMiB: int, sectors: int, mib: int)
    requires Valid(d) && WholeSectors(d.sectorSize, perMiB) && 0 <= sectors <= d.limit
    ensures d.sectorSize * sectors < TWO_63
    ensures SectorsToMiB(d.sectorSize, sectors) < 0x800_0000_0000
    ensures Covers(mib, sectors, perMiB) <==> mib <= SectorsToMiB(d.sectorSize, sectors)
  {
    hide SectorsToMiB;
    Scale(sectors, d.limit, d.sectorSize);
    ToMiBExact(d.sectorSize, perMiB, sectors);
    MiBBound(d.sectorSize, perMiB, sectors);
    FloorAdjunction(mib, sectors, perMiB);
  }

  lemma GapBounds(d: Disk, i: int)
    requires Valid(d) && 0 <= i <= |d.parts|
    ensures 0 <= GapLen(d, i) <= d.limit
    ensures i < |d.parts| ==> 0 <= d.parts[i].length + GapLen(d, i + 1) <= d.limit
    ensures i < |d.parts| ==> 1 <= d.parts[i].length <= d.limit
  {
    EndsNonNegative(d, i);
    StartsBelowLimit(d, i);
    if i < |d.parts| {
      StartsBelowLimit(d, i + 1);
      assert GapLen(d, i) >= 0 && GapLen(d, i + 1) >= 0;
    }
  }

  /** A MiB request that is covered converts to exactly its sectors. */
  lemma RequestExact(d: Disk, perMiB: int, mib: U64, sectors: int)
    requires Valid(d) && WholeSectors(d.sectorSize, perMiB) && 0 <= sectors <= d.limit
    requires 1 <= mib && Covers(mib, sectors, perMiB)
    ensures SectorsForMiB(d.sectorSize, mib) == mib * perMiB && 1 <= mib * perMiB <= sectors
  {
    hide SectorsForMiB, SectorsToMiB;
    RunBounds(d, perMiB, sectors, mib);
    ForMiBExact(d.sectorSize, perMiB, mib);
    Scale(1, mib, perMiB);
  }

  // ---------- the relation is kept by corresponding edits ----------

  lemma InsertElements(l: Layout, at: int, part: Region, rest: int)
    requires l.Valid() && 0 <= at < |l.gaps|
    ensures var r := InsertPart(l, at, part, rest);
            |r.parts| == |l.parts| + 1 && |r.gaps| == |l.gaps| + 1 &&
            r.parts[at] == part && r.gaps[at] == 0 && r.gaps[at + 1] == rest &&
            (forall i | 0 <= i < at :: r.parts[i] == l.parts[i] && r.gaps[i] == l.gaps[i]) &&
            (forall i | at < i <= |l.parts| :: r.parts[i] == l.parts[i - 1]) &&
            (forall i | at + 1 < i <= |l.parts| + 1 :: r.gaps[i] == l.gaps[i - 1])
  {
  }

  lemma CreateRelated(l: Layout, s: Execution, perMiB: int, at: int, part: Region, rest: int, p: Part)
    requires Sound(s) && Related(l, s, perMiB) && 0 <= at < |l.gaps|
    requires p.start == EndBefore(s.disk, at) && 1 <= p.length <= GapLen(s.disk, at)
    requires IsPath(p.path) && p.path !in Paths(s.disk)
    requires part.device == "" && IsValidFilesystem(part.filesystem)
    requires Covers(part.sizeMiB, p.length, perMiB) && Covers(rest, GapLen(s.disk, at) - p.length, perMiB)
    ensures Related(InsertPart(l, at, part, rest),
                    Execution(AddPartition(s.disk, at, p), s.mounts[p.path := part.mountpoint],
                              s.systems[p.path := part.filesystem], s.formats[p.path := true]), perMiB)
  {
    hide InsertPart, AddPartition, GapLen, EndBefore, Covers, Valid, IsValidFilesystem, IsValidMountpoint,
        DistinctPaths, Paths;
    var l' := InsertPart(l, at, part, rest);
    var s' := Execution(AddPartition(s.disk, at, p), s.mounts[p.path := part.mountpoint],
                        s.systems[p.path := part.filesystem], s.formats[p.path := true]);
    InsertElements(l, at, part, rest);
    AddGeometry(s.disk, at, p);
    AddElements(s.disk, at, p);
    CoversNothing(0, perMiB);
    assert Covers(0, 0, perMiB) by { assert 0 * perMiB == 0; }
    forall i | 0 <= i < |l'.parts|
      ensures SameChoices(l'.parts[i], s'.disk.parts[i], s') &&
          Covers(l'.parts[i].sizeMiB, s'.disk.parts[i].length, perMiB)
    {
      if i != at {
        var j := if i < at then i else i - 1;
        assert s'.disk.parts[i] == s.disk.parts[j] && l'.parts[i] == l.parts[j];
        PathsHas(s.disk, j);
        assert SameChoices(l.parts[j], s.disk.parts[j], s);
      }
    }
    forall i | 0 <= i <= |l'.parts| ensures Covers(l'.gaps[i], GapLen(s'.disk, i), perMiB) {
      if i > at + 1 {
        assert GapLen(s'.disk, i - 1 + 1) == GapLen(s.disk, i - 1);
      }
    }
  }

  lemma DropElements(l: Layout, at: int)
    requires l.Valid() && 0 <= at < |l.parts|
    ensures var r := DropPart(l, at);
            |r.parts| == |l.parts| - 1 && |r.gaps| == |l.gaps| - 1 &&
            r.gaps[at] == l.gaps[at] + l.parts[at].sizeMiB + l.gaps[at + 1] &&
            (forall i | 0 <= i < at :: r.parts[i] == l.parts[i] && r.gaps[i] == l.gaps[i]) &&
            (forall i | at <= i < |l.parts| - 1 :: r.parts[i] == l.parts[i + 1]) &&
            (forall i | at < i < |l.parts| :: r.gaps[i] == l.gaps[i + 1])
  {
  }

  lemma RemoveRelated(l: Layout, s: Execution, perMiB: int, at: int)
    requires Sound(s) && Related(l, s, perMiB) && 0 <= at < |l.parts|
    ensures var path := s.disk.parts[at].path;
            Related(DropPart(l, at),
                    Execution(DeletePartition(s.disk, at), s.mounts - {path}, s.systems - {path}, s.formats - {path}),
                        perMiB)
  {
    hide DropPart, DeletePartition, GapLen, Covers, Valid, IsValidFilesystem, IsValidMountpoint;
    var d := s.disk;
    var path := d.parts[at].path;
    var l' := DropPart(l, at);
    var s' := Execution(DeletePartition(d, at), s.mounts - {path}, s.systems - {path}, s.formats - {path});
    DropElements(l, at);
    DeleteGeometry(d, at);
    CoversAdd(l.gaps[at], l.parts[at].sizeMiB, GapLen(d, at), d.parts[at].length, perMiB);
    CoversAdd(l.gaps[at] + l.parts[at].sizeMiB, l.gaps[at + 1], GapLen(d, at) + d.parts[at].length,
              GapLen(d, at + 1), perMiB);
    forall i | 0 <= i < |l'.parts|
      ensures SameChoices(l'.parts[i], s'.disk.parts[i], s') &&
          Covers(l'.parts[i].sizeMiB, s'.disk.parts[i].length, perMiB)
    {
      var j := if i < at then i else i + 1;
      assert s'.disk.parts[i] == d.parts[j] && l'.parts[i] == l.parts[j];
      assert SameChoices(l.parts[j], d.parts[j], s) && d.parts[j].path != path;
    }
    forall i | 0 <= i <= |l'.parts| ensures Covers(l'.gaps[i], GapLen(s'.disk, i), perMiB) {
      if i > at {
        assert s'.disk.parts[i - 1] == d.parts[i - 1 + 1] && GapLen(s'.disk, i - 1 + 1) == GapLen(d, i - 1 + 2);
      }
    }
  }

  lemma ResizeRelated(l: Layout, s: Execution, perMiB: int, at: int, size: U64, after: int, length: int)
    requires Sound(s) && Related(l, s, perMiB) && 0 <= at < |l.parts|
    requires 1 <= length <= s.disk.parts[at].length + GapLen(s.disk, at + 1)
    requires Covers(size, length, perMiB)
    requires Covers(after, s.disk.parts[at].length + GapLen(s.disk, at + 1) - length, perMiB)
    ensures Related(ReplacePart(l, at, l.parts[at].(sizeMiB := size), after),
                    s.(disk := SetLength(s.disk, at, length)), perMiB)
  {
    hide GapLen, Covers, Valid, IsValidFilesystem, IsValidMountpoint;
    var l' := ReplacePart(l, at, l.parts[at].(sizeMiB := size), after);
    var s' := s.(disk := SetLength(s.disk, at, length));
    LengthKeepsTable(s.disk, at, length);
    forall i | 0 <= i < |l'.parts| ensures SameChoices(l'.parts[i], s'.disk.parts[i], s') {
      assert SameChoices(l.parts[i], s.disk.parts[i], s);
    }
  }

  /** Choosing a mountpoint or filesystem for partition `at` on both sides. */
  lemma ChoiceRelated(l: Layout, s: Execution, perMiB: int, at: int, part: Region, s': Execution)
    requires Sound(s) && Related(l, s, perMiB) && 0 <= at < |l.parts|
    requires s'.disk == s.disk && part.device == l.parts[at].device && part.sizeMiB == l.parts[at].sizeMiB
    requires SameChoices(part, s.disk.parts[at], s')
    requires forall p | p != s.disk.parts[at].path ::
      (p in s'.mounts <==> p in s.mounts) && (p in s.mounts ==> s'.mounts[p] == s.mounts[p]) &&
      (p in s'.systems <==> p in s.systems) && (p in s.systems ==> s'.systems[p] == s.systems[p])
    ensures Related(ReplacePart(l, at, part, l.gaps[at + 1]), s', perMiB)
  {
    hide GapLen, Covers, Valid, IsValidFilesystem, IsValidMountpoint;
    var l' := ReplacePart(l, at, part, l.gaps[at + 1]);
    forall i | 0 <= i < |l'.parts| ensures SameChoices(l'.parts[i], s'.disk.parts[i], s') {
      if i != at {
        assert SameChoices(l.parts[i], s.disk.parts[i], s);
        assert s.disk.parts[i].path != s.disk.parts[at].path;
      }
    }
  }

  // ---------- one operation ----------

  const SUPPORTED := {FILESYSTEM_FAT32, FILESYSTEM_EXT4, FILESYSTEM_BTRFS, FILESYSTEM_XFS}

  /** Both sides in step, on a device whose sectors divide a MiB, with a libparted that knows the four filesystems. */
  ghost predicate InStep(rs: seq<Region>, s: Execution, perMiB: int, known: set<string>) {
    Refinement.Sound(rs) && Sound(s) && WholeSectors(s.disk.sectorSize, perMiB) && SUPPORTED <= known &&
    Related(ShapeOf(rs), s, perMiB)
  }

  /** The free-space id of a Create means the same gap to the planner and to the executor. */
  ghost predicate SameGap(rs: seq<Region>, s: Execution, diskPath: string, op: Operation)
    requires op.Create? && Valid(s.disk)
  {
    var v := ViewOf(s.disk, diskPath);
    var k, j := IndexOf(rs, op.region), FindView(v, op.region);
    k < |rs| && j < |v| && v[j].isFree && v[j].slot == SlotAt(rs, k)
  }

  /** What the operation needs from the environment: names that agree, and paths that stay. */
  ghost predicate NamesAgree(rs: seq<Region>, s: Execution, diskPath: string, op: Operation, reply: Reply)
    requires Valid(s.disk)
  {
    (op.Create? ==> SameGap(rs, s, diskPath, op)) && (op.SetFilesystem? ==> reply.path == op.partition)
  }

  /** A partition the planner resolves by name is the executor's partition at the same place. */
  lemma PartitionResolves(rs: seq<Region>, s: Execution, perMiB: int, diskPath: string, name: string)
    requires Refinement.Sound(rs) && Sound(s) && Related(ShapeOf(rs), s, perMiB)
    requires name != "" && IndexOf(rs, name) < |rs| && !rs[IndexOf(rs, name)].IsFree()
    ensures var v, at := ViewOf(s.disk, diskPath), SlotAt(rs, IndexOf(rs, name));
            var j := FindView(v, name);
            j < |v| && !v[j].isFree && v[j].slot == at < |s.disk.parts| && v[j].id == s.disk.parts[at].path == name &&
            ShapeOf(rs).parts[at] == rs[IndexOf(rs, name)]
  {
    hide ViewOf, SlotAt, ShapeOf, Covers, GapLen, Valid;
    var k := IndexOf(rs, name);
    Refinement.SlotLookup(rs, k);
    var at := SlotAt(rs, k);
    assert SameChoices(ShapeOf(rs).parts[at], s.disk.parts[at], s);
    ValidOpens(s.disk);
    PathFound(s.disk, diskPath, at);
    ViewAt(s.disk, diskPath, at);
  }

  lemma CreateSimulated(rs: seq<Region>, s: Execution, perMiB: int, diskPath: string, known: set<string>,
                        op: Operation, reply: Reply)
    requires op.Create? && InStep(rs, s, perMiB, known) && Admissible(s, diskPath, op, reply)
    requires SameGap(rs, s, diskPath, op) && PlanStep(rs, op).Ok?
    ensures ExecStep(s, diskPath, known, op, reply).Ok?
    ensures Related(ShapeOf(PlanStep(rs, op).value), ExecStep(s, diskPath, known, op, reply).value, perMiB)
  {
    hide ViewOf, SlotAt, ShapeOf, Covers, GapLen, EndBefore, SectorsForMiB, Valid, InsertPart, AddPartition, PlanStep;
    ValidOpens(s.disk);
    var k := IndexOf(rs, op.region);
    var l, at := ShapeOf(rs), SlotAt(rs, k);
    var v := ViewOf(s.disk, diskPath);
    var j := FindView(v, op.region);
    Refinement.StepRefines(rs, op);
    ListedGap(s.disk, diskPath, j);
    GapBounds(s.disk, at);
    var available := GapLen(s.disk, at);
    var made := if op.remaining then l.gaps[at] else op.sizeMiB;
    if !op.remaining {
      CoversLess(made, l.gaps[at], available, perMiB);
      RequestExact(s.disk, perMiB, made, available);
      CoversTake(l.gaps[at], available, made, perMiB);
    } else {
      assert Covers(0, 0, perMiB) by { assert 0 * perMiB == 0; CoversNothing(0, perMiB); }
    }
    var requested := if op.remaining then available else SectorsForMiB(s.disk.sectorSize, op.sizeMiB);
    CreateRelated(l, s, perMiB, at, Region("", op.filesystem, made, op.mountpoint), l.gaps[at] - made,
                  Part(reply.path, EndBefore(s.disk, at), requested, reply.probed));
  }

  /** A free entry of the view is a gap with at least one whole MiB. */
  lemma ListedGap(d: Disk, diskPath: string, j: int)
    requires Valid(d) && 0 <= j < |ViewOf(d, diskPath)| && ViewOf(d, diskPath)[j].isFree
    ensures 0 <= ViewOf(d, diskPath)[j].slot <= |d.parts| && GapLen(d, ViewOf(d, diskPath)[j].slot) >= 1
  {
    NoSectors(d.sectorSize);
  }

  /** What the planner counts as free behind a partition is covered by what the executor sees there. */
  lemma RoomCovered(l: Layout, s: Execution, perMiB: int, at: int)
    requires Sound(s) && WholeSectors(s.disk.sectorSize, perMiB) && Related(l, s, perMiB) && 0 <= at < |l.parts|
    requires 0 <= l.gaps[at + 1]
    ensures var room := s.disk.parts[at].length + FreeAfterPart(s.disk, at);
            Covers(l.parts[at].sizeMiB + l.gaps[at + 1], room, perMiB) &&
            1 <= s.disk.parts[at].length <= room <= s.disk.parts[at].length + GapLen(s.disk, at + 1) <= s.disk.limit
  {
    hide GapLen, SectorsToMiB;
    var free := GapLen(s.disk, at + 1);
    GapBounds(s.disk, at);
    GapBounds(s.disk, at + 1);
    RunBounds(s.disk, perMiB, free, l.gaps[at + 1]);
    CoversNothing(0, perMiB);
    if Listed(s.disk, at + 1) {
      CoversAdd(l.parts[at].sizeMiB, l.gaps[at + 1], s.disk.parts[at].length, free, perMiB);
    } else {
      assert l.gaps[at + 1] == 0;
    }
  }

  /** What the executor does once it has found the partition. */
  ghost predicate FoundAt(s: Execution, diskPath: string, name: string, at: int)
    requires GapsOpen(s.disk)
  {
    var v := ViewOf(s.disk, diskPath);
    var j := FindView(v, name);
    j < |v| && !v[j].isFree && v[j].slot == at < |s.disk.parts| && v[j].id == s.disk.parts[at].path == name
  }

  lemma ExecResizes(s: Execution, diskPath: string, known: set<string>, op: Operation, reply: Reply, at: nat)
    requires Valid(s.disk) && GapsOpen(s.disk) && op.Resize? && FoundAt(s, diskPath, op.partition, at)
    ensures var room := s.disk.parts[at].length + FreeAfterPart(s.disk, at);
            var requested := if op.remaining then room else SectorsForMiB(s.disk.sectorSize, op.sizeMiB);
            1 <= requested <= room ==>
              ExecStep(s, diskPath, known, op, reply) == Result.Ok(s.(disk := SetLength(s.disk, at, requested)))
  {
    hide ViewOf, FreeAfterPart, SectorsForMiB, SetLength, FindView, Valid;
  }

  lemma ExecChooses(s: Execution, diskPath: string, known: set<string>, op: Operation, reply: Reply, at: nat)
    requires Valid(s.disk) && GapsOpen(s.disk) && (op.SetMountpoint? || op.SetFilesystem?)
    requires FoundAt(s, diskPath, op.partition, at)
    ensures var step := ExecStep(s, diskPath, known, op, reply);
            (op.SetMountpoint? ==> step == Result.Ok(s.(mounts := s.mounts[op.partition := op.mountpoint]))) &&
            (op.SetFilesystem? && op.filesystem in known && reply.path == op.partition ==>
               step == Result.Ok(s.(systems := s.systems[op.partition := op.filesystem],
                                    formats := s.formats[op.partition := true])))
  {
    hide ViewOf, FindView, Valid;
    if op.SetFilesystem? && reply.path == op.partition { assert SetPath(s.disk, at, reply.path) == s.disk; }
  }

  lemma ResizeSimulated(rs: seq<Region>, s: Execution, perMiB: int, diskPath: string, known: set<string>,
                        op: Operation, reply: Reply)
    requires op.Resize? && InStep(rs, s, perMiB, known) && PlanStep(rs, op).Ok?
    ensures ExecStep(s, diskPath, known, op, reply).Ok?
    ensures Related(ShapeOf(PlanStep(rs, op).value), ExecStep(s, diskPath, known, op, reply).value, perMiB)
  {
    hide ViewOf, SlotAt, ShapeOf, Covers, GapLen, SectorsForMiB, Valid, ReplacePart, SetLength, FreeAfterPart,
        PlanStep, ExecStep,
         FindView;
    var k := IndexOf(rs, op.partition);
    var l, at := ShapeOf(rs), SlotAt(rs, k);
    Refinement.StepRefines(rs, op);
    Refinement.StepAcceptsExactly(rs, op);
    Refinement.SlotLookup(rs, k);
    PartitionResolves(rs, s, perMiB, diskPath, op.partition);
    ValidOpens(s.disk);
    ExecResizes(s, diskPath, known, op, reply, at);
    RoomCovered(l, s, perMiB, at);
    var size := l.parts[at].sizeMiB + l.gaps[at + 1];
    var room := s.disk.parts[at].length + FreeAfterPart(s.disk, at);
    var all := s.disk.parts[at].length + GapLen(s.disk, at + 1);
    var want := if op.remaining then size else op.sizeMiB;
    var requested := if op.remaining then room else SectorsForMiB(s.disk.sectorSize, op.sizeMiB);
    if op.remaining {
      assert Covers(0, all - room, perMiB) by { CoversNothing(all - room, perMiB); }
    } else {
      CoversLess(want, size, room, perMiB);
      RequestExact(s.disk, perMiB, want, room);
      CoversWider(size, room, all, perMiB);
      CoversTake(size, all, want, perMiB);
    }
    ResizeRelated(l, s, perMiB, at, want, size - want, requested);
  }

  lemma CoversWider(a: int, x: int, y: int, perMiB: int)
    requires Covers(a, x, perMiB) && x <= y
    ensures Covers(a, y, perMiB)
  {
  }

  lemma RemoveSimulated(rs: seq<Region>, s: Execution, perMiB: int, diskPath: string, known: set<string>,
                        op: Operation, reply: Reply)
    requires op.Remove? && InStep(rs, s, perMiB, known) && PlanStep(rs, op).Ok?
    ensures ExecStep(s, diskPath, known, op, reply).Ok?
    ensures Related(ShapeOf(PlanStep(rs, op).value), ExecStep(s, diskPath, known, op, reply).value, perMiB)
  {
    hide ViewOf, SlotAt, ShapeOf, Related, Valid, DropPart, DeletePartition, PlanStep;
    var at := SlotAt(rs, IndexOf(rs, op.partition));
    Refinement.StepRefines(rs, op);
    Refinement.StepAcceptsExactly(rs, op);
    PartitionResolves(rs, s, perMiB, diskPath, op.partition);
    ValidOpens(s.disk);
    RemoveRelated(ShapeOf(rs), s, perMiB, at);
  }

  /** What a mountpoint or filesystem choice amounts to on both sides. */
  lemma ChoiceSimulated(rs: seq<Region>, s: Execution, perMiB: int, diskPath: string, known: set<string>,
                        op: Operation, part: Region, next: Execution)
    requires (op.SetMountpoint? || op.SetFilesystem?) && InStep(rs, s, perMiB, known) && PlanStep(rs, op).Ok?
    requires next.disk == s.disk && forall p | p != op.partition ::
      (p in next.mounts <==> p in s.mounts) && (p in s.mounts ==> next.mounts[p] == s.mounts[p]) &&
      (p in next.systems <==> p in s.systems) && (p in s.systems ==> next.systems[p] == s.systems[p])
    requires part == var r := rs[IndexOf(rs, op.partition)];
                     if op.SetMountpoint? then r.(mountpoint := op.mountpoint) else r.(filesystem := op.filesystem)
    requires forall p: Part | p.path == op.partition && SameChoices(rs[IndexOf(rs, op.partition)], p, s) ::
      SameChoices(part, p, next)
    ensures Related(ShapeOf(PlanStep(rs, op).value), next, perMiB)
  {
    hide ViewOf, SlotAt, ShapeOf, GapLen, Covers, Valid, DistinctPaths, ReplacePart, PlanStep, SameChoices,
        NoAdjacentFree,
         FreeUnmounted, Total, IsValidFilesystem, IsValidMountpoint, FindView;
    var at := SlotAt(rs, IndexOf(rs, op.partition));
    Refinement.StepRefines(rs, op);
    Refinement.StepAcceptsExactly(rs, op);
    PartitionResolves(rs, s, perMiB, diskPath, op.partition);
    assert SameChoices(ShapeOf(rs).parts[at], s.disk.parts[at], s);
    ChoiceRelated(ShapeOf(rs), s, perMiB, at, part, next);
  }

  lemma SetMountpointSimulated(rs: seq<Region>, s: Execution, perMiB: int, diskPath: string, known: set<string>,
                               op: Operation, reply: Reply)
    requires op.SetMountpoint? && InStep(rs, s, perMiB, known) && PlanStep(rs, op).Ok?
    ensures ExecStep(s, diskPath, known, op, reply).Ok?
    ensures Related(ShapeOf(PlanStep(rs, op).value), ExecStep(s, diskPath, known, op, reply).value, perMiB)
  {
    hide ViewOf, SlotAt, ShapeOf, Related, Valid, PlanStep, ExecStep, FindView, NoAdjacentFree, FreeUnmounted, Total,
        DistinctPaths;
    Refinement.StepAcceptsExactly(rs, op);
    PartitionResolves(rs, s, perMiB, diskPath, op.partition);
    ValidOpens(s.disk);
    ExecChooses(s, diskPath, known, op, reply, SlotAt(rs, IndexOf(rs, op.partition)));
    ChoiceSimulated(rs, s, perMiB, diskPath, known, op,
                    rs[IndexOf(rs, op.partition)].(mountpoint := op.mountpoint),
                    s.(mounts := s.mounts[op.partition := op.mountpoint]));
  }

  lemma SetFilesystemSimulated(rs: seq<Region>, s: Execution, perMiB: int, diskPath: string, known: set<string>,
                               op: Operation, reply: Reply)
    requires op.SetFilesystem? && InStep(rs, s, perMiB, known) && PlanStep(rs, op).Ok?
    requires reply.path == op.partition
    ensures ExecStep(s, diskPath, known, op, reply).Ok?
    ensures Related(ShapeOf(PlanStep(rs, op).value), ExecStep(s, diskPath, known, op, reply).value, perMiB)
  {
    hide ViewOf, SlotAt, ShapeOf, Related, Valid, PlanStep, ExecStep, FindView, NoAdjacentFree, FreeUnmounted, Total,
        DistinctPaths;
    Refinement.StepAcceptsExactly(rs, op);
    PartitionResolves(rs, s, perMiB, diskPath, op.partition);
    ValidOpens(s.disk);
    ExecChooses(s, diskPath, known, op, reply, SlotAt(rs, IndexOf(rs, op.partition)));
    ChoiceSimulated(rs, s, perMiB, diskPath, known, op,
                    rs[IndexOf(rs, op.partition)].(filesystem := op.filesystem),
                    s.(systems := s.systems[op.partition := op.filesystem],
                       formats := s.formats[op.partition := true]));
  }

  /** Whatever the planner accepts, the executor carries out, and the two stay in step. */
  lemma StepSimulated(rs: seq<Region>, s: Execution, perMiB: int, diskPath: string, known: set<string>,
                      op: Operation, reply: Reply)
    requires InStep(rs, s, perMiB, known) && PlanStep(rs, op).Ok?
    requires Admissible(s, diskPath, op, reply) && NamesAgree(rs, s, diskPath, op, reply)
    ensures ExecStep(s, diskPath, known, op, reply).Ok?
    ensures InStep(PlanStep(rs, op).value, ExecStep(s, diskPath, known, op, reply).value, perMiB, known)
  {
    hide ExecStep, PlanStep, ShapeOf, Related, Valid, ViewOf, SameGap;
    Refinement.StepRefines(rs, op);
    if op.Create? {
      CreateSimulated(rs, s, perMiB, diskPath, known, op, reply);
    } else if op.Resize? {
      ResizeSimulated(rs, s, perMiB, diskPath, known, op, reply);
    } else if op.Remove? {
      RemoveSimulated(rs, s, perMiB, diskPath, known, op, reply);
    } else if op.SetMountpoint? {
      SetMountpointSimulated(rs, s, perMiB, diskPath, known, op, reply);
    } else {
      SetFilesystemSimulated(rs, s, perMiB, diskPath, known, op, reply);
    }
    StepKeepsSound(s, diskPath, known, op, reply);
    SameDevice(s, diskPath, known, op, reply);
  }

  lemma SameDevice(s: Execution, diskPath: string, known: set<string>, op: Operation, reply: Reply)
    requires Valid(s.disk) && ExecStep(s, diskPath, known, op, reply).Ok?
    ensures ExecStep(s, diskPath, known, op, reply).value.disk.sectorSize == s.disk.sectorSize
  {
    hide ViewOf, GapLen, SectorsForMiB;
  }
}

/** Whole plans on a device without a partition table: the planner sees the whole device, the executor only the usable
    range of the empty table it writes first. */
module StorageUnlabelled {
  import opened StorageTypes
  import opened SectorArithmetic
  import opened StoragePlanner
  import opened StorageLayout
  import opened PartitionTable
  import opened PartitionStep
  import opened CustomExecution
  import opened StorageSimulation
  import Builder = StorageBuilder
  import opened StorageInstall
  import opened StorageNames

  // ---------- the planner's side ----------

  /** Partitions the plan created, and at most one free region behind them, with the first free-region id. */
  ghost predicate Packed(rs: seq<Region>, diskPath: string) {
    forall i | 0 <= i < |rs| ::
      if rs[i].IsFree() then i == |rs| - 1 && rs[i].device == FreeSpaceRegionId(diskPath, 1) else rs[i].device == ""
  }

  lemma PackedMerged(rs: seq<Region>, diskPath: string)
    requires Packed(rs, diskPath)
    ensures NoAdjacentFree(rs)
  {
  }

  /** On such regions only creates in the free region are accepted, and they leave such regions. */
  lemma OnlyCreates(rs: seq<Region>, diskPath: string, op: Operation)
    requires Packed(rs, diskPath) && PlanStep(rs, op).Ok?
    ensures op.Create? && op.region == FreeSpaceRegionId(diskPath, 1) && IsValidFilesystem(op.filesystem)
    ensures rs != [] && rs[|rs| - 1].IsFree() && IndexOf(rs, op.region) == |rs| - 1
    ensures op.remaining || 1 <= op.sizeMiB <= rs[|rs| - 1].sizeMiB
    ensures Packed(PlanStep(rs, op).value, diskPath)
    ensures var rs' := PlanStep(rs, op).value;
            op.remaining ==> forall i | 0 <= i < |rs'| :: !rs'[i].IsFree()
    ensures forall r <- PlanStep(rs, op).value | r.IsFree() :: r.sizeMiB <= rs[|rs| - 1].sizeMiB
  {
    hide FreeSpaceRegionId, Coalesced, Resized;
    PackedMerged(rs, diskPath);
    FreeIdInjective(diskPath, 1, 0);
    var k := IndexOf(rs, TargetOf(op));
    assert k < |rs| && rs[k].IsFree();
    CreatedVector(rs, op);
  }

  /** No further operation is accepted once nothing is free. */
  lemma NothingMoreAccepted(rs: seq<Region>, diskPath: string, ops: seq<Operation>)
    requires Packed(rs, diskPath) && PlanRun(rs, ops).Ok? && forall i | 0 <= i < |rs| :: !rs[i].IsFree()
    ensures ops == []
  {
    if ops != [] { OnlyCreates(rs, diskPath, ops[0]); }
  }

  /** The creates fit one after the other in this many MiB. */
  predicate Fits(ops: seq<Operation>, mib: int) {
    ops == [] || (1 <= mib && ops[0].Create? &&
                  (ops[0].remaining || (ops[0].sizeMiB <= mib && Fits(ops[1..], mib - ops[0].sizeMiB))))
  }

  // ---------- the executor's side ----------

  /** The partitions fill the table from its start without gaps. */
  ghost predicate Filled(d: Disk) {
    forall i | 0 <= i < |d.parts| :: GapLen(d, i) == 0
  }

  lemma {:induction false} NoneListedBefore(d: Disk, i: int)
    requires GapsOpen(d) && Filled(d) && 0 <= i <= |d.parts|
    ensures ListedBefore(d, i) == 0
  {
    NoSectors(d.sectorSize);
    if i > 0 { NoneListedBefore(d, i - 1); }
  }

  /** A create in the only gap there is: refused when less than a MiB is left, otherwise a partition of the size asked
      for, or of all that is left, if it fits. */
  lemma CreateInLastGap(s: Execution, perMiB: int, diskPath: string, known: set<string>, op: Operation, reply: Reply)
    requires Sound(s) && Filled(s.disk) && WholeSectors(s.disk.sectorSize, perMiB) && SUPPORTED <= known
    requires op.Create? && op.region == FreeSpaceRegionId(diskPath, 1) && IsValidFilesystem(op.filesystem)
    requires op.remaining || 1 <= op.sizeMiB < 0x1000_0000_0000
    ensures 0 <= GapLen(s.disk, |s.disk.parts|) <= s.disk.limit
    ensures var n, step := |s.disk.parts|, ExecStep(s, diskPath, known, op, reply);
            var mib := SectorsToMiB(s.disk.sectorSize, GapLen(s.disk, n));
            (step.Ok? <==> mib != 0 && (op.remaining || op.sizeMiB <= mib)) &&
            (step.Ok? ==> step.value.disk == AddPartition(s.disk, n, Part(reply.path, EndBefore(s.disk, n),
                            if op.remaining then GapLen(s.disk, n) else op.sizeMiB * perMiB, reply.probed)))
  {
    hide ViewOf, FreeSpaceRegionId, ListedBefore, GapLen, EndBefore, AddPartition, SectorsForMiB, SectorsToMiB,
        FindView, Valid,
         DistinctPaths, Filled;
    var d, n := s.disk, |s.disk.parts|;
    ValidOpens(d);
    GapBounds(d, n);
    NoneListedBefore(d, n);
    var v := ViewOf(d, diskPath);
    var j := FindView(v, op.region);
    if Listed(d, n) {
      ExecutorResolvesGap(d, diskPath, 1, n);
      ListedGap(d, diskPath, j);
      RunBounds(d, perMiB, GapLen(d, n), 0);
      if !op.remaining {
        Adjunction(d.sectorSize, perMiB, op.sizeMiB, GapLen(d, n));
        ForMiBExact(d.sectorSize, perMiB, op.sizeMiB);
        Scale(1, op.sizeMiB, perMiB);
      }
    } else if j < |v| {
      NamedEntry(d, diskPath, v[j], 1);
      OnlyLastListed(d, v[j].slot);
      assert false;
    }
  }

  lemma OnlyLastListed(d: Disk, i: int)
    requires GapsOpen(d) && Filled(d) && 0 <= i <= |d.parts| && Listed(d, i)
    ensures i == |d.parts|
  {
    NoSectors(d.sectorSize);
  }

  lemma FilledFurther(d: Disk, part: Part)
    requires Valid(d) && Filled(d) && part.start == EndBefore(d, |d.parts|) && 1 <= part.length <= GapLen(d, |d.parts|)
    ensures var d' := AddPartition(d, |d.parts|, part);
            |d'.parts| == |d.parts| + 1 && d'.sectorSize == d.sectorSize && Filled(d') &&
            GapLen(d', |d'.parts|) == GapLen(d, |d.parts|) - part.length
  {
    hide AddPartition, GapLen, EndBefore;
    AddGeometry(d, |d.parts|, part);
    AddElements(d, |d.parts|, part);
  }

  // ---------- whole plans ----------

  /** A plan the planner accepts for packed regions is carried out exactly when its creates fit, one after the other,
      in the whole MiB that are left on the table. */
  lemma {:induction false} FilledRunExactly(rs: seq<Region>, s: Execution, perMiB: int, diskPath: string,
                                            known: set<string>, ops: seq<Operation>, replies: seq<Reply>)
    requires Packed(rs, diskPath) && PlanRun(rs, ops).Ok? && forall r <- rs | r.IsFree() :: r.sizeMiB < 0x1000_0000_0000
    requires Sound(s) && Filled(s.disk) && WholeSectors(s.disk.sectorSize, perMiB) && SUPPORTED <= known
    requires |replies| == |ops| && RepliesAdmissible(s, diskPath, known, ops, replies)
    ensures 0 <= GapLen(s.disk, |s.disk.parts|)
    ensures ExecRun(s, diskPath, known, ops, replies).Ok? <==>
            Fits(ops, SectorsToMiB(s.disk.sectorSize, GapLen(s.disk, |s.disk.parts|)))
    decreases |ops|
  {
    hide PlanStep, ExecStep, Admissible, FreeSpaceRegionId, GapLen, SectorsToMiB, Packed, Filled, AddPartition,
        EndBefore, Valid,
         DistinctPaths;
    ValidOpens(s.disk);
    if ops != [] {
      var op, reply, n := ops[0], replies[0], |s.disk.parts|;
      OnlyCreates(rs, diskPath, op);
      var rs' := PlanStep(rs, op).value;
      CreateInLastGap(s, perMiB, diskPath, known, op, reply);
      var gap := GapLen(s.disk, n);
      var mib := SectorsToMiB(s.disk.sectorSize, gap);
      RunBounds(s.disk, perMiB, gap, mib);
      LeastWhole(s.disk.sectorSize, perMiB, gap);
      if op.remaining { NothingMoreAccepted(rs', diskPath, ops[1..]); }
      if mib != 0 && (op.remaining || op.sizeMiB <= mib) {
        var s' := ExecStep(s, diskPath, known, op, reply).value;
        StepKeepsSound(s, diskPath, known, op, reply);
        var length := if op.remaining then gap else op.sizeMiB * perMiB;
        FittingLength(s.disk.sectorSize, perMiB, gap, if op.remaining then mib else op.sizeMiB);
        FilledFurther(s.disk, Part(reply.path, EndBefore(s.disk, n), length, reply.probed));
        FilledRunExactly(rs', s', perMiB, diskPath, known, ops[1..], replies[1..]);
      }
    }
  }

  lemma LeastWhole(sectorSize: int, perMiB: int, sectors: int)
    requires WholeSectors(sectorSize, perMiB) && 0 <= sectors && sectorSize * sectors < TWO_63
    ensures 0 <= SectorsToMiB(sectorSize, sectors)
  {
    ToMiBExact(sectorSize, perMiB, sectors);
    Division(sectors, perMiB);
  }

  /** What fits takes at least a sector, and leaves that many whole MiB less. */
  lemma FittingLength(sectorSize: int, perMiB: int, sectors: int, mib: int)
    requires WholeSectors(sectorSize, perMiB) && 0 <= sectors && sectorSize * sectors < TWO_63
    requires 1 <= mib <= SectorsToMiB(sectorSize, sectors)
    ensures 1 <= mib * perMiB <= sectors
    ensures SectorsToMiB(sectorSize, sectors - mib * perMiB) == SectorsToMiB(sectorSize, sectors) - mib
  {
    ToMiBExact(sectorSize, perMiB, sectors);
    FloorAdjunction(mib, sectors, perMiB);
    Scale(1, mib, perMiB);
    var rest := sectors - mib * perMiB;
    Scale(rest, sectors, sectorSize);
    Scale(0, rest, sectorSize);
    ToMiBExact(sectorSize, perMiB, rest);
    Division(sectors, perMiB);
    var q, r := sectors / perMiB, sectors % perMiB;
    assert rest == perMiB * (q - mib) + r by { assert perMiB * (q - mib) == perMiB * q - mib * perMiB; }
    QuotientIs(rest, perMiB, q - mib, r);
  }

  /** On a device without a table a plan the planner accepts for the whole device is carried out exactly when its
      creates fit, one after the other, in the whole MiB of the new table's usable range. */
  lemma UnlabelledPlanExactly(d: Disk, length: int, perMiB: int, diskPath: string, known: set<string>,
                              ops: seq<Operation>, replies: seq<Reply>)
    requires Valid(d) && d.parts == [] && WholeSectors(d.sectorSize, perMiB) && SUPPORTED <= known
    requires 0 <= length && d.sectorSize * length < TWO_63
    requires PlanRun(WholeDevice(d.sectorSize, length, diskPath), ops).Ok?
    requires |replies| == |ops| && RepliesAdmissible(Execution(d, map[], map[], map[]), diskPath, known, ops, replies)
    ensures 0 <= GapLen(d, 0)
    ensures ExecRun(Execution(d, map[], map[], map[]), diskPath, known, ops, replies).Ok? <==>
            Fits(ops, SectorsToMiB(d.sectorSize, GapLen(d, 0)))
  {
    hide PlanRun, ExecRun, RepliesAdmissible, FreeSpaceRegionId, SectorsToMiB, Fits;
    ValidOpens(d);
    MiBBound(d.sectorSize, perMiB, length);
    FilledRunExactly(WholeDevice(d.sectorSize, length, diskPath), Execution(d, map[], map[], map[]), perMiB, diskPath,
                     known, ops, replies);
  }
}

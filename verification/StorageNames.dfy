/** When the free-space ids of a whole plan mean the same gaps to planner and executor, told from the plan alone:
    creates by falling region number and none after a resize or a removal. And a plan that is carried out in the wrong
    gap. */
module StorageNames {
  import opened StorageTypes
  import opened SectorArithmetic
  import opened Numerals
  import opened StoragePlanner
  import opened StorageLayout
  import Refinement = StorageRefinement
  import opened StorageValidation
  import opened PartitionTable
  import opened PartitionStep
  import opened CustomExecution
  import opened StorageSimulation
  import Builder = StorageBuilder
  import opened StorageInstall

  // ---------- orderly plans ----------

  /** Every create names a free region by a number, from 1 to `bound` and never above one used before it; a resize or a
      removal is followed by no create. */
  ghost predicate Orderly(diskPath: string, ops: seq<Operation>, bound: nat)
    decreases |ops|
  {
    ops != [] ==>
      match ops[0]
      case Create(region, _, _, _, _) =>
        exists index: nat :: 1 <= index <= bound && region == FreeSpaceRegionId(diskPath, index) &&
            Orderly(diskPath, ops[1..], index)
      case Resize(_, _, _) => Orderly(diskPath, ops[1..], 0)
      case Remove(_) => Orderly(diskPath, ops[1..], 0)
      case _ => Orderly(diskPath, ops[1..], bound)
  }

  /** Relabelling keeps the path of the partition. */
  ghost predicate PathsStay(ops: seq<Operation>, replies: seq<Reply>)
    requires |replies| == |ops|
  {
    forall i | 0 <= i < |ops| && ops[i].SetFilesystem? :: replies[i].path == ops[i].partition
  }

  /** Region j carries no number up to `bound`, or is the listed gap with that number. */
  ghost predicate RightlyNumbered(rs: seq<Region>, s: Execution, diskPath: string, bound: nat, j: int)
    requires GapsOpen(s.disk) && 0 <= j < |rs|
  {
    forall index: nat | 1 <= index <= bound && rs[j].device == FreeSpaceRegionId(diskPath, index) ::
      rs[j].IsFree() && SlotAt(rs, j) <= |s.disk.parts| && Listed(s.disk, SlotAt(rs, j)) &&
      ListedBefore(s.disk, SlotAt(rs, j)) + 1 == index
  }

  ghost predicate AllNumbered(rs: seq<Region>, s: Execution, diskPath: string, bound: nat)
    requires GapsOpen(s.disk)
  {
    forall j | 0 <= j < |rs| :: RightlyNumbered(rs, s, diskPath, bound, j)
  }

  lemma SlotNext(rs: seq<Region>, k: nat)
    requires k < |rs|
    ensures SlotAt(rs, k + 1) == SlotAt(rs, k) + if rs[k].IsFree() then 0 else 1
  {
    assert rs[..k + 1] == rs[..k] + [rs[k]];
    ShapeConcat(rs[..k], [rs[k]]);
    assert ShapeOf([rs[k]]).parts == if rs[k].IsFree() then [] else [rs[k]];
  }

  lemma {:induction false} SlotGrows(rs: seq<Region>, k: nat, j: nat)
    requires k <= j <= |rs|
    ensures SlotAt(rs, k) <= SlotAt(rs, j)
    ensures k < j && !rs[k].IsFree() ==> SlotAt(rs, k) < SlotAt(rs, j)
    decreases j
  {
    hide SlotAt;
    if k < j {
      SlotGrows(rs, k, j - 1);
      SlotNext(rs, j - 1);
    }
  }

  /** Nothing behind region k carries its number or a smaller one. */
  lemma NumbersBehind(rs: seq<Region>, s: Execution, diskPath: string, bound: nat, k: nat, j: nat, index: nat)
    requires GapsOpen(s.disk) && AllNumbered(rs, s, diskPath, bound) && NoAdjacentFree(rs)
    requires k < j < |rs| && 1 <= index <= bound && rs[k].device == FreeSpaceRegionId(diskPath, index)
    ensures forall smaller: nat | 1 <= smaller <= index :: rs[j].device != FreeSpaceRegionId(diskPath, smaller)
  {
    hide SlotAt, FreeSpaceRegionId, Listed;
    assert RightlyNumbered(rs, s, diskPath, bound, k) && RightlyNumbered(rs, s, diskPath, bound, j);
    if smaller: nat :| 1 <= smaller <= index && rs[j].device == FreeSpaceRegionId(diskPath, smaller) {
      SlotGrows(rs, k, j);
      assert !rs[k + 1].IsFree() && k + 1 < j;
      SlotGrows(rs, k + 1, j);
      SlotNext(rs, k);
      Builder.ListedGrows(s.disk, SlotAt(rs, k), SlotAt(rs, j));
      assert false;
    }
  }

  // ---------- what a create does to the numbers ----------

  /** What an accepted create leaves of region k. */
  function Leftover(r: Region, made: int): seq<Region> {
    if 0 <= made < r.sizeMiB then [r.(sizeMiB := r.sizeMiB - made)] else []
  }

  function Made(rs: seq<Region>, op: Operation): int
    requires op.Create? && IndexOf(rs, op.region) < |rs|
  {
    if op.remaining then rs[IndexOf(rs, op.region)].sizeMiB else op.sizeMiB
  }

  /** Region k replaced by a partition and what is left behind it. */
  function Split(rs: seq<Region>, k: nat, part: Region, rest: seq<Region>): seq<Region>
    requires k < |rs|
  {
    rs[..k] + [part] + (rest + rs[k + 1..])
  }

  /** The planner's vector after a create: nothing merges. */
  lemma CreatedVector(rs: seq<Region>, op: Operation)
    requires op.Create? && NoAdjacentFree(rs) && PlanStep(rs, op).Ok?
    ensures var k := IndexOf(rs, op.region);
            k < |rs| && rs[k].IsFree() && Made(rs, op) <= rs[k].sizeMiB && IsValidFilesystem(op.filesystem) &&
            PlanStep(rs, op).value ==
              Split(rs, k, Region("", op.filesystem, Made(rs, op), op.mountpoint), Leftover(rs[k], Made(rs, op)))
  {
    hide Coalesced, IndexOf, NoAdjacentFree, CreateStep, Leftover, Split;
    CreatedRaw(rs, op.region, op.sizeMiB, op.remaining, op.filesystem, op.mountpoint);
    var k := IndexOf(rs, op.region);
    var part, rest := Region("", op.filesystem, Made(rs, op), op.mountpoint), Leftover(rs[k], Made(rs, op));
    SplitMerged(rs, k, part, rest);
    CoalescedFixpoint(Split(rs, k, part, rest));
  }

  lemma CreatedRaw(rs: seq<Region>, region: string, size: U64, remaining: bool, fs: string, mp: string)
    requires CreateStep(rs, region, size, remaining, fs, mp).Ok?
    ensures var k := IndexOf(rs, region);
            k < |rs| && rs[k].IsFree() && IsValidFilesystem(fs) &&
            var made := if remaining then rs[k].sizeMiB else size;
            made <= rs[k].sizeMiB && |Leftover(rs[k], made)| <= 1 &&
            CreateStep(rs, region, size, remaining, fs, mp).value ==
              Coalesced(Split(rs, k, Region("", fs, made, mp), Leftover(rs[k], made)))
  {
    hide Coalesced, IndexOf;
  }

  lemma SplitMerged(rs: seq<Region>, k: nat, part: Region, rest: seq<Region>)
    requires k < |rs| && rs[k].IsFree() && NoAdjacentFree(rs) && !part.IsFree() && |rest| <= 1
    ensures NoAdjacentFree(Split(rs, k, part, rest))
  {
    var raw := Split(rs, k, part, rest);
    forall i, j | 0 <= i < j < |raw| && j == i + 1 ensures !(raw[i].IsFree() && raw[j].IsFree()) {
      if j < k {
        assert raw[i] == rs[i] && raw[j] == rs[j];
      } else if i == k + 1 && |rest| == 1 {
        assert raw[j] == rs[k + 1];
      } else if i > k {
        assert raw[i] == rs[i - |rest|] && raw[j] == rs[j - |rest|];
      }
    }
  }

  /** A partition put at the start of gap `at` changes no number before it, and what is left of the gap has its
      number. */
  lemma {:induction false} ListedAfterAdd(d: Disk, at: int, part: Part, i: int)
    requires Valid(d) && 0 <= at <= |d.parts| && 0 <= i <= at
    requires part.start == EndBefore(d, at) && 1 <= part.length <= GapLen(d, at)
    ensures var d' := AddPartition(d, at, part);
            Valid(d') && |d'.parts| == |d.parts| + 1 && GapsOpen(d') && GapsOpen(d) &&
            ListedBefore(d', i) == ListedBefore(d, i) && (i < at ==> Listed(d', i) == Listed(d, i)) &&
            (i == at ==> ListedBefore(d', at + 1) == ListedBefore(d, at))
  {
    hide AddPartition, GapLen, SectorsToMiB, EndBefore, Valid;
    AddElements(d, at, part);
    AddGeometry(d, at, part);
    ValidOpens(d);
    ValidOpens(AddPartition(d, at, part));
    NoSectors(d.sectorSize);
    if i > 0 { ListedAfterAdd(d, at, part, i - 1); }
  }

  /** What the planner counts as left of a gap is listed by the executor. */
  lemma LeftoverListed(l: Layout, s: Execution, perMiB: int, i: int)
    requires Sound(s) && WholeSectors(s.disk.sectorSize, perMiB) && Related(l, s, perMiB)
    requires 0 <= i < |l.gaps| && l.gaps[i] >= 1
    ensures GapsOpen(s.disk) && i <= |s.disk.parts| && Listed(s.disk, i)
  {
    hide SectorsToMiB, GapLen;
    ValidOpens(s.disk);
    GapBounds(s.disk, i);
    RunBounds(s.disk, perMiB, GapLen(s.disk, i), l.gaps[i]);
  }

  /** The edit of the table by a create whose id means gap `at`. */
  lemma CreatedPartition(s: Execution, diskPath: string, known: set<string>, op: Operation, reply: Reply, at: int)
    requires Valid(s.disk) && op.Create? && ExecStep(s, diskPath, known, op, reply).Ok?
    requires GapsOpen(s.disk) && var v := ViewOf(s.disk, diskPath); var j := FindView(v, op.region);
             j < |v| && v[j].isFree && v[j].slot == at
    ensures 0 <= at <= |s.disk.parts|
    ensures var d' := ExecStep(s, diskPath, known, op, reply).value.disk;
            exists part: Part :: part.start == EndBefore(s.disk, at) && 1 <= part.length <= GapLen(s.disk, at) &&
                                 d' == AddPartition(s.disk, at, part)
  {
    hide ViewOf, GapLen, SectorsForMiB, EndBefore, AddPartition;
  }

  lemma CreateKeepsNumbers(rs: seq<Region>, s: Execution, perMiB: int, diskPath: string, known: set<string>,
                           op: Operation, reply: Reply, bound: nat, index: nat)
    requires InStep(rs, s, perMiB, known) && op.Create? && PlanStep(rs, op).Ok? && Admissible(s, diskPath, op, reply)
    requires GapsOpen(s.disk) && AllNumbered(rs, s, diskPath, bound)
    requires 1 <= index <= bound && op.region == FreeSpaceRegionId(diskPath, index)
    ensures SameGap(rs, s, diskPath, op) && ExecStep(s, diskPath, known, op, reply).Ok?
    ensures InStep(PlanStep(rs, op).value, ExecStep(s, diskPath, known, op, reply).value, perMiB, known)
    ensures GapsOpen(ExecStep(s, diskPath, known, op, reply).value.disk)
    ensures AllNumbered(PlanStep(rs, op).value, ExecStep(s, diskPath, known, op, reply).value, diskPath, index)
  {
    hide ViewOf, SlotAt, ShapeOf, Related, GapLen, Listed, ListedBefore, FreeSpaceRegionId, RightlyNumbered, PlanStep,
        ExecStep,
         FindView, Valid, DistinctPaths, Made;
    var k := IndexOf(rs, op.region);
    CreatedVector(rs, op);
    NumberIs(rs, s, diskPath, bound, k, index);
    NameAgreesExactly(rs, s, diskPath, op, index);
    StepSimulated(rs, s, perMiB, diskPath, known, op, reply);
    var at := SlotAt(rs, k);
    var rs', s' := PlanStep(rs, op).value, ExecStep(s, diskPath, known, op, reply).value;
    CreatedPartition(s, diskPath, known, op, reply, at);
    var part: Part :| part.start == EndBefore(s.disk, at) && 1 <= part.length <= GapLen(s.disk, at) &&
                      s'.disk == AddPartition(s.disk, at, part);
    ListedAfterAdd(s.disk, at, part, at);
    forall j | 0 <= j < |rs'| ensures RightlyNumbered(rs', s', diskPath, index, j) {
      if j < k {
        BeforeStays(rs, s, diskPath, bound, rs', s', op, index, part, j);
      } else if j == k {
        NewIsUnnumbered(rs', s', diskPath, index, j);
      } else if j == k + 1 && Leftover(rs[k], Made(rs, op)) != [] {
        LeftoverNumbered(rs, s, perMiB, diskPath, known, k, index, rs', s', part);
      } else {
        BehindStays(rs, s, diskPath, bound, rs', s', op, index, j);
      }
    }
  }

  lemma NumberIs(rs: seq<Region>, s: Execution, diskPath: string, bound: nat, k: int, index: nat)
    requires GapsOpen(s.disk) && AllNumbered(rs, s, diskPath, bound) && 0 <= k < |rs|
    requires 1 <= index <= bound && rs[k].device == FreeSpaceRegionId(diskPath, index)
    ensures rs[k].IsFree() && SlotAt(rs, k) <= |s.disk.parts| && Listed(s.disk, SlotAt(rs, k))
    ensures ListedBefore(s.disk, SlotAt(rs, k)) + 1 == index
  {
    hide SlotAt, Listed, ListedBefore, FreeSpaceRegionId;
    assert RightlyNumbered(rs, s, diskPath, bound, k);
  }

  lemma NewIsUnnumbered(rs: seq<Region>, s: Execution, diskPath: string, bound: nat, j: int)
    requires GapsOpen(s.disk) && 0 <= j < |rs| && rs[j].device == ""
    ensures RightlyNumbered(rs, s, diskPath, bound, j)
  {
    hide SlotAt, Listed, ListedBefore;
    forall index: nat ensures FreeSpaceRegionId(diskPath, index) != "" {
      FreeIdInjective(diskPath, index, 0);
    }
  }

  lemma BeforeStays(rs: seq<Region>, s: Execution, diskPath: string, bound: nat, rs': seq<Region>, s': Execution,
                    op: Operation, index: nat, part: Part, j: int)
    requires Valid(s.disk) && GapsOpen(s.disk) && GapsOpen(s'.disk) && AllNumbered(rs, s, diskPath, bound)
    requires op.Create? && op.region == FreeSpaceRegionId(diskPath, index) && 1 <= index <= bound
    requires var k := IndexOf(rs, op.region); 0 <= j < k < |rs| && k < |rs'| && rs'[..k] == rs[..k]
    requires var at := SlotAt(rs, IndexOf(rs, op.region));
             at <= |s.disk.parts| && ListedBefore(s.disk, at) + 1 == index &&
             part.start == EndBefore(s.disk, at) && 1 <= part.length <= GapLen(s.disk, at) &&
             s'.disk == AddPartition(s.disk, at, part)
    ensures RightlyNumbered(rs', s', diskPath, index, j)
  {
    hide GapLen, Listed, ListedBefore, FreeSpaceRegionId, SlotAt, Valid, AddPartition, EndBefore;
    var k := IndexOf(rs, op.region);
    var at := SlotAt(rs, k);
    assert rs'[..k][j] == rs[..k][j];
    SamePrefixSlot(rs, rs', k, j);
    assert RightlyNumbered(rs, s, diskPath, bound, j);
    forall m: nat | 1 <= m <= index && rs'[j].device == FreeSpaceRegionId(diskPath, m)
      ensures rs'[j].IsFree() && SlotAt(rs', j) <= |s'.disk.parts| && Listed(s'.disk, SlotAt(rs', j)) &&
              ListedBefore(s'.disk, SlotAt(rs', j)) + 1 == m
    {
      SlotGrows(rs, j, k);
      assert m != index;
      var i := SlotAt(rs, j);
      ListedAfterAdd(s.disk, at, part, i);
    }
  }

  lemma LeftoverNumbered(rs: seq<Region>, s: Execution, perMiB: int, diskPath: string, known: set<string>, k: nat,
                         index: nat, rs': seq<Region>, s': Execution, part: Part)
    requires Valid(s.disk) && GapsOpen(s.disk) && GapsOpen(s'.disk) && InStep(rs', s', perMiB, known)
    requires k < |rs| && k + 1 < |rs'| && rs[k].device == FreeSpaceRegionId(diskPath, index) && rs'[..k] == rs[..k]
    requires !rs'[k].IsFree() && rs'[k + 1].IsFree() && rs'[k + 1].device == rs[k].device && rs'[k + 1].sizeMiB >= 1
    requires var at := SlotAt(rs, k);
             at <= |s.disk.parts| && ListedBefore(s.disk, at) + 1 == index &&
             part.start == EndBefore(s.disk, at) && 1 <= part.length <= GapLen(s.disk, at) &&
             s'.disk == AddPartition(s.disk, at, part)
    ensures RightlyNumbered(rs', s', diskPath, index, k + 1)
  {
    hide GapLen, Listed, ListedBefore, FreeSpaceRegionId, ShapeOf, Valid, AddPartition, EndBefore, Related, SlotAt;
    var at := SlotAt(rs, k);
    SamePrefixSlot(rs, rs', k, k);
    SlotNext(rs', k);
    Refinement.SlotLookup(rs', k + 1);
    LeftoverListed(ShapeOf(rs'), s', perMiB, at + 1);
    ListedAfterAdd(s.disk, at, part, at);
    forall m: nat | 1 <= m <= index && rs'[k + 1].device == FreeSpaceRegionId(diskPath, m) ensures m == index {
      FreeIdInjective(diskPath, m, index);
    }
  }

  lemma SamePrefixSlot(a: seq<Region>, b: seq<Region>, k: nat, j: nat)
    requires j <= k <= |a| && k <= |b| && a[..k] == b[..k]
    ensures SlotAt(a, j) == SlotAt(b, j)
  {
    assert a[..j] == a[..k][..j] == b[..k][..j] == b[..j];
  }

  /** Regions behind the created one keep their ids, none of which is numbered up to the one just used. */
  lemma BehindStays(rs: seq<Region>, s: Execution, diskPath: string, bound: nat, rs': seq<Region>, s': Execution,
                    op: Operation, index: nat, j: int)
    requires GapsOpen(s.disk) && GapsOpen(s'.disk) && AllNumbered(rs, s, diskPath, bound) && NoAdjacentFree(rs)
    requires op.Create? && op.region == FreeSpaceRegionId(diskPath, index) && 1 <= index <= bound
    requires 0 <= j < |rs'| && IndexOf(rs, op.region) < |rs| && rs'[j] in rs[IndexOf(rs, op.region) + 1..]
    ensures RightlyNumbered(rs', s', diskPath, index, j)
  {
    hide SlotAt, Listed, ListedBefore, FreeSpaceRegionId;
    var k := IndexOf(rs, op.region);
    var i :| k < i < |rs| && rs[i] == rs'[j];
    NumbersBehind(rs, s, diskPath, bound, k, i, index);
  }

  // ---------- what a choice does to the numbers ----------

  lemma {:induction false} SameKindsSameSlot(a: seq<Region>, b: seq<Region>, k: nat)
    requires |a| == |b| && k <= |a| && forall i | 0 <= i < |a| :: a[i].IsFree() == b[i].IsFree()
    ensures SlotAt(a, k) == SlotAt(b, k)
  {
    if k > 0 {
      SameKindsSameSlot(a, b, k - 1);
      SlotNext(a, k - 1);
      SlotNext(b, k - 1);
    }
  }

  lemma ChoiceKeepsNumbers(rs: seq<Region>, s: Execution, diskPath: string, rs': seq<Region>, s': Execution, bound: nat)
    requires GapsOpen(s.disk) && AllNumbered(rs, s, diskPath, bound) && s'.disk == s.disk && |rs'| == |rs|
    requires forall i | 0 <= i < |rs| :: rs'[i].device == rs[i].device && rs'[i].IsFree() == rs[i].IsFree()
    ensures AllNumbered(rs', s', diskPath, bound)
  {
    hide SlotAt, Listed, ListedBefore, FreeSpaceRegionId;
    forall j | 0 <= j < |rs'| ensures RightlyNumbered(rs', s', diskPath, bound, j) {
      SameKindsSameSlot(rs, rs', j);
      assert RightlyNumbered(rs, s, diskPath, bound, j);
    }
  }

  lemma ChoiceStep(rs: seq<Region>, s: Execution, diskPath: string, known: set<string>, op: Operation, reply: Reply)
    requires Valid(s.disk) && (op.SetMountpoint? || op.SetFilesystem?) &&
        (op.SetFilesystem? ==> reply.path == op.partition)
    requires PlanStep(rs, op).Ok? && ExecStep(s, diskPath, known, op, reply).Ok?
    ensures ExecStep(s, diskPath, known, op, reply).value.disk == s.disk
    ensures var rs' := PlanStep(rs, op).value;
            |rs'| == |rs| &&
            forall i | 0 <= i < |rs| :: rs'[i].device == rs[i].device && rs'[i].IsFree() == rs[i].IsFree()
  {
    hide ViewOf, GapLen;
    ValidOpens(s.disk);
    var v := ViewOf(s.disk, diskPath);
    var k := FindView(v, op.partition);
    if op.SetFilesystem? && k < |v| && !v[k].isFree {
      var e := v[k];
      assert e in v;
      assert SetPath(s.disk, e.slot, reply.path) == s.disk;
    }
  }

  // ---------- orderly plans agree ----------

  lemma {:induction false} OrderlyRunsAgree(rs: seq<Region>, s: Execution, perMiB: int, diskPath: string,
                                            known: set<string>, ops: seq<Operation>, replies: seq<Reply>, bound: nat)
    requires InStep(rs, s, perMiB, known) && PlanRun(rs, ops).Ok?
    requires |replies| == |ops| && RepliesAdmissible(s, diskPath, known, ops, replies) && PathsStay(ops, replies)
    requires GapsOpen(s.disk) && AllNumbered(rs, s, diskPath, bound) && Orderly(diskPath, ops, bound)
    ensures RunNamesAgree(rs, s, diskPath, known, ops, replies)
    decreases |ops|
  {
    hide PlanStep, ExecStep, Admissible, InStep, SameGap, AllNumbered, FreeSpaceRegionId;
    if ops != [] {
      var op, reply := ops[0], replies[0];
      assert PathsStay(ops[1..], replies[1..]);
      StillDisk(rs, s, perMiB, known);
      var next: nat := OneOrderlyStep(rs, s, perMiB, diskPath, known, ops, replies, bound);
      StepKeepsSound(s, diskPath, known, op, reply);
      OrderlyRunsAgree(PlanStep(rs, op).value, ExecStep(s, diskPath, known, op, reply).value, perMiB, diskPath, known,
                       ops[1..], replies[1..], next);
    }
  }

  lemma OneOrderlyStep(rs: seq<Region>, s: Execution, perMiB: int, diskPath: string, known: set<string>,
                       ops: seq<Operation>, replies: seq<Reply>, bound: nat) returns (next: nat)
    requires ops != [] && |replies| == |ops| && InStep(rs, s, perMiB, known) && PlanStep(rs, ops[0]).Ok?
    requires Admissible(s, diskPath, ops[0], replies[0]) && PathsStay(ops, replies)
    requires GapsOpen(s.disk) && AllNumbered(rs, s, diskPath, bound) && Orderly(diskPath, ops, bound)
    ensures NamesAgree(rs, s, diskPath, ops[0], replies[0]) && ExecStep(s, diskPath, known, ops[0], replies[0]).Ok?
    ensures InStep(PlanStep(rs, ops[0]).value, ExecStep(s, diskPath, known, ops[0], replies[0]).value, perMiB, known)
    ensures GapsOpen(ExecStep(s, diskPath, known, ops[0], replies[0]).value.disk)
    ensures AllNumbered(PlanStep(rs, ops[0]).value, ExecStep(s, diskPath, known, ops[0], replies[0]).value, diskPath,
                        next)
    ensures Orderly(diskPath, ops[1..], next)
  {
    hide PlanStep, ExecStep, Admissible, InStep, SameGap, AllNumbered, FreeSpaceRegionId;
    var op, reply := ops[0], replies[0];
    if op.Create? {
      next :| 1 <= next <= bound && op.region == FreeSpaceRegionId(diskPath, next) && Orderly(diskPath, ops[1..], next);
      StillDisk(rs, s, perMiB, known);
      CreateKeepsNumbers(rs, s, perMiB, diskPath, known, op, reply, bound, next);
    } else {
      StillDisk(rs, s, perMiB, known);
      StepSimulated(rs, s, perMiB, diskPath, known, op, reply);
      var rs', s' := PlanStep(rs, op).value, ExecStep(s, diskPath, known, op, reply).value;
      StillDisk(rs', s', perMiB, known);
      if op.SetMountpoint? || op.SetFilesystem? {
        ChoiceStep(rs, s, diskPath, known, op, reply);
        ChoiceKeepsNumbers(rs, s, diskPath, rs', s', bound);
        next := bound;
      } else {
        next := 0;
        NothingNumbered(rs', s', diskPath);
      }
    }
  }

  lemma StillDisk(rs: seq<Region>, s: Execution, perMiB: int, known: set<string>)
    requires InStep(rs, s, perMiB, known)
    ensures Sound(s) && Valid(s.disk) && GapsOpen(s.disk)
  {
    ValidOpens(s.disk);
  }

  lemma NothingNumbered(rs: seq<Region>, s: Execution, diskPath: string)
    requires GapsOpen(s.disk)
    ensures AllNumbered(rs, s, diskPath, 0)
  {
  }

  // ---------- from the start ----------

  /** Of the first gaps of the walk, up to the one numbered `bound`, all but the last hold a whole MiB. */
  ghost predicate WholeGapsBefore(d: Disk, bound: nat)
    requires GapsOpen(d)
  {
    forall j | 0 <= j <= |d.parts| && GapLen(d, j) > 0 && Builder.CountedBefore(d, j) + 1 < bound :: Listed(d, j)
  }

  /** An entry of the regions with a free-space id is a listed gap at its place. */
  lemma {:induction false} EntryOfGap(d: Disk, diskPath: string, mounted: map<string, string>, n: int, j: int)
      returns (i: int)
    requires Builder.LengthsOpen(d) && DistinctPaths(d) && Builder.Probed(d) && 0 <= n <= |d.parts|
    requires 0 <= j < |Builder.RegionPrefix(d, diskPath, mounted, n)|
    requires '#' in Builder.RegionPrefix(d, diskPath, mounted, n)[j].device
    ensures 0 <= i < n && Listed(d, i) && j == i + ListedBefore(d, i)
  {
    hide Listed, FreeSpaceRegionId, Builder.GapRegion, Builder.MiBOf, Builder.RegionPrefix, ListedBefore, DistinctPaths;
    Builder.NoRegions(d, diskPath, mounted);
    Builder.RegionPrefixNext(d, diskPath, mounted, n - 1);
    NoMarkInPath(d, mounted, n - 1);
    var before, gap := Builder.RegionPrefix(d, diskPath, mounted, n - 1), Builder.GapRegions(d, diskPath, n - 1);
    Builder.PrefixShape(d, diskPath, mounted, n - 1);
    var rs := before + gap + [Builder.PartRegion(d, mounted, n - 1)];
    if j < |before| {
      assert rs[j] == before[j];
      i := EntryOfGap(d, diskPath, mounted, n - 1, j);
    } else {
      i := n - 1;
      assert rs[|before + gap|] == Builder.PartRegion(d, mounted, n - 1);
    }
  }

  lemma NoMarkInPath(d: Disk, mounted: map<string, string>, i: int)
    requires Builder.LengthsOpen(d) && DistinctPaths(d) && 0 <= i < |d.parts|
    ensures '#' !in Builder.PartRegion(d, mounted, i).device
  {
  }

  /** Before any operation, regions numbered up to the bound are the gaps the executor gives those numbers. */
  lemma InitiallyNumbered(d: Disk, diskPath: string, mounted: map<string, string>, bound: nat)
    requires Valid(d) && DistinctPaths(d) && Builder.Probed(d)
    ensures Builder.LengthsOpen(d)
    ensures WholeGapsBefore(d, bound) ==>
      AllNumbered(Builder.RegionsOf(d, diskPath, mounted), Execution(d, map[], map[], map[]), diskPath, bound)
  {
    hide Listed, FreeSpaceRegionId, Builder.RegionsOf, GapLen, SlotAt, ListedBefore, Builder.CountedBefore, Valid;
    ValidOpens(d);
    var rs, s := Builder.RegionsOf(d, diskPath, mounted), Execution(d, map[], map[], map[]);
    if WholeGapsBefore(d, bound) {
      forall j, index: nat | 0 <= j < |rs| && 1 <= index <= bound && rs[j].device == FreeSpaceRegionId(diskPath, index)
        ensures rs[j].IsFree() && SlotAt(rs, j) <= |d.parts| && Listed(d, SlotAt(rs, j)) &&
                ListedBefore(d, SlotAt(rs, j)) + 1 == index
      {
        InitialNumber(d, diskPath, mounted, bound, j, index);
      }
      forall j | 0 <= j < |rs| ensures RightlyNumbered(rs, s, diskPath, bound, j) {
      }
    }
  }

  lemma GapAtEntry(d: Disk, diskPath: string, mounted: map<string, string>, j: int) returns (i: int)
    requires Builder.LengthsOpen(d) && DistinctPaths(d) && Builder.Probed(d)
    requires 0 <= j < |Builder.RegionsOf(d, diskPath, mounted)| &&
        '#' in Builder.RegionsOf(d, diskPath, mounted)[j].device
    ensures 0 <= i <= |d.parts| && Listed(d, i) && j == i + ListedBefore(d, i)
  {
    hide Listed, Builder.RegionPrefix, ShapeOf, Builder.GapRegion, DistinctPaths, ListedBefore;
    i := |d.parts|;
    Builder.PrefixShape(d, diskPath, mounted, i);
    if j < |Builder.RegionPrefix(d, diskPath, mounted, i)| { i := EntryOfGap(d, diskPath, mounted, i, j); }
  }

  lemma InitialNumber(d: Disk, diskPath: string, mounted: map<string, string>, bound: nat, j: int, index: nat)
    requires Builder.LengthsOpen(d) && DistinctPaths(d) && Builder.Probed(d) && WholeGapsBefore(d, bound)
    requires 0 <= j < |Builder.RegionsOf(d, diskPath, mounted)| && 1 <= index <= bound
    requires Builder.RegionsOf(d, diskPath, mounted)[j].device == FreeSpaceRegionId(diskPath, index)
    ensures var rs := Builder.RegionsOf(d, diskPath, mounted);
            rs[j].IsFree() && SlotAt(rs, j) <= |d.parts| && Listed(d, SlotAt(rs, j)) &&
            ListedBefore(d, SlotAt(rs, j)) + 1 == index
  {
    hide Listed, FreeSpaceRegionId, GapLen, SlotAt, Builder.RegionsOf, ShapeOf, Builder.MiBOf, WholeGapsBefore,
        DistinctPaths,
         ListedBefore, Builder.CountedBefore;
    FreeIdInjective(diskPath, index, 0);
    var i := GapAtEntry(d, diskPath, mounted, j);
    Builder.GapRegionAt(d, diskPath, mounted, i);
    FreeIdInjective(diskPath, Builder.CountedBefore(d, i) + 1, index);
    CountsAgree(d, bound, i);
  }

  lemma CountsAgree(d: Disk, bound: nat, i: int)
    requires GapsOpen(d) && WholeGapsBefore(d, bound) && 0 <= i <= |d.parts| && Builder.CountedBefore(d, i) + 1 <= bound
    ensures ListedBefore(d, i) == Builder.CountedBefore(d, i)
  {
    hide Listed, GapLen, ListedBefore;
    Builder.CountsCompare(d, i);
    forall j | 0 <= j < i && GapLen(d, j) > 0 ensures Listed(d, j) {
      CountsGrow(d, j, i);
    }
  }

  lemma {:induction false} CountsGrow(d: Disk, j: int, i: int)
    requires GapsOpen(d) && 0 <= j < i <= |d.parts| && GapLen(d, j) > 0
    ensures Builder.CountedBefore(d, j) < Builder.CountedBefore(d, i)
    decreases i
  {
    hide GapLen;
    if j + 1 < i { CountsGrow(d, j, i - 1); }
  }

  /** An orderly plan means the same gaps to both sides all along, when of the gaps up to its highest number all but the
      last hold a whole MiB. */
  lemma OrderlyPlansAgree(d: Disk, diskPath: string, mounted: map<string, string>, perMiB: int, known: set<string>,
                          ops: seq<Operation>, replies: seq<Reply>, bound: nat)
    requires Valid(d) && DistinctPaths(d) && Builder.Probed(d) && WholeSectors(d.sectorSize, perMiB) &&
        SUPPORTED <= known
    requires forall i | 0 <= i < |d.parts| :: !IsValidMountpoint(Builder.MountedAt(mounted, d.parts[i].path))
    requires GapsOpen(d) && WholeGapsBefore(d, bound) && Orderly(diskPath, ops, bound)
    requires |replies| == |ops| && PathsStay(ops, replies)
    requires RepliesAdmissible(Execution(d, map[], map[], map[]), diskPath, known, ops, replies)
    requires Builder.LengthsOpen(d) && PlanRun(Builder.RegionsOf(d, diskPath, mounted), ops).Ok?
    ensures RunNamesAgree(Builder.RegionsOf(d, diskPath, mounted), Execution(d, map[], map[], map[]), diskPath, known,
                          ops, replies)
  {
    hide PlanRun, RepliesAdmissible, RunNamesAgree, Related, ShapeOf, Orderly, PathsStay, AllNumbered, WholeGapsBefore;
    var rs, s := Builder.RegionsOf(d, diskPath, mounted), Execution(d, map[], map[], map[]);
    Builder.InitiallySound(d, diskPath, mounted, perMiB);
    Builder.InitiallyRelated(d, diskPath, mounted, perMiB);
    InitiallyNumbered(d, diskPath, mounted, bound);
    OrderlyRunsAgree(rs, s, perMiB, diskPath, known, ops, replies, bound);
  }

  /** So an accepted orderly plan is carried out and yields the targets the installation needs. */
  lemma OrderlyPlanInstalls(d: Disk, diskPath: string, mounted: map<string, string>, perMiB: int, known: set<string>,
                            ops: seq<Operation>, replies: seq<Reply>, bound: nat)
    requires Valid(d) && DistinctPaths(d) && Builder.Probed(d) && WholeSectors(d.sectorSize, perMiB) &&
        SUPPORTED <= known
    requires forall i | 0 <= i < |d.parts| :: !IsValidMountpoint(Builder.MountedAt(mounted, d.parts[i].path))
    requires GapsOpen(d) && WholeGapsBefore(d, bound) && Orderly(diskPath, ops, bound)
    requires |replies| == |ops| && PathsStay(ops, replies)
    requires RepliesAdmissible(Execution(d, map[], map[], map[]), diskPath, known, ops, replies)
    requires Builder.LengthsOpen(d) && PlanRun(Builder.RegionsOf(d, diskPath, mounted), ops).Ok?
    requires InstallableLayout(PlanRun(Builder.RegionsOf(d, diskPath, mounted), ops).value)
    ensures var run := ExecRun(Execution(d, map[], map[], map[]), diskPath, known, ops, replies);
            run.Ok? && Sound(run.value) &&
            exists b, r | 0 <= b < |run.value.disk.parts| && 0 <= r < |run.value.disk.parts| ::
              Installs(run.value, diskPath, b, r)
  {
    hide PlanRun, ExecRun, RepliesAdmissible, RunNamesAgree, InstallableLayout, Installs, Orderly, PathsStay,
        WholeGapsBefore;
    OrderlyPlansAgree(d, diskPath, mounted, perMiB, known, ops, replies, bound);
    AcceptedPlanInstalls(d, diskPath, mounted, perMiB, known, ops, replies);
  }

  // ---------- a plan carried out in the wrong gap ----------

  const SDA := "/dev/sda"

  /** Gaps of 200 MiB, 50000 MiB and 1 MiB around two partitions of 1 MiB, in sectors of 512 bytes. */
  const THREE_GAPS := Disk(512, 2048, 102817792,
                           [Part("/dev/sda1", 411648, 2048, FILESYSTEM_EXT4),
                            Part("/dev/sda2", 102813696, 2048, FILESYSTEM_EXT4)])

  /** The boot partition takes all of the first gap, the root partition all of the second. */
  function BootThenRoot(): seq<Operation> {
    [Create(FreeSpaceRegionId(SDA, 1), 0, true, FILESYSTEM_FAT32, MOUNTPOINT_BOOT),
     Create(FreeSpaceRegionId(SDA, 2), 0, true, FILESYSTEM_EXT4, MOUNTPOINT_ROOT)]
  }

  function PlannedRegions(): seq<Region> {
    [Region(FreeSpaceRegionId(SDA, 1), "", 200, ""), Region("/dev/sda1", FILESYSTEM_EXT4, 1, ""),
     Region(FreeSpaceRegionId(SDA, 2), "", 50000, ""), Region("/dev/sda2", FILESYSTEM_EXT4, 1, ""),
     Region(FreeSpaceRegionId(SDA, 3), "", 1, "")]
  }

  function PlannedLayout(): seq<Region> {
    [Region("", FILESYSTEM_FAT32, 200, MOUNTPOINT_BOOT), Region("/dev/sda1", FILESYSTEM_EXT4, 1, ""),
     Region("", FILESYSTEM_EXT4, 50000, MOUNTPOINT_ROOT), Region("/dev/sda2", FILESYSTEM_EXT4, 1, ""),
     Region(FreeSpaceRegionId(SDA, 3), "", 1, "")]
  }

  lemma ThreeGapFacts()
    ensures var d := THREE_GAPS;
            Valid(d) && DistinctPaths(d) && Builder.Probed(d) && Builder.LengthsOpen(d) && WholeSectors(512, 2048) &&
            GapLen(d, 0) == 409600 && GapLen(d, 1) == 102400000 && GapLen(d, 2) == 2048 &&
            Builder.MiBOf(512, 409600) == 200 && Builder.MiBOf(512, 102400000) == 50000 && Builder.MiBOf(512, 2048) == 1
  {
    var d := THREE_GAPS;
    assert GapLen(d, 0) == 409600 && GapLen(d, 1) == 102400000 && GapLen(d, 2) == 2048;
    assert SectorsToMiB(512, 409600) == 200 && SectorsToMiB(512, 102400000) == 50000 && SectorsToMiB(512, 2048) == 1;
  }

  lemma ShownRegions()
    ensures Builder.LengthsOpen(THREE_GAPS)
    ensures Builder.RegionsOf(THREE_GAPS, SDA, map[]) == PlannedRegions()
  {
    hide SectorsToMiB, FreeSpaceRegionId, GapLen;
    var d := THREE_GAPS;
    ThreeGapFacts();
    assert Builder.CountedBefore(d, 0) == 0 && Builder.CountedBefore(d, 1) == 1 && Builder.CountedBefore(d, 2) == 2;
    assert Builder.RegionPrefix(d, SDA, map[], 0) == [];
    assert Builder.RegionPrefix(d, SDA, map[], 1) == PlannedRegions()[..2];
    assert Builder.RegionPrefix(d, SDA, map[], 2) == PlannedRegions()[..4];
  }

  /** The planner accepts the plan, and its layout can be installed on. */
  lemma WrongGapAccepted()
    ensures PlanRun(PlannedRegions(), BootThenRoot()) == Result.Ok(PlannedLayout()) &&
        InstallableLayout(PlannedLayout())
  {
    hide FreeSpaceRegionId, PlanStep;
    var rs, ops, end := PlannedRegions(), BootThenRoot(), PlannedLayout();
    var mid := rs[0 := end[0]];
    FreeIdInjective(SDA, 1, 2);
    FreeIdInjective(SDA, 2, 3);
    assert mid[..2] == [end[0], end[1]];
    TakesAll(rs, 0, 1, FILESYSTEM_FAT32, MOUNTPOINT_BOOT);
    TakesAll(mid, 2, 2, FILESYSTEM_EXT4, MOUNTPOINT_ROOT);
    assert mid[2 := end[2]] == end;
    assert ops[1..] == [ops[1]] && ops[1..][1..] == [];
    assert OnlyMount(end, MOUNTPOINT_BOOT, 0) && OnlyMount(end, MOUNTPOINT_ROOT, 2) && Installable(end[0], end[2]);
  }

  /** A create that takes all of a region puts its partition in the region's place. */
  lemma TakesAll(rs: seq<Region>, k: nat, index: nat, fs: string, mp: string)
    requires k < |rs| && rs[k].IsFree() && rs[k].device == FreeSpaceRegionId(SDA, index) && NoAdjacentFree(rs)
    requires forall r <- rs[..k] :: r.device != FreeSpaceRegionId(SDA, index)
    requires IsValidFilesystem(fs) && IsValidMountpoint(mp)
    ensures PlanStep(rs, Create(FreeSpaceRegionId(SDA, index), 0, true, fs, mp)) ==
            Result.Ok(rs[k := Region("", fs, rs[k].sizeMiB, mp)])
  {
    hide FreeSpaceRegionId, IndexOf, Coalesced;
    FreeIdInjective(SDA, index, 0);
    FirstNamed(rs, k, FreeSpaceRegionId(SDA, index));
    var part := Region("", fs, rs[k].sizeMiB, mp);
    SplitMerged(rs, k, part, []);
    assert Split(rs, k, part, []) == rs[k := part];
    CoalescedFixpoint(rs[k := part]);
  }

  /** A create that takes all of the listed gap its number denotes puts its partition there. */
  lemma FillsGap(s: Execution, at: int, index: nat, fs: string, mp: string, reply: Reply)
    requires Sound(s) && GapsOpen(s.disk) && 0 <= at <= |s.disk.parts| && Listed(s.disk, at)
    requires ListedBefore(s.disk, at) + 1 == index && fs in SUPPORTED
    ensures ExecStep(s, SDA, SUPPORTED, Create(FreeSpaceRegionId(SDA, index), 0, true, fs, mp), reply) ==
            Result.Ok(Execution(AddPartition(s.disk, at,
                                             Part(reply.path, EndBefore(s.disk, at), GapLen(s.disk, at), reply.probed)),
                                s.mounts[reply.path := mp], s.systems[reply.path := fs], s.formats[reply.path := true]))
  {
    hide ViewOf, FreeSpaceRegionId, Listed, ListedBefore, GapLen, EndBefore, AddPartition, SectorsForMiB, FindView,
        SUPPORTED;
    ExecutorResolvesGap(s.disk, SDA, index, at);
    var v := ViewOf(s.disk, SDA);
    ListedGap(s.disk, SDA, FindView(v, FreeSpaceRegionId(SDA, index)));
  }

  /** The table after the boot partition has filled the first gap. */
  function BootFilled(boot: Reply): Disk {
    THREE_GAPS.(parts := [Part(boot.path, 2048, 409600, boot.probed)] + THREE_GAPS.parts)
  }

  lemma BootFilledFacts(boot: Reply)
    ensures var d := BootFilled(boot);
            GapsOpen(d) && |d.parts| == 3 && GapLen(d, 3) == 2048 && EndBefore(d, 3) == 102815744 && Listed(d, 3) &&
            ListedBefore(d, 3) == 1
  {
    hide SectorsToMiB;
    var d := BootFilled(boot);
    ThreeGapFacts();
    NoSectors(512);
    assert GapLen(d, 0) == 0 && GapLen(d, 1) == 0 && GapLen(d, 2) == 102400000 && GapLen(d, 3) == 2048;
    assert ListedBefore(d, 0) == 0 && ListedBefore(d, 1) == 0 && ListedBefore(d, 2) == 0;
  }

  ghost predicate FreshReplies(boot: Reply, root: Reply) {
    IsPath(boot.path) && IsPath(root.path) && boot.path != root.path &&
    boot.path !in {"/dev/sda1", "/dev/sda2"} && root.path !in {"/dev/sda1", "/dev/sda2"}
  }

  lemma BootStep(boot: Reply, root: Reply)
    requires FreshReplies(boot, root)
    ensures var s := Execution(THREE_GAPS, map[], map[], map[]);
            Sound(s) && Admissible(s, SDA, BootThenRoot()[0], boot) &&
            ExecStep(s, SDA, SUPPORTED, BootThenRoot()[0], boot) == Result.Ok(AfterBoot(boot)) && Sound(AfterBoot(boot))
  {
    hide SectorsToMiB, FreeSpaceRegionId, ExecStep, ViewOf;
    var s := Execution(THREE_GAPS, map[], map[], map[]);
    ThreeGapFacts();
    assert Paths(THREE_GAPS) == {"/dev/sda1", "/dev/sda2"} by {
      assert THREE_GAPS.parts[0].path in Paths(THREE_GAPS) && THREE_GAPS.parts[1].path in Paths(THREE_GAPS);
    }
    FillsGap(s, 0, 1, FILESYSTEM_FAT32, MOUNTPOINT_BOOT, boot);
    assert AddPartition(THREE_GAPS, 0, Part(boot.path, 2048, 409600, boot.probed)) == BootFilled(boot);
    StepKeepsSound(s, SDA, SUPPORTED, BootThenRoot()[0], boot);
  }

  function AfterBoot(boot: Reply): Execution {
    Execution(BootFilled(boot), map[boot.path := MOUNTPOINT_BOOT], map[boot.path := FILESYSTEM_FAT32],
              map[boot.path := true])
  }

  lemma RootStep(boot: Reply, root: Reply)
    requires FreshReplies(boot, root) && Sound(AfterBoot(boot))
    ensures var s, op := AfterBoot(boot), BootThenRoot()[1];
            Admissible(s, SDA, op, root) && var step := ExecStep(s, SDA, SUPPORTED, op, root);
            step.Ok? && step.value.disk.parts ==
                BootFilled(boot).parts + [Part(root.path, 102815744, 2048, root.probed)] &&
            step.value.mounts == map[boot.path := MOUNTPOINT_BOOT, root.path := MOUNTPOINT_ROOT]
  {
    hide FreeSpaceRegionId, ExecStep, ViewOf, GapLen, EndBefore, Listed, ListedBefore;
    var d := BootFilled(boot);
    BootFilledFacts(boot);
    forall p <- Paths(d) ensures p in {boot.path, "/dev/sda1", "/dev/sda2"} {
      var i :| 0 <= i < |d.parts| && d.parts[i].path == p;
      assert d.parts[i] == d.parts[0] || d.parts[i] == d.parts[1] || d.parts[i] == d.parts[2];
    }
    FillsGap(AfterBoot(boot), 3, 2, FILESYSTEM_EXT4, MOUNTPOINT_ROOT, root);
    var part := Part(root.path, 102815744, 2048, root.probed);
    assert d.parts[..3] + [part] + d.parts[3..] == d.parts + [part];
  }

  /** Without any small gap, the renumbering after the first create is enough: the planner accepts a layout that can
      be installed on, with a root partition of 50000 MiB, and the executor carries both creates out, with the root
      partition in the last gap, one MiB long. */
  lemma CarriedOutInTheWrongGap(boot: Reply, root: Reply)
    requires FreshReplies(boot, root)
    ensures var d, ops, replies := THREE_GAPS, BootThenRoot(), [boot, root];
            var s := Execution(d, map[], map[], map[]);
            Builder.LengthsOpen(d) && (forall i | 0 <= i <= |d.parts| :: GapLen(d, i) > 0 ==> Listed(d, i)) &&
            (var planned := PlanRun(Builder.RegionsOf(d, SDA, map[]), ops);
             planned.Ok? && InstallableLayout(planned.value) && |planned.value| == 5 &&
                 planned.value[2].mountpoint == MOUNTPOINT_ROOT &&
             planned.value[2].sizeMiB == 50000) &&
            Sound(s) && RepliesAdmissible(s, SDA, SUPPORTED, ops, replies) &&
            var run := ExecRun(s, SDA, SUPPORTED, ops, replies);
            run.Ok? && OnlyKey(run.value.mounts, MOUNTPOINT_ROOT, root.path) && |run.value.disk.parts| == 4 &&
            run.value.disk.parts[3] == Part(root.path, 102815744, 2048, root.probed) && SectorsToMiB(512, 2048) == 1
  {
    hide SectorsToMiB, FreeSpaceRegionId, ExecStep, PlanStep, ViewOf, Builder.RegionsOf, Admissible, DistinctPaths;
    var ops, replies := BootThenRoot(), [boot, root];
    ThreeGapFacts();
    ShownRegions();
    WrongGapAccepted();
    BootStep(boot, root);
    RootStep(boot, root);
    StepKeepsSound(AfterBoot(boot), SDA, SUPPORTED, ops[1], root);
    assert ops[1..] == [ops[1]] && ops[1..][1..] == [] && replies[1..] == [root] && replies[1..][1..] == [];
  }
}

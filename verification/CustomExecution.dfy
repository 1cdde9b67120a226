/** The object that carries custom execution: the open table, the three maps and the current view, updated
    operation by operation, and the targets the later install steps use. */
module CustomExecution {
  import opened StorageTypes
  import opened SectorArithmetic
  import opened PartitionTable
  import opened PartitionStep

  datatype Target = Target(device: string, mountpoint: string, filesystem: string, format: bool)

  ghost function ExecRun(s: Execution, diskPath: string, known: set<string>, ops: seq<Operation>, replies: seq<Reply>)
    : Result<Execution>
    requires Sound(s) && |replies| == |ops| && RepliesAdmissible(s, diskPath, known, ops, replies)
    decreases |ops|
  {
    if ops == [] then Ok(s)
    else
      match ExecStep(s, diskPath, known, ops[0], replies[0])
      case Err(e) => Err(e)
      case Ok(next) =>
        StepKeepsSound(s, diskPath, known, ops[0], replies[0]);
        ExecRun(next, diskPath, known, ops[1..], replies[1..])
  }

  /** libparted picks live-unique paths all along the run. */
  ghost predicate RepliesAdmissible(s: Execution, diskPath: string, known: set<string>, ops: seq<Operation>,
                                    replies: seq<Reply>)
    requires Sound(s) && |replies| == |ops|
    decreases |ops|
  {
    ops != [] ==>
      Admissible(s, diskPath, ops[0], replies[0]) &&
      var step := ExecStep(s, diskPath, known, ops[0], replies[0]);
      step.Ok? ==>
        (StepKeepsSound(s, diskPath, known, ops[0], replies[0]);
         RepliesAdmissible(step.value, diskPath, known, ops[1..], replies[1..]))
  }

  lemma {:induction false} RunKeepsSound(s: Execution, diskPath: string, known: set<string>, ops: seq<Operation>,
                                         replies: seq<Reply>)
    requires Sound(s) && |replies| == |ops| && RepliesAdmissible(s, diskPath, known, ops, replies)
    requires ExecRun(s, diskPath, known, ops, replies).Ok?
    ensures Sound(ExecRun(s, diskPath, known, ops, replies).value)
    decreases |ops|
  {
    if ops != [] {
      StepKeepsSound(s, diskPath, known, ops[0], replies[0]);
      RunKeepsSound(ExecStep(s, diskPath, known, ops[0], replies[0]).value, diskPath, known, ops[1..], replies[1..]);
    }
  }

  /** Partition p is the only one with mountpoint mp. */
  ghost predicate OnlyKey(mounts: map<string, string>, mp: string, p: string) {
    p in mounts && mounts[p] == mp && forall q <- mounts :: q != p ==> mounts[q] != mp
  }

  /** Exactly one partition has the boot and exactly one the root mountpoint. */
  ghost predicate OneBootOneRoot(mounts: map<string, string>) {
    exists b, p :: OnlyKey(mounts, MOUNTPOINT_BOOT, b) && OnlyKey(mounts, MOUNTPOINT_ROOT, p)
  }

  function ProbedAt(v: seq<View>, path: string): string {
    var k := FindView(v, path);
    if k < |v| then v[k].filesystem else ""
  }

  /** The target a mounted partition becomes: its chosen filesystem, or else the one found on it. */
  ghost function TargetFor(s: Execution, v: seq<View>, p: string): Target
    requires p in s.mounts
  {
    Target(p, s.mounts[p], if p in s.systems then s.systems[p] else ProbedAt(v, p), p in s.formats && s.formats[p])
  }

  ghost predicate InEitherOrder(targets: seq<Target>, x: Target, y: Target) {
    targets == [x, y] || targets == [y, x]
  }

  /** The processed keys with mountpoint mp. */
  ghost function MountedAt(mounts: map<string, string>, left: set<string>, mp: string): set<string> {
    set p <- mounts | p !in left && mounts[p] == mp
  }

  /** The targets collected from at most one boot and one root key. */
  ghost predicate Gathered(targets: seq<Target>, s: Execution, v: seq<View>, boots: set<string>, roots: set<string>,
                           b: string, r: string)
    requires boots != {} ==> b in s.mounts
    requires roots != {} ==> r in s.mounts
  {
    if boots == {} then (if roots == {} then targets == [] else targets == [TargetFor(s, v, r)])
    else if roots == {} then targets == [TargetFor(s, v, b)]
    else InEitherOrder(targets, TargetFor(s, v, b), TargetFor(s, v, r))
  }

  lemma MountedStart(mounts: map<string, string>, mp: string)
    ensures MountedAt(mounts, mounts.Keys, mp) == {}
  {
  }

  lemma MountedStep(mounts: map<string, string>, left: set<string>, path: string, mp: string)
    requires path in left && left <= mounts.Keys
    ensures path !in MountedAt(mounts, left, mp) && MountedAt(mounts, left, mp) <= mounts.Keys
    ensures MountedAt(mounts, left - {path}, mp) ==
            if mounts[path] == mp then MountedAt(mounts, left, mp) + {path} else MountedAt(mounts, left, mp)
  {
  }

  /** How far target collection has come when the keys in `left` are still to be visited. */
  ghost predicate Progress(s: Execution, v: seq<View>, left: set<string>, b: string, r: string, targets: seq<Target>) {
    var boots, roots := MountedAt(s.mounts, left, MOUNTPOINT_BOOT), MountedAt(s.mounts, left, MOUNTPOINT_ROOT);
    (if boots == {} then b == "" else b in boots && b != "") &&
    (if roots == {} then r == "" else r in roots && r != "") &&
    |targets| == |boots| + |roots| &&
    (|boots| <= 1 && |roots| <= 1 ==> Gathered(targets, s, v, boots, roots, b, r))
  }

  lemma ProgressStart(s: Execution, v: seq<View>)
    ensures Progress(s, v, s.mounts.Keys, "", "", [])
  {
    MountedStart(s.mounts, MOUNTPOINT_BOOT);
    MountedStart(s.mounts, MOUNTPOINT_ROOT);
  }

  lemma ProgressStep(s: Execution, v: seq<View>, left: set<string>, path: string, b: string, r: string,
                     targets: seq<Target>)
    requires path in left && left <= s.mounts.Keys && Progress(s, v, left, b, r, targets)
    ensures path != "" && s.mounts[path] == MOUNTPOINT_BOOT ==>
              Progress(s, v, left - {path}, path, r, targets + [TargetFor(s, v, path)])
    ensures path != "" && s.mounts[path] == MOUNTPOINT_ROOT ==>
              Progress(s, v, left - {path}, b, path, targets + [TargetFor(s, v, path)])
    ensures s.mounts[path] != MOUNTPOINT_BOOT && s.mounts[path] != MOUNTPOINT_ROOT ==>
              Progress(s, v, left - {path}, b, r, targets)
  {
    hide MountedAt, Gathered, TargetFor;
    var boots, roots := MountedAt(s.mounts, left, MOUNTPOINT_BOOT), MountedAt(s.mounts, left, MOUNTPOINT_ROOT);
    MountedStep(s.mounts, left, path, MOUNTPOINT_BOOT);
    MountedStep(s.mounts, left, path, MOUNTPOINT_ROOT);
    if |boots| <= 1 && |roots| <= 1 {
      GatheredStep(targets, s, v, path, boots, roots, b, r);
    }
    GrowSet(boots, path);
    GrowSet(roots, path);
  }

  /** With every key visited, two targets and both names set mean exactly one boot and one root key. */
  lemma ProgressEnd(s: Execution, v: seq<View>, b: string, r: string, targets: seq<Target>)
    requires Progress(s, v, {}, b, r, targets)
    ensures |targets| == 2 && b != "" && r != "" <==> OneBootOneRoot(s.mounts)
    ensures |targets| == 2 && b != "" && r != "" ==>
            OnlyKey(s.mounts, MOUNTPOINT_BOOT, b) && OnlyKey(s.mounts, MOUNTPOINT_ROOT, r) &&
            InEitherOrder(targets, TargetFor(s, v, b), TargetFor(s, v, r))
  {
    hide OnlyKey, TargetFor;
    OneOfEach(s.mounts, MountedAt(s.mounts, {}, MOUNTPOINT_BOOT), MountedAt(s.mounts, {}, MOUNTPOINT_ROOT), b, r);
  }

  /** Adding the target of a newly processed boot or root key. */
  lemma GatheredStep(given: seq<Target>, s: Execution, v: seq<View>, path: string,
                     boots: set<string>, roots: set<string>, b: string, r: string)
    requires path in s.mounts && (boots != {} ==> b in s.mounts) && (roots != {} ==> r in s.mounts)
    requires Gathered(given, s, v, boots, roots, b, r)
    ensures boots == {} ==> Gathered(given + [TargetFor(s, v, path)], s, v, {path}, roots, path, r)
    ensures roots == {} ==> Gathered(given + [TargetFor(s, v, path)], s, v, boots, {path}, b, path)
  {
  }

  // ---------- which partitions are to be formatted ----------

  /** An operation that makes a partition, or gives it a filesystem, under this path. */
  predicate Prepares(op: Operation, reply: Reply, path: string) {
    (op.Create? || op.SetFilesystem?) && reply.path == path
  }

  /** An operation after which no partition of before has this path: it is removed, or moves to another path. */
  predicate Retires(op: Operation, reply: Reply, path: string) {
    (op.Remove? && op.partition == path) || (op.SetFilesystem? && op.partition == path && reply.path != path)
  }

  /** The plan made this partition or gave it its filesystem, and did not remove it later. */
  ghost predicate ToFormat(ops: seq<Operation>, replies: seq<Reply>, path: string)
    requires |replies| == |ops|
  {
    exists i | 0 <= i < |ops| :: Prepares(ops[i], replies[i], path) && KeptAfter(ops, replies, path, i + 1)
  }

  ghost predicate KeptAfter(ops: seq<Operation>, replies: seq<Reply>, path: string, from: int)
    requires |replies| == |ops| && 0 <= from
  {
    forall j | from <= j < |ops| :: !Retires(ops[j], replies[j], path)
  }

  lemma StepFormats(s: Execution, diskPath: string, known: set<string>, op: Operation, reply: Reply, path: string)
    requires Sound(s) && Admissible(s, diskPath, op, reply) && ExecStep(s, diskPath, known, op, reply).Ok?
    ensures var next := ExecStep(s, diskPath, known, op, reply).value;
            path in next.formats && next.formats[path] <==>
              Prepares(op, reply, path) || (path in s.formats && s.formats[path] && !Retires(op, reply, path))
  {
    hide ViewOf, GapLen, EndBefore, SectorsForMiB, AddPartition, DeletePartition, SetLength, SetPath, Valid,
         DistinctPaths;
    ValidOpens(s.disk);
  }

  /** After a run exactly the partitions that were to be formatted and are kept, and those the run prepares, are to be
      formatted. */
  lemma {:induction false} RunFormatsExactly(s: Execution, diskPath: string, known: set<string>, ops: seq<Operation>,
                                             replies: seq<Reply>, path: string)
    requires Sound(s) && |replies| == |ops| && RepliesAdmissible(s, diskPath, known, ops, replies)
    requires ExecRun(s, diskPath, known, ops, replies).Ok?
    ensures var run := ExecRun(s, diskPath, known, ops, replies).value;
            path in run.formats && run.formats[path] <==>
              ToFormat(ops, replies, path) || (path in s.formats && s.formats[path] && KeptAfter(ops, replies, path, 0))
    decreases |ops|
  {
    hide ExecStep, Admissible, Valid, DistinctPaths, Prepares, Retires;
    if ops != [] {
      StepFormats(s, diskPath, known, ops[0], replies[0], path);
      StepKeepsSound(s, diskPath, known, ops[0], replies[0]);
      RunFormatsExactly(ExecStep(s, diskPath, known, ops[0], replies[0]).value, diskPath, known, ops[1..], replies[1..],
                        path);
      ToFormatSplit(ops, replies, path);
    }
  }

  lemma FormatOf(s: Execution, v: seq<View>, p: string)
    requires p in s.mounts
    ensures TargetFor(s, v, p).device == p && (TargetFor(s, v, p).format <==> p in s.formats && s.formats[p])
  {
  }

  lemma ToFormatSplit(ops: seq<Operation>, replies: seq<Reply>, path: string)
    requires |replies| == |ops| && ops != []
    ensures ToFormat(ops, replies, path) <==>
            ToFormat(ops[1..], replies[1..], path) ||
            (Prepares(ops[0], replies[0], path) && KeptAfter(ops[1..], replies[1..], path, 0))
    ensures KeptAfter(ops, replies, path, 0) <==>
            !Retires(ops[0], replies[0], path) && KeptAfter(ops[1..], replies[1..], path, 0)
  {
    hide Prepares, Retires;
    var rest, others := ops[1..], replies[1..];
    forall k | 0 <= k <= |rest| ensures KeptAfter(ops, replies, path, k + 1) <==> KeptAfter(rest, others, path, k) {
      forall j | k <= j < |rest| ensures rest[j] == ops[j + 1] && others[j] == replies[j + 1] {
      }
      forall j | k + 1 <= j < |ops| ensures ops[j] == rest[j - 1] && replies[j] == others[j - 1] {
      }
    }
    if i :| 0 <= i < |ops| && Prepares(ops[i], replies[i], path) && KeptAfter(ops, replies, path, i + 1) {
      if i > 0 { assert rest[i - 1] == ops[i] && KeptAfter(rest, others, path, i - 1 + 1); }
    }
    if i :| 0 <= i < |rest| && Prepares(rest[i], others[i], path) && KeptAfter(rest, others, path, i + 1) {
      assert ops[i + 1] == rest[i] && KeptAfter(ops, replies, path, i + 1 + 1);
    }
    if !Retires(ops[0], replies[0], path) && KeptAfter(rest, others, path, 0) {
      forall j | 0 <= j < |ops| ensures !Retires(ops[j], replies[j], path) {
        if j > 0 { assert rest[j - 1] == ops[j] && others[j - 1] == replies[j]; }
      }
    }
  }

  class Executor {
    const diskPath: string
    const known: set<string>
    var disk: Disk
    var mountpointByPartition: map<string, string>
    var filesystemByPartition: map<string, string>
    var formatByPartition: map<string, bool>
    var partitions: seq<View>
    var bootPartition: string
    var rootPartition: string
    var targets: seq<Target>

    ghost function State(): Execution
      reads this
    {
      Execution(disk, mountpointByPartition, filesystemByPartition, formatByPartition)
    }

    ghost predicate Ready()
      reads this
    {
      Sound(State()) && partitions == ViewOf(disk, diskPath)
    }

    constructor (disk: Disk, diskPath: string, known: set<string>)
      requires Valid(disk) && DistinctPaths(disk)
      ensures Ready() && State() == Execution(disk, map[], map[], map[])
      ensures this.diskPath == diskPath && this.known == known && targets == []
    {
      this.disk, this.diskPath, this.known := disk, diskPath, known;
      mountpointByPartition, filesystemByPartition, formatByPartition := map[], map[], map[];
      bootPartition, rootPartition, targets := "", "", [];
      partitions := [];
      new;
      RebuildPartitions();
    }

    method RebuildPartitions()
      requires Sound(State())
      modifies this`partitions
      ensures Ready()
    {
      partitions := BuildPartitionView(disk, diskPath);
    }

    /** The position of an id in the view. */
    method FindPartition(id: string) returns (k: nat)
      ensures k == FindView(partitions, id)
    {
      k := 0;
      assert partitions[0..] == partitions;
      while k < |partitions|
        invariant k <= |partitions|
        invariant FindView(partitions, id) == k + FindView(partitions[k..], id)
      {
        if partitions[k].id == id { return; }
        assert partitions[k..][1..] == partitions[k + 1..];
        k := k + 1;
      }
    }

    method Create(op: Operation, reply: Reply) returns (r: Result<()>)
      requires op.Create? && Ready() && Admissible(State(), diskPath, op, reply)
      modifies this
      ensures targets == old(targets)
      ensures match ExecStep(old(State()), diskPath, known, op, reply)
              case Ok(next) => r == Ok(()) && State() == next && Ready()
              case Err(e) => r == Err(e)
    {
      hide SectorsForMiB, ViewOf, GapLen, EndBefore, Valid, DistinctPaths, Sound, AddPartition;
      ghost var before := State();
      ViewLinks(before, diskPath);
      var region := FindPartition(op.region);
      if region == |partitions| { return Err(UnknownTarget); }
      if !partitions[region].isFree { return Err(WrongKind); }
      var gap := partitions[region].slot;
      var start := EndBefore(disk, gap);
      var available := GapLen(disk, gap);
      var requested := if op.remaining then available else SectorsForMiB(disk.sectorSize, op.sizeMiB);
      if requested < 1 || requested > available { return Err(SizeTooBig); }
      if op.filesystem !in known { return Err(BadFilesystem); }
      disk := AddPartition(disk, gap, Part(reply.path, start, requested, reply.probed));
      mountpointByPartition := mountpointByPartition[reply.path := op.mountpoint];
      filesystemByPartition := filesystemByPartition[reply.path := op.filesystem];
      formatByPartition := formatByPartition[reply.path := true];
      StepKeepsSound(before, diskPath, known, op, reply);
      RebuildPartitions();
      r := Ok(());
    }

    method Resize(op: Operation, ghost reply: Reply) returns (r: Result<()>)
      requires op.Resize? && Ready() && Admissible(State(), diskPath, op, reply)
      modifies this
      ensures targets == old(targets)
      ensures match ExecStep(old(State()), diskPath, known, op, reply)
              case Ok(next) => r == Ok(()) && State() == next && Ready()
              case Err(e) => r == Err(e)
    {
      hide SectorsForMiB, ViewOf, GapLen, Valid, DistinctPaths, Sound, SetLength, FreeAfterPart, FindView, EndBefore,
          Admissible;
      ghost var before := State();
      ViewLinks(before, diskPath);
      var it := FindPartition(op.partition);
      if it == |partitions| { return Err(UnknownTarget); }
      if partitions[it].isFree { return Err(WrongKind); }
      var i := partitions[it].slot;
      var current := disk.parts[i].length;
      var freeAfter := 0;
      if it + 1 < |partitions| && partitions[it + 1].isFree &&
         EndBefore(disk, partitions[it + 1].slot) == disk.parts[i].start + current {
        freeAfter := GapLen(disk, partitions[it + 1].slot);
      }
      assert freeAfter == FreeAfterPart(disk, i) by { FreeAfterInView(before, diskPath, it); }
      var requested := if op.remaining then current + freeAfter else SectorsForMiB(disk.sectorSize, op.sizeMiB);
      if requested < 1 { return Err(SizeTooSmall); }
      if requested > current + freeAfter { return Err(SizeTooBig); }
      disk := SetLength(disk, i, requested);
      StepKeepsSound(before, diskPath, known, op, reply);
      RebuildPartitions();
      r := Ok(());
    }

    method Remove(op: Operation, ghost reply: Reply) returns (r: Result<()>)
      requires op.Remove? && Ready() && Admissible(State(), diskPath, op, reply)
      modifies this
      ensures targets == old(targets)
      ensures match ExecStep(old(State()), diskPath, known, op, reply)
              case Ok(next) => r == Ok(()) && State() == next && Ready()
              case Err(e) => r == Err(e)
    {
      hide ViewOf, Valid, DistinctPaths, Sound, DeletePartition;
      ghost var before := State();
      ViewLinks(before, diskPath);
      var partition := FindPartition(op.partition);
      if partition == |partitions| { return Err(UnknownTarget); }
      if partitions[partition].isFree { return Err(WrongKind); }
      var id := partitions[partition].id;
      mountpointByPartition := mountpointByPartition - {id};
      filesystemByPartition := filesystemByPartition - {id};
      formatByPartition := formatByPartition - {id};
      disk := DeletePartition(disk, partitions[partition].slot);
      StepKeepsSound(before, diskPath, known, op, reply);
      RebuildPartitions();
      r := Ok(());
    }

    method SetMountpoint(op: Operation, ghost reply: Reply) returns (r: Result<()>)
      requires op.SetMountpoint? && Ready() && Admissible(State(), diskPath, op, reply)
      modifies this
      ensures targets == old(targets)
      ensures match ExecStep(old(State()), diskPath, known, op, reply)
              case Ok(next) => r == Ok(()) && State() == next && Ready()
              case Err(e) => r == Err(e)
    {
      hide ViewOf, Valid, DistinctPaths, Sound;
      ghost var before := State();
      ViewLinks(before, diskPath);
      var partition := FindPartition(op.partition);
      if partition == |partitions| { return Err(UnknownTarget); }
      if partitions[partition].isFree { return Err(WrongKind); }
      mountpointByPartition := mountpointByPartition[partitions[partition].id := op.mountpoint];
      StepKeepsSound(before, diskPath, known, op, reply);
      r := Ok(());
    }

    method SetFilesystem(op: Operation, reply: Reply) returns (r: Result<()>)
      requires op.SetFilesystem? && Ready() && Admissible(State(), diskPath, op, reply)
      modifies this
      ensures targets == old(targets)
      ensures match ExecStep(old(State()), diskPath, known, op, reply)
              case Ok(next) => r == Ok(()) && State() == next && Ready()
              case Err(e) => r == Err(e)
    {
      hide ViewOf, Valid, DistinctPaths, Sound, SetPath, UpdateMapKey, FindView, Admissible;
      ghost var before := State();
      ViewLinks(before, diskPath);
      var partition := FindPartition(op.partition);
      if partition == |partitions| { return Err(UnknownTarget); }
      if partitions[partition].isFree { return Err(WrongKind); }
      var oldPath := partitions[partition].id;
      if op.filesystem !in known { return Err(BadFilesystem); }
      disk := SetPath(disk, partitions[partition].slot, reply.path);
      var newPath := reply.path;
      mountpointByPartition := UpdateMapKey(mountpointByPartition, oldPath, newPath);
      filesystemByPartition := UpdateMapKey(filesystemByPartition, oldPath, newPath);
      formatByPartition := UpdateMapKey(formatByPartition, oldPath, newPath);
      filesystemByPartition := filesystemByPartition[newPath := op.filesystem];
      formatByPartition := formatByPartition[newPath := true];
      StepKeepsSound(before, diskPath, known, op, reply);
      RebuildPartitions();
      r := Ok(());
    }

    method Apply(op: Operation, reply: Reply) returns (r: Result<()>)
      requires Ready() && Admissible(State(), diskPath, op, reply)
      modifies this
      ensures targets == old(targets)
      ensures match ExecStep(old(State()), diskPath, known, op, reply)
              case Ok(next) => r == Ok(()) && State() == next && Ready()
              case Err(e) => r == Err(e)
    {
      hide ExecStep, Ready, Admissible;
      match op {
        case Create(_, _, _, _, _) => r := Create(op, reply);
        case Resize(_, _, _) => r := Resize(op, reply);
        case Remove(_) => r := Remove(op, reply);
        case SetMountpoint(_, _) => r := SetMountpoint(op, reply);
        case SetFilesystem(_, _) => r := SetFilesystem(op, reply);
      }
    }

    method RunOperations(ops: seq<Operation>, replies: seq<Reply>) returns (r: Result<()>)
      requires Ready() && |replies| == |ops| && RepliesAdmissible(State(), diskPath, known, ops, replies)
      modifies this
      ensures targets == old(targets)
      ensures match ExecRun(old(State()), diskPath, known, ops, replies)
              case Ok(last) => r == Ok(()) && State() == last && Ready()
              case Err(e) => r == Err(e)
    {
      hide ExecStep, Sound, Admissible, ViewOf;
      ghost var run := ExecRun(State(), diskPath, known, ops, replies);
      var i := 0;
      assert ops[0..] == ops && replies[0..] == replies;
      while i < |ops|
        invariant 0 <= i <= |ops| && Ready() && targets == old(targets)
        invariant RepliesAdmissible(State(), diskPath, known, ops[i..], replies[i..])
        invariant run == ExecRun(State(), diskPath, known, ops[i..], replies[i..])
      {
        assert ops[i..][1..] == ops[i + 1..] && replies[i..][1..] == replies[i + 1..];
        r := Apply(ops[i], replies[i]);
        if r.Err? { return; }
        i := i + 1;
      }
      r := Ok(());
    }

    /** The target of one mounted partition; it is always found in the view. */
    method TargetOf(path: string) returns (r: Result<Target>)
      requires Ready() && path in mountpointByPartition
      ensures path != "" && r == Ok(TargetFor(State(), partitions, path))
      ensures r.value.device == path && r.value.mountpoint == mountpointByPartition[path]
    {
      hide ViewOf;
      var it := FindPartition(path);
      MountedIsLive(State(), diskPath, path);
      if it == |partitions| { return Err(PartitionGone); }
      var filesystem := if path in filesystemByPartition then filesystemByPartition[path]
                        else partitions[it].filesystem;
      var format := path in formatByPartition && formatByPartition[path];
      r := Ok(Target(path, mountpointByPartition[path], filesystem, format));
    }

    /** Turning the mountpoint map into install targets: it succeeds exactly when one partition has the boot
        and one the root mountpoint, and it never finds a mounted partition missing. */
    method CollectTargets() returns (r: Result<()>)
      requires Ready() && targets == []
      modifies this`bootPartition, this`rootPartition, this`targets
      ensures r != Err(PartitionGone)
      ensures r.Ok? <==> OneBootOneRoot(mountpointByPartition)
      ensures r.Ok? ==>
        OnlyKey(mountpointByPartition, MOUNTPOINT_BOOT, bootPartition) &&
        OnlyKey(mountpointByPartition, MOUNTPOINT_ROOT, rootPartition) &&
        InEitherOrder(targets, TargetFor(State(), partitions, bootPartition),
                               TargetFor(State(), partitions, rootPartition))
    {
      hide ViewOf, Sound, Progress, TargetFor;
      ghost var s := State();
      var left := mountpointByPartition.Keys;
      bootPartition, rootPartition := "", "";
      ProgressStart(s, partitions);
      while left != {}
        invariant left <= mountpointByPartition.Keys && State() == s && Ready()
        invariant Progress(s, partitions, left, bootPartition, rootPartition, targets)
        decreases left
      {
        var path :| path in left;
        ProgressStep(s, partitions, left, path, bootPartition, rootPartition, targets);
        left := left - {path};
        var mountpoint := mountpointByPartition[path];
        if mountpoint != MOUNTPOINT_BOOT && mountpoint != MOUNTPOINT_ROOT { continue; }
        var target := TargetOf(path);
        if target.Err? { return Err(PartitionGone); }
        AddTarget(target.value);
      }
      ProgressEnd(s, partitions, bootPartition, rootPartition, targets);
      if |targets| != 2 || bootPartition == "" || rootPartition == "" { return Err(NotOneBoot); }
      r := Ok(());
    }

    /** Custom execution from the opened table to the install targets. */
    method ExecuteCustom(hasMounts: bool, ops: seq<Operation>, replies: seq<Reply>) returns (r: Result<()>)
      requires Ready() && targets == [] && |replies| == |ops|
      requires RepliesAdmissible(State(), diskPath, known, ops, replies)
      modifies this
      ensures var run := ExecRun(old(State()), diskPath, known, ops, replies);
              (r.Ok? <==> !hasMounts && run.Ok? && OneBootOneRoot(run.value.mounts)) &&
              (r.Ok? ==> OnlyKey(run.value.mounts, MOUNTPOINT_BOOT, bootPartition) &&
                         OnlyKey(run.value.mounts, MOUNTPOINT_ROOT, rootPartition) &&
                         Sound(run.value) && State() == run.value && InEitherOrder(targets,
                           TargetFor(run.value, ViewOf(run.value.disk, diskPath), bootPartition),
                           TargetFor(run.value, ViewOf(run.value.disk, diskPath), rootPartition)))
      ensures r.Ok? && old(formatByPartition) == map[] ==>
        |targets| == 2 && forall t <- targets :: t.format <==> ToFormat(ops, replies, t.device)
    {
      hide ExecStep, Admissible, Valid, DistinctPaths, TargetFor, ViewOf, OneBootOneRoot, ToFormat;
      ghost var before := State();
      if hasMounts { return Err(MountsNotAllowed); }
      r := RunOperations(ops, replies);
      if r.Err? { return; }
      RebuildPartitions();
      r := CollectTargets();
      if r.Ok? {
        FormatOf(State(), partitions, bootPartition);
        FormatOf(State(), partitions, rootPartition);
        RunFormatsExactly(before, diskPath, known, ops, replies, bootPartition);
        RunFormatsExactly(before, diskPath, known, ops, replies, rootPartition);
      }
    }

    method AddTarget(target: Target)
      modifies this`bootPartition, this`rootPartition, this`targets
      ensures targets == old(targets) + [target]
      ensures bootPartition == if target.mountpoint == MOUNTPOINT_BOOT then target.device else old(bootPartition)
      ensures rootPartition == if target.mountpoint == MOUNTPOINT_ROOT then target.device else old(rootPartition)
    {
      if target.mountpoint == MOUNTPOINT_BOOT {
        bootPartition := target.device;
      } else if target.mountpoint == MOUNTPOINT_ROOT {
        rootPartition := target.device;
      }
      targets := targets + [target];
    }
  }

  // ---------- supporting facts ----------

  /** What the entries of the view refer to. */
  lemma ViewLinks(s: Execution, diskPath: string)
    requires Sound(s)
    ensures GapsOpen(s.disk) && 0 < s.disk.sectorSize <= MIB
    ensures forall e <- ViewOf(s.disk, diskPath) ::
      if e.isFree then 0 <= e.slot <= |s.disk.parts|
      else 0 <= e.slot < |s.disk.parts| && e.id == s.disk.parts[e.slot].path
  {
  }

  lemma MountedIsLive(s: Execution, diskPath: string, path: string)
    requires Sound(s) && path in s.mounts
    ensures FindView(ViewOf(s.disk, diskPath), path) < |ViewOf(s.disk, diskPath)| && path != ""
  {
    var i :| 0 <= i < |s.disk.parts| && s.disk.parts[i].path == path;
    PathFound(s.disk, diskPath, i);
    ViewAt(s.disk, diskPath, i);
  }

  /** The entry after a partition's shows exactly the listed free space directly behind it. */
  lemma FreeAfterInView(s: Execution, diskPath: string, k: nat)
    requires Sound(s) && k < |ViewOf(s.disk, diskPath)| && !ViewOf(s.disk, diskPath)[k].isFree
    ensures var v := ViewOf(s.disk, diskPath);
            var i := v[k].slot;
            var next := k + 1 < |v| && v[k + 1].isFree &&
                        EndBefore(s.disk, v[k + 1].slot) == s.disk.parts[i].start + s.disk.parts[i].length;
            FreeAfterPart(s.disk, i) == if next then GapLen(s.disk, v[k + 1].slot) else 0
  {
    hide Listed, ViewOf, FreeView, PartView, Valid, DistinctPaths;
    ViewLinks(s, diskPath);
    var d, v := s.disk, ViewOf(s.disk, diskPath);
    var i := v[k].slot;
    PartAtPosition(d, diskPath, k);
    ViewAt(d, diskPath, i + 1);
    FreeViewSlot(d, diskPath, i + 1);
    if !Listed(d, i + 1) && i + 1 < |d.parts| {
      assert PartPosition(d, i + 1) == k + 1;
      PartViewKind(d, i + 1);
    }
  }

  lemma FreeViewSlot(d: Disk, diskPath: string, i: int)
    requires GapsOpen(d) && 0 <= i <= |d.parts|
    ensures FreeView(d, diskPath, i).isFree && FreeView(d, diskPath, i).slot == i
    ensures 0 < i ==> EndBefore(d, i) == d.parts[i - 1].start + d.parts[i - 1].length
  {
  }

  lemma PartViewKind(d: Disk, i: int)
    requires 0 <= i < |d.parts|
    ensures !PartView(d, i).isFree
  {
  }

  lemma GrowSet<T>(s: set<T>, x: T)
    requires x !in s
    ensures |s + {x}| == |s| + 1
    ensures |s + {x}| == 1 ==> s == {} && s + {x} == {x}
  {
  }

  lemma Singleton<T>(s: set<T>, x: T)
    requires x in s && |s| == 1
    ensures s == {x}
  {
    assert |s - {x}| == 0;
  }

  lemma SizeOfTwo<T>(a: set<T>, b: set<T>)
    requires a != {} && b != {} && |a| + |b| == 2
    ensures |a| == 1 && |b| == 1
  {
    assert |a| != 0 && |b| != 0;
  }

  /** Two targets with one boot and one root exist exactly when each mountpoint is used once. */
  lemma OneOfEach(mounts: map<string, string>, boots: set<string>, roots: set<string>, b: string, r: string)
    requires boots == MountedAt(mounts, {}, MOUNTPOINT_BOOT)
    requires roots == MountedAt(mounts, {}, MOUNTPOINT_ROOT)
    requires boots != {} ==> b in boots
    requires roots != {} ==> r in roots
    ensures boots != {} && roots != {} && |boots| + |roots| == 2 <==>
            OneBootOneRoot(mounts)
    ensures boots != {} && roots != {} && |boots| + |roots| == 2 ==>
            |boots| == 1 && |roots| == 1 && OnlyKey(mounts, MOUNTPOINT_BOOT, b) && OnlyKey(mounts, MOUNTPOINT_ROOT, r)
  {
    if boots != {} && roots != {} && |boots| + |roots| == 2 {
      SizeOfTwo(boots, roots);
      Singleton(boots, b);
      Singleton(roots, r);
      forall q <- mounts ensures (q != b ==> mounts[q] != MOUNTPOINT_BOOT) &&
          (q != r ==> mounts[q] != MOUNTPOINT_ROOT) {
        assert q in boots <==> mounts[q] == MOUNTPOINT_BOOT;
        assert q in roots <==> mounts[q] == MOUNTPOINT_ROOT;
      }
      assert OnlyKey(mounts, MOUNTPOINT_BOOT, b) && OnlyKey(mounts, MOUNTPOINT_ROOT, r);
    }
    if x, y :| OnlyKey(mounts, MOUNTPOINT_BOOT, x) && OnlyKey(mounts, MOUNTPOINT_ROOT, y) {
      assert boots == {x} && roots == {y};
    }
  }

  // ---------- the consumers of the targets ----------

  /** `MountStep::FindTarget`: it succeeds exactly when one target has the mountpoint and a device. */
  method FindTarget(targets: seq<Target>, mountpoint: string) returns (r: Result<Target>)
    ensures r.Ok? <==> exists i | 0 <= i < |targets| :: targets[i].device != "" && IsOnlyTarget(targets, mountpoint, i)
    ensures r.Ok? ==> r.value in targets && r.value.mountpoint == mountpoint
  {
    var found := -1;
    var i := 0;
    while i < |targets|
      invariant 0 <= i <= |targets| && -1 <= found < i
      invariant if found < 0 then forall j | 0 <= j < i :: targets[j].mountpoint != mountpoint
                else targets[found].mountpoint == mountpoint &&
                     forall j | 0 <= j < i && j != found :: targets[j].mountpoint != mountpoint
    {
      if targets[i].mountpoint == mountpoint {
        if found >= 0 { return Err(DuplicateTarget); }
        found := i;
      }
      i := i + 1;
    }
    if found < 0 { return Err(UnknownTarget); }
    assert IsOnlyTarget(targets, mountpoint, found);
    if targets[found].device == "" { return Err(MissingTarget); }
    r := Ok(targets[found]);
  }

  /** The targets of a successful custom execution satisfy `FindTarget` for both mountpoints. */
  lemma CollectedTargetsFound(s: Execution, v: seq<View>, targets: seq<Target>, b: string, r: string)
    requires Sound(s) && OnlyKey(s.mounts, MOUNTPOINT_BOOT, b) && OnlyKey(s.mounts, MOUNTPOINT_ROOT, r)
    requires InEitherOrder(targets, TargetFor(s, v, b), TargetFor(s, v, r))
    ensures exists i | 0 <= i < |targets| :: targets[i].device == b != "" && IsOnlyTarget(targets, MOUNTPOINT_BOOT, i)
    ensures exists i | 0 <= i < |targets| :: targets[i].device == r != "" && IsOnlyTarget(targets, MOUNTPOINT_ROOT, i)
  {
    hide Valid;
    assert b in Paths(s.disk) && r in Paths(s.disk);
    var x, y := TargetFor(s, v, b), TargetFor(s, v, r);
    var at := if targets == [x, y] then 0 else 1;
    assert targets[at] == x && IsOnlyTarget(targets, MOUNTPOINT_BOOT, at);
    assert targets[1 - at] == y && IsOnlyTarget(targets, MOUNTPOINT_ROOT, 1 - at);
  }

  ghost predicate IsOnlyTarget(targets: seq<Target>, mountpoint: string, i: int) {
    0 <= i < |targets| && targets[i].mountpoint == mountpoint &&
    forall j | 0 <= j < |targets| && j != i :: targets[j].mountpoint != mountpoint
  }
}

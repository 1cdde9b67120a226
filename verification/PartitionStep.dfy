/** Custom-mode execution: the planner's operations replayed on the partition table in sectors, with the
    mountpoint, filesystem and format choices kept in maps from partition path (`ExecuteCustom`). */
module PartitionStep {
  import opened StorageTypes
  import opened SectorArithmetic
  import opened PartitionTable

  /** The state an operation runs on. */
  datatype Execution = Execution(
    disk: Disk,
    mounts: map<string, string>,
    systems: map<string, string>,
    formats: map<string, bool>)

  /** What libparted answers during an operation: the path of the partition it created or relabelled, and
      the filesystem a probe finds on a new partition. */
  datatype Reply = Reply(path: string, probed: string)

  // ---------- edits of the partition table ----------

  function AddPartition(d: Disk, gap: int, part: Part): Disk
    requires 0 <= gap <= |d.parts|
  {
    d.(parts := d.parts[..gap] + [part] + d.parts[gap..])
  }

  function DeletePartition(d: Disk, i: int): Disk
    requires 0 <= i < |d.parts|
  {
    d.(parts := d.parts[..i] + d.parts[i + 1..])
  }

  function SetLength(d: Disk, i: int, length: int): Disk
    requires 0 <= i < |d.parts|
  {
    d.(parts := d.parts[i := d.parts[i].(length := length)])
  }

  function SetPath(d: Disk, i: int, path: string): Disk
    requires 0 <= i < |d.parts|
  {
    d.(parts := d.parts[i := d.parts[i].(path := path)])
  }

  /** `UpdateMapKey` and `UpdateFormatKey`: an entry follows its partition to a new path. */
  function UpdateMapKey<T>(values: map<string, T>, oldPath: string, newPath: string): (r: map<string, T>)
    ensures oldPath != newPath && oldPath in values ==>
      r.Keys == values.Keys - {oldPath} + {newPath} && r[newPath] == values[oldPath] &&
      forall p <- values :: p != oldPath && p != newPath ==> r[p] == values[p]
    ensures oldPath == newPath || oldPath !in values ==> r == values
  {
    if oldPath == newPath || oldPath !in values then values
    else (values - {oldPath})[newPath := values[oldPath]]
  }

  // ---------- one operation ----------

  /** Free sectors directly behind partition i as the view shows them: sub-MiB gaps are not listed. */
  ghost function FreeAfterPart(d: Disk, i: int): int
    requires GapsOpen(d) && 0 <= i < |d.parts|
  {
    if Listed(d, i + 1) then GapLen(d, i + 1) else 0
  }

  ghost function CreateOn(s: Execution, v: seq<View>, known: set<string>, op: Operation,
                          reply: Reply): Result<Execution>
    requires op.Create? && 0 < s.disk.sectorSize <= MIB
    requires forall e <- v :: e.isFree ==> 0 <= e.slot <= |s.disk.parts|
  {
    var k := FindView(v, op.region);
    if k == |v| then Err(UnknownTarget)
    else if !v[k].isFree then Err(WrongKind)
    else
      var gap := v[k].slot;
      var available := GapLen(s.disk, gap);
      var requested := if op.remaining then available else SectorsForMiB(s.disk.sectorSize, op.sizeMiB);
      if requested < 1 || requested > available then Err(SizeTooBig)
      else if op.filesystem !in known then Err(BadFilesystem)
      else
        var part := Part(reply.path, EndBefore(s.disk, gap), requested, reply.probed);
        Ok(Execution(AddPartition(s.disk, gap, part),
                     s.mounts[reply.path := op.mountpoint], s.systems[reply.path := op.filesystem],
                     s.formats[reply.path := true]))
  }

  ghost function ResizeOn(s: Execution, v: seq<View>, op: Operation): Result<Execution>
    requires op.Resize? && 0 < s.disk.sectorSize <= MIB && GapsOpen(s.disk)
    requires forall e <- v :: !e.isFree ==> 0 <= e.slot < |s.disk.parts|
  {
    var k := FindView(v, op.partition);
    if k == |v| then Err(UnknownTarget)
    else if v[k].isFree then Err(WrongKind)
    else
      var i := v[k].slot;
      var room := s.disk.parts[i].length + FreeAfterPart(s.disk, i);
      var requested := if op.remaining then room else SectorsForMiB(s.disk.sectorSize, op.sizeMiB);
      if requested < 1 then Err(SizeTooSmall)
      else if requested > room then Err(SizeTooBig)
      else Ok(s.(disk := SetLength(s.disk, i, requested)))
  }

  ghost function EditOn(s: Execution, v: seq<View>, known: set<string>, op: Operation, reply: Reply): Result<Execution>
    requires op.Remove? || op.SetMountpoint? || op.SetFilesystem?
    requires forall e <- v :: !e.isFree ==> 0 <= e.slot < |s.disk.parts|
  {
    var k := FindView(v, op.partition);
    if k == |v| then Err(UnknownTarget)
    else if v[k].isFree then Err(WrongKind)
    else
      var i, path := v[k].slot, v[k].id;
      if op.Remove? then
        Ok(Execution(DeletePartition(s.disk, i), s.mounts - {path}, s.systems - {path}, s.formats - {path}))
      else if op.SetMountpoint? then Ok(s.(mounts := s.mounts[path := op.mountpoint]))
      else if op.filesystem !in known then Err(BadFilesystem)
      else
        Ok(Execution(SetPath(s.disk, i, reply.path),
                     UpdateMapKey(s.mounts, path, reply.path),
                     UpdateMapKey(s.systems, path, reply.path)[reply.path := op.filesystem],
                     UpdateMapKey(s.formats, path, reply.path)[reply.path := true]))
  }

  /** One operation of custom execution; `known` are the filesystem names libparted has a type for. */
  ghost function ExecStep(s: Execution, diskPath: string, known: set<string>, op: Operation, reply: Reply)
    : Result<Execution>
    requires Valid(s.disk)
  {
    var v := ViewOf(s.disk, diskPath);
    match op
    case Create(_, _, _, _, _) => CreateOn(s, v, known, op, reply)
    case Resize(_, _, _) => ResizeOn(s, v, op)
    case _ => EditOn(s, v, known, op, reply)
  }

  // ---------- what every operation keeps ----------

  /** Map keys are live partitions, each has its own path, and a chosen filesystem means formatting. */
  ghost predicate Sound(s: Execution) {
    Valid(s.disk) && DistinctPaths(s.disk) &&
    s.mounts.Keys <= Paths(s.disk) && s.systems.Keys <= Paths(s.disk) && s.formats.Keys == s.systems.Keys &&
    forall p <- s.formats :: s.formats[p]
  }

  /** libparted gives a new partition a path no other partition has, and keeps or freshly picks the path of a
      relabelled one. */
  ghost predicate Admissible(s: Execution, diskPath: string, op: Operation, reply: Reply)
    requires Valid(s.disk)
  {
    IsPath(reply.path) &&
    (op.Create? ==> reply.path !in Paths(s.disk)) &&
    (op.SetFilesystem? ==> reply.path == op.partition || reply.path !in Paths(s.disk))
  }

  lemma AddElements(d: Disk, gap: int, part: Part)
    requires 0 <= gap <= |d.parts|
    ensures var d' := AddPartition(d, gap, part);
            |d'.parts| == |d.parts| + 1 && d' == d.(parts := d'.parts) && d'.parts[gap] == part &&
            (forall i | 0 <= i < gap :: d'.parts[i] == d.parts[i]) &&
            (forall i | gap < i <= |d.parts| :: d'.parts[i] == d.parts[i - 1])
  {
  }

  lemma AddGeometry(d: Disk, gap: int, part: Part)
    requires Valid(d) && 0 <= gap <= |d.parts|
    requires part.start == EndBefore(d, gap) && 1 <= part.length <= GapLen(d, gap)
    ensures var d' := AddPartition(d, gap, part);
            |d'.parts| == |d.parts| + 1 && Valid(d') &&
            d'.parts[gap] == part && GapLen(d', gap) == 0 && GapLen(d', gap + 1) == GapLen(d, gap) - part.length &&
            (forall i | 0 <= i < gap :: d'.parts[i] == d.parts[i] && GapLen(d', i) == GapLen(d, i)) &&
            (forall i | gap < i <= |d.parts| :: d'.parts[i] == d.parts[i - 1] && GapLen(d', i + 1) == GapLen(d, i))
  {
    hide AddPartition;
    var d' := AddPartition(d, gap, part);
    AddElements(d, gap, part);
    forall i | 0 <= i <= |d'.parts| ensures GapLen(d', i) >= 0 {
      if i > gap + 1 { assert GapLen(d', i) == GapLen(d, i - 1); }
      else if i < gap { assert GapLen(d', i) == GapLen(d, i); }
    }
  }

  lemma AddPaths(d: Disk, gap: int, part: Part)
    requires DistinctPaths(d) && 0 <= gap <= |d.parts| && IsPath(part.path) && part.path !in Paths(d)
    ensures DistinctPaths(AddPartition(d, gap, part))
    ensures Paths(AddPartition(d, gap, part)) == Paths(d) + {part.path}
  {
    hide AddPartition;
    var d' := AddPartition(d, gap, part);
    AddElements(d, gap, part);
    assert part.path in Paths(d') by { assert d'.parts[gap].path in Paths(d'); }
    forall i | 0 <= i < |d.parts| ensures d.parts[i].path in Paths(d') && d.parts[i].path != part.path {
      assert d'.parts[if i < gap then i else i + 1] == d.parts[i];
      assert d.parts[i].path in Paths(d);
    }
    forall i, j | 0 <= i < j < |d'.parts| ensures d'.parts[i].path != d'.parts[j].path {
      if i != gap && j != gap {
        assert d'.parts[i] == d.parts[if i < gap then i else i - 1];
        assert d'.parts[j] == d.parts[if j < gap then j else j - 1];
      } else if i == gap {
        assert d'.parts[j] == d.parts[j - 1];
      }
    }
  }

  lemma DeleteElements(d: Disk, k: int)
    requires 0 <= k < |d.parts|
    ensures var d' := DeletePartition(d, k);
            |d'.parts| == |d.parts| - 1 && d' == d.(parts := d'.parts) &&
            (forall i | 0 <= i < k :: d'.parts[i] == d.parts[i]) &&
            (forall i | k <= i < |d'.parts| :: d'.parts[i] == d.parts[i + 1])
  {
  }

  lemma DeleteGeometry(d: Disk, k: int)
    requires Valid(d) && 0 <= k < |d.parts|
    ensures var d' := DeletePartition(d, k);
            |d'.parts| == |d.parts| - 1 && Valid(d') &&
            GapLen(d', k) == GapLen(d, k) + d.parts[k].length + GapLen(d, k + 1) &&
            (forall i | 0 <= i < k :: d'.parts[i] == d.parts[i] && GapLen(d', i) == GapLen(d, i)) &&
            (forall i | k <= i < |d'.parts| :: d'.parts[i] == d.parts[i + 1] && GapLen(d', i + 1) == GapLen(d, i + 2))
  {
    hide DeletePartition;
    var d' := DeletePartition(d, k);
    DeleteElements(d, k);
    assert GapLen(d', k) == GapLen(d, k) + d.parts[k].length + GapLen(d, k + 1);
    forall i | 0 <= i <= |d'.parts| ensures GapLen(d', i) >= 0 {
      if i > k { assert GapLen(d', i) == GapLen(d, i + 1); }
      else if i < k { assert GapLen(d', i) == GapLen(d, i); }
    }
  }

  lemma DeletePaths(d: Disk, k: int)
    requires DistinctPaths(d) && 0 <= k < |d.parts|
    ensures DistinctPaths(DeletePartition(d, k))
    ensures Paths(DeletePartition(d, k)) == Paths(d) - {d.parts[k].path}
  {
    hide DeletePartition;
    var d' := DeletePartition(d, k);
    DeleteElements(d, k);
    forall i | 0 <= i < |d.parts| && i != k ensures d.parts[i].path in Paths(d') {
      assert d.parts[i] == d'.parts[if i < k then i else i - 1];
    }
    assert forall i | 0 <= i < |d'.parts| :: d'.parts[i] == d.parts[if i < k then i else i + 1];
  }

  lemma LengthKeepsTable(d: Disk, k: int, length: int)
    requires Valid(d) && DistinctPaths(d) && 0 <= k < |d.parts|
    requires 1 <= length <= d.parts[k].length + GapLen(d, k + 1)
    ensures var d' := SetLength(d, k, length);
            Valid(d') && DistinctPaths(d') && Paths(d') == Paths(d) &&
            GapLen(d', k + 1) == d.parts[k].length + GapLen(d, k + 1) - length &&
            (forall i | 0 <= i <= |d.parts| && i != k + 1 :: GapLen(d', i) == GapLen(d, i))
  {
    var d' := SetLength(d, k, length);
    forall i | 0 <= i <= |d.parts| ensures GapLen(d', i) ==
      if i == k + 1 then d.parts[k].length + GapLen(d, k + 1) - length else GapLen(d, i) {
    }
    forall i | 0 <= i < |d.parts| ensures d'.parts[i].path == d.parts[i].path {
    }
  }

  lemma PathKeepsTable(d: Disk, k: int, path: string)
    requires Valid(d) && DistinctPaths(d) && 0 <= k < |d.parts| && IsPath(path)
    requires path == d.parts[k].path || path !in Paths(d)
    ensures var d' := SetPath(d, k, path);
            Valid(d') && DistinctPaths(d') && Paths(d') == Paths(d) - {d.parts[k].path} + {path} &&
            (forall i | 0 <= i <= |d.parts| :: GapLen(d', i) == GapLen(d, i))
  {
    var d' := SetPath(d, k, path);
    forall i | 0 <= i <= |d.parts| ensures GapLen(d', i) == GapLen(d, i) {
    }
    assert d'.parts[k].path == path;
    forall i | 0 <= i < |d.parts| && i != k ensures d.parts[i].path in Paths(d') {
      assert d'.parts[i] == d.parts[i];
    }
  }

  /** Every operation keeps the table ordered and disjoint and the map keys alive, whatever it is asked to do
      and whatever fresh paths libparted picks. */
  lemma StepKeepsSound(s: Execution, diskPath: string, known: set<string>, op: Operation, reply: Reply)
    requires Sound(s) && Admissible(s, diskPath, op, reply) && ExecStep(s, diskPath, known, op, reply).Ok?
    ensures Sound(ExecStep(s, diskPath, known, op, reply).value)
  {
    match op {
      case Create(_, _, _, _, _) => CreateKeepsSound(s, diskPath, known, op, reply);
      case Resize(_, _, _) => ResizeKeepsSound(s, diskPath, known, op, reply);
      case _ => EditKeepsSound(s, diskPath, known, op, reply);
    }
  }

  lemma CreateKeepsSound(s: Execution, diskPath: string, known: set<string>, op: Operation, reply: Reply)
    requires op.Create? && Sound(s) && Admissible(s, diskPath, op, reply) && ExecStep(s, diskPath, known, op, reply).Ok?
    ensures Sound(ExecStep(s, diskPath, known, op, reply).value)
  {
    hide SectorsForMiB, ViewOf, GapLen, EndBefore, Valid, DistinctPaths, Paths, AddPartition;
    ValidOpens(s.disk);
    var v := ViewOf(s.disk, diskPath);
    var i := v[FindView(v, op.region)].slot;
    var requested := if op.remaining then GapLen(s.disk, i) else SectorsForMiB(s.disk.sectorSize, op.sizeMiB);
    var part := Part(reply.path, EndBefore(s.disk, i), requested, reply.probed);
    AddGeometry(s.disk, i, part);
    AddPaths(s.disk, i, part);
  }

  lemma ResizeKeepsSound(s: Execution, diskPath: string, known: set<string>, op: Operation, reply: Reply)
    requires op.Resize? && Sound(s) && ExecStep(s, diskPath, known, op, reply).Ok?
    ensures Sound(ExecStep(s, diskPath, known, op, reply).value)
  {
    hide SectorsForMiB, Listed, ViewOf, GapLen, Valid, DistinctPaths, SetLength;
    ValidOpens(s.disk);
    var v := ViewOf(s.disk, diskPath);
    var i := v[FindView(v, op.partition)].slot;
    var room := s.disk.parts[i].length + FreeAfterPart(s.disk, i);
    LengthKeepsTable(s.disk, i, if op.remaining then room else SectorsForMiB(s.disk.sectorSize, op.sizeMiB));
  }

  lemma EditKeepsSound(s: Execution, diskPath: string, known: set<string>, op: Operation, reply: Reply)
    requires op.Remove? || op.SetMountpoint? || op.SetFilesystem?
    requires Sound(s) && Admissible(s, diskPath, op, reply) && ExecStep(s, diskPath, known, op, reply).Ok?
    ensures Sound(ExecStep(s, diskPath, known, op, reply).value)
  {
    hide ViewOf, Valid, DistinctPaths, Paths, DeletePartition, SetPath;
    ValidOpens(s.disk);
    var v := ViewOf(s.disk, diskPath);
    var i := v[FindView(v, op.partition)].slot;
    PathsHas(s.disk, i);
    match op {
      case Remove(_) =>
        DeleteGeometry(s.disk, i);
        DeletePaths(s.disk, i);
      case SetMountpoint(_, _) =>
        assert Sound(ExecStep(s, diskPath, known, op, reply).value);
      case SetFilesystem(_, _) =>
        PathKeepsTable(s.disk, i, reply.path);
    }
  }

  lemma PathsHas(d: Disk, i: int)
    requires 0 <= i < |d.parts|
    ensures d.parts[i].path in Paths(d)
  {
  }

  lemma ValidOpens(d: Disk)
    requires Valid(d)
    ensures GapsOpen(d) && 0 < d.sectorSize <= MIB
    ensures forall i | 0 <= i < |d.parts| :: d.parts[i].length >= 1
  {
  }
}

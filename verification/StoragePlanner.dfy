/** The custom-mode planner: it edits a vector of regions in whole MiB, operation by operation, and
    checks the outcome (`ValidateInstallStorageDataCustom`). */
module StoragePlanner {
  import opened StorageTypes

  // ---------- free-space merging ----------

  ghost predicate NoAdjacentFree(rs: seq<Region>) {
    forall i, j | 0 <= i < j < |rs| && j == i + 1 :: !(rs[i].IsFree() && rs[j].IsFree())
  }

  /** What the left-to-right merge of neighbouring free regions leaves. */
  function Coalesced(rs: seq<Region>): seq<Region>
    decreases |rs|
  {
    if |rs| < 2 then rs
    else if rs[0].IsFree() && rs[1].IsFree() then
      Coalesced([rs[0].(sizeMiB := ToUnsigned(rs[0].sizeMiB + rs[1].sizeMiB))] + rs[2..])
    else
      [rs[0]] + Coalesced(rs[1..])
  }

  /** The vector while the merge cursor stands at i: everything before i - 1 is final. */
  function Pending(p: seq<Region>, i: nat): seq<Region>
    requires 0 < i <= |p|
  {
    p[..i - 1] + Coalesced(p[i - 1..])
  }

  lemma PendingMerge(p: seq<Region>, i: nat)
    requires 0 < i < |p| && p[i - 1].IsFree() && p[i].IsFree()
    ensures var merged := p[i - 1].(sizeMiB := ToUnsigned(p[i - 1].sizeMiB + p[i].sizeMiB));
            Pending(p[..i - 1] + [merged] + p[i + 1..], i) == Pending(p, i)
  {
    var merged := p[i - 1].(sizeMiB := ToUnsigned(p[i - 1].sizeMiB + p[i].sizeMiB));
    var q := p[..i - 1] + [merged] + p[i + 1..];
    assert q[i - 1..] == [merged] + p[i - 1..][2..];
    assert q[..i - 1] == p[..i - 1];
  }

  lemma PendingAdvance(p: seq<Region>, i: nat)
    requires 0 < i < |p| && !(p[i - 1].IsFree() && p[i].IsFree())
    ensures Pending(p, i + 1) == Pending(p, i)
  {
    assert p[i..] == p[i - 1..][1..];
    assert p[..i] == p[..i - 1] + [p[i - 1]];
  }

  /** The `removeAdjacentSpaces` lambda. */
  method RemoveAdjacentSpaces(input: seq<Region>) returns (partitions: seq<Region>)
    ensures partitions == Coalesced(input)
  {
    partitions := input;
    if input == [] { return; }
    var i := 1;
    assert Pending(input, 1) == Coalesced(input) by { assert input[0..] == input; }
    while i < |partitions|
      invariant 1 <= i <= |partitions|
      invariant Pending(partitions, i) == Coalesced(input)
      decreases |partitions| - i + |partitions|
    {
      if partitions[i - 1].IsFree() && partitions[i].IsFree() {
        PendingMerge(partitions, i);
        var merged := partitions[i - 1].(sizeMiB := ToUnsigned(partitions[i - 1].sizeMiB + partitions[i].sizeMiB));
        partitions := partitions[..i - 1] + [merged] + partitions[i + 1..];
      } else {
        PendingAdvance(partitions, i);
        i := i + 1;
      }
    }
    assert Pending(partitions, i) == partitions;
  }

  // ---------- one operation ----------

  function IndexOf(rs: seq<Region>, device: string): (k: nat)
    ensures k <= |rs|
    ensures k < |rs| ==> rs[k].device == device
    ensures forall j | 0 <= j < k :: rs[j].device != device
  {
    if rs == [] then 0 else if rs[0].device == device then 0 else 1 + IndexOf(rs[1..], device)
  }

  function FreeAfter(rs: seq<Region>, k: nat): U64
    requires k < |rs|
  {
    if k + 1 < |rs| && rs[k + 1].IsFree() then rs[k + 1].sizeMiB else 0
  }

  /** The planner's mixed signed/unsigned "too large" test. */
  predicate ResizeRejected(want: U64, size: U64, free: U64) {
    want > size && ToUnsigned(ToSigned(want) - ToSigned(size)) > free
  }

  /** Whether the signed subtraction in that test leaves the range of int64_t, which C++ leaves undefined. */
  predicate SubtractionOverflows(want: U64, size: U64) {
    var d := ToSigned(want) - ToSigned(size);
    d < -TWO_63 || TWO_63 <= d
  }

  function CreateStep(rs: seq<Region>, region: string, size: U64, remaining: bool, fs: string, mp: string)
    : Result<seq<Region>>
  {
    var k := IndexOf(rs, region);
    if region == "" then Err(MissingTarget)
    else if k == |rs| then Err(UnknownTarget)
    else if !rs[k].IsFree() then Err(WrongKind)
    else if remaining && size != 0 then Err(SizeWithRemaining)
    else if !remaining && size < 1 then Err(SizeTooSmall)
    else
      var made := if remaining then rs[k].sizeMiB else size;
      if made > rs[k].sizeMiB then Err(SizeTooBig)
      else if !IsValidFilesystem(fs) then Err(BadFilesystem)
      else if !IsValidMountpoint(mp) then Err(BadMountpoint)
      else
        var rest := if made == rs[k].sizeMiB then [] else [rs[k].(sizeMiB := rs[k].sizeMiB - made)];
        Ok(Coalesced(rs[..k] + [Region("", fs, made, mp)] + (rest + rs[k + 1..])))
  }

  function ResizeStep(rs: seq<Region>, partition: string, size: U64, remaining: bool): Result<seq<Region>>
  {
    var k := IndexOf(rs, partition);
    if partition == "" then Err(MissingTarget)
    else if k == |rs| then Err(UnknownTarget)
    else if rs[k].IsFree() then Err(WrongKind)
    else if remaining && size != 0 then Err(SizeWithRemaining)
    else if !remaining && size < 1 then Err(SizeTooSmall)
    else
      var free := FreeAfter(rs, k);
      var want := if remaining then ToUnsigned(rs[k].sizeMiB + free) else size;
      if ResizeRejected(want, rs[k].sizeMiB, free) then Err(SizeTooBig)
      else Ok(Coalesced(Resized(rs, k, want)))
  }

  /** The vector after an accepted resize of entry k, before free space is merged. */
  function Resized(rs: seq<Region>, k: nat, want: U64): seq<Region>
    requires k < |rs|
  {
    rs[..k] + [rs[k].(sizeMiB := want)] + Suffix(rs, k, ToSigned(want) - ToSigned(rs[k].sizeMiB))
  }

  /** What follows the resized entry: the space a shrink frees, and the rest of the vector. */
  function Suffix(rs: seq<Region>, k: nat, added: int): seq<Region>
    requires k < |rs| && -TWO_64 < added < TWO_64
  {
    var tail := Tail(rs[k + 1..], FreeAfter(rs, k), added);
    if added < 0 then [Region("", "", ToUnsigned(-added), "")] + tail else tail
  }

  /** The rest of the vector once the growth has been taken out of the next free region. */
  function Tail(rest: seq<Region>, free: U64, added: int): seq<Region>
    requires -TWO_64 < added < TWO_64
  {
    var hasNext := rest != [] && rest[0].IsFree();
    if ToUnsigned(added) == free then (if hasNext then rest[1..] else rest)
    else if added > 0 && hasNext then [rest[0].(sizeMiB := ToUnsigned(rest[0].sizeMiB - added))] + rest[1..]
    else rest
  }

  function RemoveStep(rs: seq<Region>, partition: string): Result<seq<Region>>
  {
    var k := IndexOf(rs, partition);
    if partition == "" then Err(MissingTarget)
    else if k == |rs| then Err(UnknownTarget)
    else if rs[k].IsFree() then Err(WrongKind)
    else Ok(Coalesced(rs[..k] + [Region("", "", rs[k].sizeMiB, "")] + rs[k + 1..]))
  }

  function SetMountpointStep(rs: seq<Region>, partition: string, mp: string): Result<seq<Region>>
  {
    var k := IndexOf(rs, partition);
    if partition == "" then Err(MissingTarget)
    else if k == |rs| then Err(UnknownTarget)
    else if rs[k].IsFree() then Err(WrongKind)
    else if !IsValidMountpoint(mp) then Err(BadMountpoint)
    else Ok(rs[k := rs[k].(mountpoint := mp)])
  }

  function SetFilesystemStep(rs: seq<Region>, partition: string, fs: string): Result<seq<Region>>
  {
    var k := IndexOf(rs, partition);
    if partition == "" then Err(MissingTarget)
    else if k == |rs| then Err(UnknownTarget)
    else if rs[k].IsFree() then Err(WrongKind)
    else if !IsValidFilesystem(fs) then Err(BadFilesystem)
    else Ok(rs[k := rs[k].(filesystem := fs)])
  }

  function PlanStep(rs: seq<Region>, op: Operation): Result<seq<Region>> {
    match op
    case Create(region, size, remaining, fs, mp) => CreateStep(rs, region, size, remaining, fs, mp)
    case Resize(partition, size, remaining) => ResizeStep(rs, partition, size, remaining)
    case Remove(partition) => RemoveStep(rs, partition)
    case SetMountpoint(partition, mp) => SetMountpointStep(rs, partition, mp)
    case SetFilesystem(partition, fs) => SetFilesystemStep(rs, partition, fs)
  }

  function PlanRun(rs: seq<Region>, ops: seq<Operation>): Result<seq<Region>>
    decreases |ops|
  {
    if ops == [] then Ok(rs)
    else
      match PlanStep(rs, ops[0])
      case Err(e) => Err(e)
      case Ok(next) => PlanRun(next, ops[1..])
  }

  // ---------- the vector edits as the planner performs them ----------

  method Erase(rs: seq<Region>, at: nat) returns (out: seq<Region>)
    requires at < |rs|
    ensures out == rs[..at] + rs[at + 1..]
  {
    out := rs[..at] + rs[at + 1..];
  }

  method Insert(rs: seq<Region>, at: nat, r: Region) returns (out: seq<Region>)
    requires at <= |rs|
    ensures out == rs[..at] + [r] + rs[at..]
  {
    out := rs[..at] + [r] + rs[at..];
  }

  method ApplyCreate(input: seq<Region>, region: string, size: U64, remaining: bool, fs: string, mp: string)
    returns (r: Result<seq<Region>>)
    ensures r == CreateStep(input, region, size, remaining, fs, mp)
  {
    hide Coalesced;
    if region == "" { return Err(MissingTarget); }
    var it := IndexOf(input, region);
    if it == |input| { return Err(UnknownTarget); }
    var part := input[it];
    if !part.IsFree() { return Err(WrongKind); }
    if remaining && size != 0 { return Err(SizeWithRemaining); }
    if !remaining && size < 1 { return Err(SizeTooSmall); }
    var made := if remaining then part.sizeMiB else size;
    if made > part.sizeMiB { return Err(SizeTooBig); }
    if !IsValidFilesystem(fs) { return Err(BadFilesystem); }
    if !IsValidMountpoint(mp) { return Err(BadMountpoint); }
    var partitions := input;
    if part.sizeMiB == made {
      partitions := Erase(partitions, it);
    } else {
      partitions := partitions[it := part.(sizeMiB := part.sizeMiB - made)];
    }
    partitions := Insert(partitions, it, Region("", fs, made, mp));
    ghost var rest := if made == part.sizeMiB then [] else [part.(sizeMiB := part.sizeMiB - made)];
    assert partitions == input[..it] + [Region("", fs, made, mp)] + (rest + input[it + 1..]);
    partitions := RemoveAdjacentSpaces(partitions);
    return Ok(partitions);
  }

  /** The in-place part of an accepted resize: grow or shrink the entry, take the growth out of the
      following free region and give back what a shrink frees. */
  method EditResized(input: seq<Region>, it: nat, want: U64, next: nat, freeAfter: U64, added: int)
    returns (partitions: seq<Region>)
    requires it < |input| && freeAfter == FreeAfter(input, it)
    requires next == if it + 1 < |input| && input[it + 1].IsFree() then it + 1 else |input|
    requires added == ToSigned(want) - ToSigned(input[it].sizeMiB)
    ensures partitions == Resized(input, it, want)
  {
    hide ToSigned, ToUnsigned, Tail, FreeAfter;
    ghost var head, rest := input[..it] + [input[it].(sizeMiB := want)], input[it + 1..];
    partitions := input[it := input[it].(sizeMiB := want)];
    Replaced(input, it, input[it].(sizeMiB := want));
    partitions := TakeGrowth(partitions, head, rest, next, freeAfter, added);
    if added < 0 {
      partitions := Insert(partitions, it + 1, Region("", "", ToUnsigned(-added), ""));
      InsertedBehind(head, Tail(rest, freeAfter, added), Region("", "", ToUnsigned(-added), ""));
    }
  }

  lemma Replaced(rs: seq<Region>, k: nat, r: Region)
    requires k < |rs|
    ensures rs[k := r] == (rs[..k] + [r]) + rs[k + 1..]
  {
  }

  lemma InsertedBehind(head: seq<Region>, tail: seq<Region>, r: Region)
    ensures (head + tail)[..|head|] + [r] + (head + tail)[|head|..] == head + ([r] + tail)
  {
  }

  lemma FirstBehind(head: seq<Region>, tail: seq<Region>, r: Region)
    requires tail != []
    ensures (head + tail)[|head|] == tail[0]
    ensures (head + tail)[..|head|] + (head + tail)[|head| + 1..] == head + tail[1..]
    ensures (head + tail)[|head| := r] == head + ([r] + tail[1..])
  {
  }

  /** What the growth does to the entries behind the resized one. */
  method TakeGrowth(given: seq<Region>, ghost head: seq<Region>, ghost rest: seq<Region>, next: nat, freeAfter: U64,
                    added: int)
    returns (partitions: seq<Region>)
    requires given == head + rest && -TWO_64 < added < TWO_64
    requires next == if rest != [] && rest[0].IsFree() then |head| else |given|
    ensures partitions == head + Tail(rest, freeAfter, added)
  {
    hide ToUnsigned;
    partitions := given;
    if ToUnsigned(added) == freeAfter {
      if next < |partitions| {
        FirstBehind(head, rest, rest[0]);
        partitions := Erase(partitions, next);
      }
    } else if added > 0 && next < |partitions| {
      FirstBehind(head, rest, rest[0].(sizeMiB := ToUnsigned(rest[0].sizeMiB - added)));
      partitions := partitions[next := partitions[next].(sizeMiB := ToUnsigned(partitions[next].sizeMiB - added))];
    }
  }

  method ApplyResize(input: seq<Region>, partition: string, size: U64, remaining: bool)
    returns (r: Result<seq<Region>>)
    ensures r == ResizeStep(input, partition, size, remaining)
  {
    hide Resized, Coalesced;
    if partition == "" { return Err(MissingTarget); }
    var it := IndexOf(input, partition);
    if it == |input| { return Err(UnknownTarget); }
    var part := input[it];
    if part.IsFree() { return Err(WrongKind); }
    if remaining && size != 0 { return Err(SizeWithRemaining); }
    if !remaining && size < 1 { return Err(SizeTooSmall); }
    var next := it + 1;
    var freeAfter: U64 := 0;
    if next < |input| && input[next].IsFree() {
      freeAfter := input[next].sizeMiB;
    } else {
      next := |input|;
    }
    var want := if remaining then ToUnsigned(part.sizeMiB + freeAfter) else size;
    var added := ToSigned(want) - ToSigned(part.sizeMiB);
    if want > part.sizeMiB && ToUnsigned(added) > freeAfter { return Err(SizeTooBig); }
    var partitions := EditResized(input, it, want, next, freeAfter, added);
    partitions := RemoveAdjacentSpaces(partitions);
    return Ok(partitions);
  }

  method ApplyRemove(input: seq<Region>, partition: string) returns (r: Result<seq<Region>>)
    ensures r == RemoveStep(input, partition)
  {
    if partition == "" { return Err(MissingTarget); }
    var part := IndexOf(input, partition);
    if part == |input| { return Err(UnknownTarget); }
    if input[part].IsFree() { return Err(WrongKind); }
    var size := input[part].sizeMiB;
    var partitions := Erase(input, part);
    partitions := Insert(partitions, part, Region("", "", size, ""));
    assert partitions == input[..part] + [Region("", "", size, "")] + input[part + 1..];
    partitions := RemoveAdjacentSpaces(partitions);
    return Ok(partitions);
  }

  method ApplyOperation(input: seq<Region>, op: Operation) returns (r: Result<seq<Region>>)
    ensures r == PlanStep(input, op)
  {
    match op {
      case Create(region, size, remaining, fs, mp) =>
        r := ApplyCreate(input, region, size, remaining, fs, mp);
      case Resize(partition, size, remaining) =>
        r := ApplyResize(input, partition, size, remaining);
      case Remove(partition) =>
        r := ApplyRemove(input, partition);
      case SetMountpoint(partition, mp) =>
        if partition == "" { return Err(MissingTarget); }
        var it := IndexOf(input, partition);
        if it == |input| { return Err(UnknownTarget); }
        if input[it].IsFree() { return Err(WrongKind); }
        if !IsValidMountpoint(mp) { return Err(BadMountpoint); }
        r := Ok(input[it := input[it].(mountpoint := mp)]);
      case SetFilesystem(partition, fs) =>
        if partition == "" { return Err(MissingTarget); }
        var it := IndexOf(input, partition);
        if it == |input| { return Err(UnknownTarget); }
        if input[it].IsFree() { return Err(WrongKind); }
        if !IsValidFilesystem(fs) { return Err(BadFilesystem); }
        r := Ok(input[it := input[it].(filesystem := fs)]);
    }
  }
}

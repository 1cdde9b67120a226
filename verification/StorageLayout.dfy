/** The planner without its machine arithmetic: partitions in disk order and the amount of free space
    in each of the gaps around them. The vector editing of `StoragePlanner` refines it. */
module StorageLayout {
  import opened StorageTypes
  import opened StoragePlanner
  import opened Common

  /** gaps[i] is the free space before parts[i]; the last gap follows the last partition. */
  datatype Layout = Layout(parts: seq<Region>, gaps: seq<int>) {
    ghost predicate Valid() {
      |gaps| == |parts| + 1
    }
  }

  function Prepend(r: Region, l: Layout): (m: Layout)
    requires |l.gaps| == |l.parts| + 1
    ensures m.Valid()
  {
    if r.IsFree() then l.(gaps := [r.sizeMiB + l.gaps[0]] + l.gaps[1..])
    else Layout([r] + l.parts, [0] + l.gaps)
  }

  function ShapeOf(rs: seq<Region>): (l: Layout)
    ensures l.Valid()
  {
    if rs == [] then Layout([], [0]) else Prepend(rs[0], ShapeOf(rs[1..]))
  }

  ghost function Join(a: Layout, b: Layout): (l: Layout)
    requires a.Valid() && b.Valid()
    ensures l.Valid()
  {
    Layout(a.parts + b.parts, a.gaps[..|a.parts|] + [a.gaps[|a.parts|] + b.gaps[0]] + b.gaps[1..])
  }

  lemma JoinEmpty(b: Layout)
    requires b.Valid()
    ensures Join(Layout([], [0]), b) == b
  {
    assert [b.gaps[0]] + b.gaps[1..] == b.gaps;
  }

  lemma JoinPrepend(r: Region, a: Layout, b: Layout)
    requires a.Valid() && b.Valid()
    ensures Join(Prepend(r, a), b) == Prepend(r, Join(a, b))
  {
    var left := Join(Prepend(r, a), b);
    var right := Prepend(r, Join(a, b));
    assert left.parts == right.parts;
    hide Join, Prepend;
    JoinGaps(a, b);
    JoinGaps(Prepend(r, a), b);
    PrependGaps(r, a);
    PrependGaps(r, Join(a, b));
    assert forall i | 0 <= i < |left.gaps| :: left.gaps[i] == right.gaps[i];
  }

  lemma JoinGaps(a: Layout, b: Layout)
    requires a.Valid() && b.Valid()
    ensures var gaps, n := Join(a, b).gaps, |a.parts|;
            |Join(a, b).parts| == n + |b.parts| && |gaps| == n + |b.gaps| &&
            forall i | 0 <= i < |gaps| ::
              gaps[i] == if i < n then a.gaps[i] else if i == n then a.gaps[n] + b.gaps[0] else b.gaps[i - n]
  {
  }

  lemma PrependGaps(r: Region, l: Layout)
    requires l.Valid()
    ensures var gaps, k := Prepend(r, l).gaps, if r.IsFree() then 0 else 1;
            |Prepend(r, l).parts| == |l.parts| + k && |gaps| == |l.gaps| + k &&
            forall i | 0 <= i < |gaps| ::
              gaps[i] == if r.IsFree() then (if i == 0 then r.sizeMiB + l.gaps[0] else l.gaps[i])
                         else if i == 0 then 0 else l.gaps[i - 1]
  {
  }

  lemma {:induction false} ShapeConcat(a: seq<Region>, b: seq<Region>)
    ensures ShapeOf(a + b) == Join(ShapeOf(a), ShapeOf(b))
  {
    hide Join, Prepend;
    if a == [] {
      assert a + b == b;
      JoinEmpty(ShapeOf(b));
    } else {
      hide ShapeOf;
      ShapeConcat(a[1..], b);
      assert a == [a[0]] + a[1..];
      Associative([a[0]], a[1..], b);
      ConsShape(a[0], a[1..]);
      ConsShape(a[0], a[1..] + b);
      JoinPrepend(a[0], ShapeOf(a[1..]), ShapeOf(b));
    }
  }

  /** The partition index (or, for a free region, the gap index) that vector position k stands for. */
  function SlotAt(rs: seq<Region>, k: nat): nat
    requires k <= |rs|
  {
    |ShapeOf(rs[..k]).parts|
  }

  function Total(rs: seq<Region>): nat {
    if rs == [] then 0 else rs[0].sizeMiB + Total(rs[1..])
  }

  lemma {:induction false} TotalConcat(a: seq<Region>, b: seq<Region>)
    ensures Total(a + b) == Total(a) + Total(b)
  {
    if a == [] {
      assert a + b == b;
    } else {
      TotalConcat(a[1..], b);
      assert (a + b)[1..] == a[1..] + b;
    }
  }

  /** The conserved quantity, read off the layout. */
  function Sum(gaps: seq<int>): int {
    if gaps == [] then 0 else gaps[0] + Sum(gaps[1..])
  }

  lemma {:induction false} TotalOfShape(rs: seq<Region>)
    ensures Total(rs) == Total(ShapeOf(rs).parts) + Sum(ShapeOf(rs).gaps)
  {
    if rs != [] {
      TotalOfShape(rs[1..]);
      var rest := ShapeOf(rs[1..]);
      if !rs[0].IsFree() {
        assert ([rs[0]] + rest.parts)[1..] == rest.parts;
        assert ([0] + rest.gaps)[1..] == rest.gaps;
      }
    }
  }

  // ---------- merging free space ----------

  lemma {:induction false} CoalescedHead(rs: seq<Region>)
    requires rs != []
    ensures Coalesced(rs) != [] && Coalesced(rs)[0].IsFree() == rs[0].IsFree()
    decreases |rs|
  {
    if |rs| >= 2 && rs[0].IsFree() && rs[1].IsFree() {
      CoalescedHead([rs[0].(sizeMiB := ToUnsigned(rs[0].sizeMiB + rs[1].sizeMiB))] + rs[2..]);
    }
  }

  lemma {:induction false} CoalescedHasNoNeighbours(rs: seq<Region>)
    ensures NoAdjacentFree(Coalesced(rs))
    decreases |rs|
  {
    if |rs| >= 2 {
      if rs[0].IsFree() && rs[1].IsFree() {
        CoalescedHasNoNeighbours([rs[0].(sizeMiB := ToUnsigned(rs[0].sizeMiB + rs[1].sizeMiB))] + rs[2..]);
      } else {
        CoalescedHasNoNeighbours(rs[1..]);
        CoalescedHead(rs[1..]);
      }
    }
  }

  lemma {:induction false} CoalescedFixpoint(rs: seq<Region>)
    requires NoAdjacentFree(rs)
    ensures Coalesced(rs) == rs
  {
    if |rs| >= 2 {
      CoalescedFixpoint(rs[1..]);
    }
  }

  /** Merging neighbours changes neither the partitions nor the free space of any gap. */
  lemma {:induction false} CoalescedKeepsShape(rs: seq<Region>)
    requires Total(rs) < TWO_64
    ensures ShapeOf(Coalesced(rs)) == ShapeOf(rs)
    decreases |rs|
  {
    hide ShapeOf, Prepend, Total;
    if |rs| >= 2 {
      if rs[0].IsFree() && rs[1].IsFree() {
        MergedKeepsShape(rs);
        CoalescedKeepsShape([rs[0].(sizeMiB := ToUnsigned(rs[0].sizeMiB + rs[1].sizeMiB))] + rs[2..]);
      } else {
        ConsShape(rs[0], rs[1..]);
        ConsShape(rs[0], Coalesced(rs[1..]));
        assert rs == [rs[0]] + rs[1..];
        CoalescedKeepsShape(rs[1..]);
      }
    }
  }

  lemma ConsShape(r: Region, rs: seq<Region>)
    ensures ShapeOf([r] + rs) == Prepend(r, ShapeOf(rs)) && Total([r] + rs) == r.sizeMiB + Total(rs)
  {
    assert ([r] + rs)[1..] == rs;
  }

  /** One merge of two free regions at the front. */
  lemma MergedKeepsShape(rs: seq<Region>)
    requires |rs| >= 2 && rs[0].IsFree() && rs[1].IsFree() && Total(rs) < TWO_64
    ensures var merged := [rs[0].(sizeMiB := ToUnsigned(rs[0].sizeMiB + rs[1].sizeMiB))] + rs[2..];
            ShapeOf(merged) == ShapeOf(rs) && Total(merged) == Total(rs)
  {
    hide ShapeOf, Total;
    var rest := rs[2..];
    assert rs == [rs[0]] + ([rs[1]] + rest);
    ConsShape(rs[1], rest);
    ConsShape(rs[0], [rs[1]] + rest);
    assert rs[0].sizeMiB + rs[1].sizeMiB < TWO_64;
    ConsShape(rs[0].(sizeMiB := ToUnsigned(rs[0].sizeMiB + rs[1].sizeMiB)), rest);
  }

  /** A free region never carries a mountpoint. */
  ghost predicate FreeUnmounted(rs: seq<Region>) {
    forall r <- rs :: r.IsFree() ==> r.mountpoint == ""
  }

  lemma {:induction false} CoalescedUnmounted(rs: seq<Region>)
    requires FreeUnmounted(rs)
    ensures FreeUnmounted(Coalesced(rs))
    decreases |rs|
  {
    if |rs| >= 2 {
      if rs[0].IsFree() && rs[1].IsFree() {
        CoalescedUnmounted([rs[0].(sizeMiB := ToUnsigned(rs[0].sizeMiB + rs[1].sizeMiB))] + rs[2..]);
      } else {
        CoalescedUnmounted(rs[1..]);
      }
    }
  }

  // ---------- the abstract allocation step ----------

  function TargetOf(op: Operation): string {
    match op
    case Create(region, _, _, _, _) => region
    case Resize(partition, _, _) => partition
    case Remove(partition) => partition
    case SetMountpoint(partition, _) => partition
    case SetFilesystem(partition, _) => partition
  }

  /** What the operation asks of gap or partition `at`, in unbounded arithmetic. */
  predicate LayoutFits(l: Layout, at: nat, op: Operation)
    requires |l.gaps| == |l.parts| + 1
  {
    match op
    case Create(_, size, remaining, fs, mp) =>
      at < |l.gaps| && 0 <= l.gaps[at] < TWO_63 && (if remaining then size == 0 else 1 <= size <= l.gaps[at]) &&
      IsValidFilesystem(fs) && IsValidMountpoint(mp)
    case Resize(_, size, remaining) =>
      at < |l.parts| && 0 <= l.parts[at].sizeMiB + l.gaps[at + 1] < TWO_63 &&
      if remaining then size == 0 else 1 <= size <= l.parts[at].sizeMiB + l.gaps[at + 1]
    case Remove(_) => at < |l.parts|
    case SetMountpoint(_, mp) => at < |l.parts| && IsValidMountpoint(mp)
    case SetFilesystem(_, fs) => at < |l.parts| && IsValidFilesystem(fs)
  }

  /** A new partition at the start of gap i, which keeps `rest` behind it. */
  function InsertPart(l: Layout, i: nat, part: Region, rest: int): (r: Layout)
    requires |l.gaps| == |l.parts| + 1 && i < |l.gaps|
    ensures r.Valid()
  {
    Layout(l.parts[..i] + [part] + l.parts[i..], l.gaps[..i] + [0, rest] + l.gaps[i + 1..])
  }

  /** Partition i replaced, with `after` free space behind it. */
  function ReplacePart(l: Layout, i: nat, part: Region, after: int): (r: Layout)
    requires |l.gaps| == |l.parts| + 1 && i < |l.parts|
    ensures r.Valid()
  {
    Layout(l.parts[i := part], l.gaps[i + 1 := after])
  }

  /** Partition i dissolved into the free space around it. */
  function DropPart(l: Layout, i: nat): (r: Layout)
    requires |l.gaps| == |l.parts| + 1 && i < |l.parts|
    ensures r.Valid()
  {
    Layout(l.parts[..i] + l.parts[i + 1..],
           l.gaps[..i] + [l.gaps[i] + l.parts[i].sizeMiB + l.gaps[i + 1]] + l.gaps[i + 2..])
  }

  function LayoutStep(l: Layout, at: nat, op: Operation): (r: Layout)
    requires |l.gaps| == |l.parts| + 1 && LayoutFits(l, at, op)
    ensures r.Valid()
  {
    match op
    case Create(_, size, remaining, fs, mp) =>
      var made := if remaining then l.gaps[at] else size;
      InsertPart(l, at, Region("", fs, made, mp), l.gaps[at] - made)
    case Resize(_, size, remaining) =>
      var room := l.parts[at].sizeMiB + l.gaps[at + 1];
      var want := if remaining then room else size;
      ReplacePart(l, at, l.parts[at].(sizeMiB := want), room - want)
    case Remove(_) => DropPart(l, at)
    case SetMountpoint(_, mp) => ReplacePart(l, at, l.parts[at].(mountpoint := mp), l.gaps[at + 1])
    case SetFilesystem(_, fs) => ReplacePart(l, at, l.parts[at].(filesystem := fs), l.gaps[at + 1])
  }
}

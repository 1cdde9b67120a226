/** The planner's vector editing with 64-bit arithmetic refines the allocation of `StorageLayout`:
    it accepts exactly the operations that fit, has the same effect on partitions and gaps, keeps the
    size of the device and never leaves free space split or mounted. */
module StorageRefinement {
  import opened StorageTypes
  import opened StoragePlanner
  import opened StorageLayout

  // ---------- the mixed signed/unsigned resize test ----------

  /** The planner's test rejects exactly the requests larger than the partition and the free space after
      it, for every 64-bit request. */
  lemma ResizeTestExact(want: U64, size: U64, free: U64)
    requires size + free < TWO_63
    ensures ResizeRejected(want, size, free) <==> want > size + free
  {
    if want > size {
      assert ToUnsigned(ToSigned(want) - ToSigned(size)) == want - size;
    }
  }

  /** The subtraction in that test is undefined in C++ exactly for requests in a window just above 2^63,
      none of which fit. */
  lemma ResizeSubtractionDefined(want: U64, size: U64, free: U64)
    requires size + free < TWO_63
    ensures SubtractionOverflows(want, size) <==> TWO_63 <= want < TWO_63 + size
    ensures SubtractionOverflows(want, size) ==> want > size + free
  {
  }

  lemma AcceptedResizeArithmetic(want: U64, size: U64, free: U64)
    requires size + free < TWO_63 && want <= size + free
    ensures ToSigned(want) - ToSigned(size) == want - size
    ensures ToUnsigned(want - size) == free <==> want == size + free
    ensures want > size ==> ToUnsigned(free - (want - size)) == free - (want - size)
    ensures want < size ==> ToUnsigned(size - want) == size - want
  {
  }

  // ---------- position in the vector and position in the layout ----------

  lemma ShapeAround(rs: seq<Region>, k: nat)
    requires k < |rs|
    ensures ShapeOf(rs) == Join(ShapeOf(rs[..k]), Prepend(rs[k], ShapeOf(rs[k + 1..])))
    ensures Total(rs) == Total(rs[..k]) + rs[k].sizeMiB + Total(rs[k + 1..])
  {
    assert rs == rs[..k] + rs[k..];
    assert rs[k..][1..] == rs[k + 1..];
    ShapeConcat(rs[..k], rs[k..]);
    TotalConcat(rs[..k], rs[k..]);
  }

  lemma ShapeOfThree(a: seq<Region>, x: Region, b: seq<Region>)
    ensures ShapeOf(a + [x] + b) == Join(ShapeOf(a), Prepend(x, ShapeOf(b)))
    ensures Total(a + [x] + b) == Total(a) + x.sizeMiB + Total(b)
  {
    var rs := a + [x] + b;
    assert rs[..|a|] == a && rs[|a| + 1..] == b;
    ShapeAround(rs, |a|);
  }

  lemma LastGapClosed(a: seq<Region>)
    requires a == [] || !a[|a| - 1].IsFree()
    ensures ShapeOf(a).gaps[|ShapeOf(a).parts|] == 0
  {
    if a != [] {
      ShapeAround(a, |a| - 1);
      assert a[|a| - 1 + 1..] == [];
    }
  }

  /** In a merged vector, the gap around a free region is that region, and the gap after a partition is the
      free region that follows it, if any. */
  lemma GapsAround(rs: seq<Region>, k: nat)
    requires k < |rs| && NoAdjacentFree(rs)
    ensures var a, b := ShapeOf(rs[..k]), ShapeOf(rs[k + 1..]);
            if rs[k].IsFree() then a.gaps[|a.parts|] == 0 && b.gaps[0] == 0
            else b.gaps[0] == FreeAfter(rs, k)
  {
    var a, b := rs[..k], rs[k + 1..];
    if rs[k].IsFree() {
      LastGapClosed(a);
    } else if k + 1 < |rs| && rs[k + 1].IsFree() && k + 2 < |rs| {
      assert b[1..][0] == rs[k + 2];
    }
  }

  lemma SlotLookup(rs: seq<Region>, k: nat)
    requires k < |rs| && NoAdjacentFree(rs)
    ensures var l, i := ShapeOf(rs), SlotAt(rs, k);
            if rs[k].IsFree() then i < |l.gaps| && l.gaps[i] == rs[k].sizeMiB
            else i < |l.parts| && l.parts[i] == rs[k] && l.gaps[i + 1] == FreeAfter(rs, k)
  {
    ShapeAround(rs, k);
    GapsAround(rs, k);
  }

  lemma RoomInRange(rs: seq<Region>, k: nat)
    requires k < |rs| && Total(rs) < TWO_63
    ensures rs[k].sizeMiB + FreeAfter(rs, k) <= Total(rs)
  {
    ShapeAround(rs, k);
    if k + 1 < |rs| {
      assert rs[k + 1..][0] == rs[k + 1];
    }
  }

  ghost function WithFirstGap(l: Layout, gap: int): (r: Layout)
    requires l.Valid()
    ensures r.Valid() && r.gaps[0] == gap
  {
    Layout(l.parts, [gap] + l.gaps[1..])
  }

  // ---------- the same edits on joined layouts ----------

  lemma JoinAroundPart(a: Layout, p: Region, b: Layout)
    requires a.Valid() && b.Valid() && !p.IsFree()
    ensures Join(a, Prepend(p, b)) == Layout(a.parts + [p] + b.parts, a.gaps + b.gaps)
  {
    assert Prepend(p, b).gaps[1..] == b.gaps;
    assert a.gaps == a.gaps[..|a.parts|] + [a.gaps[|a.parts|]];
    assert a.parts + ([p] + b.parts) == a.parts + [p] + b.parts;
  }

  lemma JoinAroundFree(a: Layout, f: Region, b: Layout)
    requires a.Valid() && b.Valid() && f.IsFree()
    ensures Join(a, Prepend(f, b)) ==
            Layout(a.parts + b.parts,
                   a.gaps[..|a.parts|] + [a.gaps[|a.parts|] + f.sizeMiB + b.gaps[0]] + b.gaps[1..])
  {
    assert Prepend(f, b).gaps[1..] == b.gaps[1..];
  }

  lemma InsertIntoJoin(a: Layout, f: Region, b: Layout, p: Region, rest: int)
    requires a.Valid() && b.Valid() && f.IsFree() && !p.IsFree()
    requires a.gaps[|a.parts|] == 0
    ensures InsertPart(Join(a, Prepend(f, b)), |a.parts|, p, rest) ==
            Join(a, Prepend(p, WithFirstGap(b, rest)))
  {
    var i := |a.parts|;
    JoinAroundFree(a, f, b);
    JoinAroundPart(a, p, WithFirstGap(b, rest));
    var l := Join(a, Prepend(f, b));
    assert l.parts[..i] == a.parts && l.parts[i..] == b.parts;
    assert l.gaps[..i] == a.gaps[..i] && l.gaps[i + 1..] == b.gaps[1..];
    assert a.gaps == a.gaps[..i] + [0];
    assert a.gaps[..i] + [0, rest] + b.gaps[1..] == a.gaps + ([rest] + b.gaps[1..]);
  }

  lemma DropFromJoin(a: Layout, p: Region, b: Layout, gone: Region)
    requires a.Valid() && b.Valid() && gone.IsFree() && !p.IsFree() && gone.sizeMiB == p.sizeMiB
    ensures DropPart(Join(a, Prepend(p, b)), |a.parts|) == Join(a, Prepend(gone, b))
  {
    hide Join, Prepend;
    var i := |a.parts|;
    JoinAroundPart(a, p, b);
    JoinAroundFree(a, gone, b);
    var l := Join(a, Prepend(p, b));
    assert l.parts[..i] == a.parts && l.parts[i + 1..] == b.parts;
    assert l.gaps[..i] == a.gaps[..i] && l.gaps[i + 2..] == b.gaps[1..];
  }

  lemma ReplaceInJoin(a: Layout, p: Region, b: Layout, q: Region, after: int)
    requires a.Valid() && b.Valid() && !p.IsFree() && !q.IsFree()
    ensures ReplacePart(Join(a, Prepend(p, b)), |a.parts|, q, after) ==
            Join(a, Prepend(q, WithFirstGap(b, after)))
  {
    hide Join, Prepend;
    var i := |a.parts|;
    JoinAroundPart(a, p, b);
    JoinAroundPart(a, q, WithFirstGap(b, after));
    assert (a.parts + [p] + b.parts)[i := q] == a.parts + [q] + b.parts;
    assert (a.gaps + b.gaps)[i + 1 := after] == a.gaps + ([after] + b.gaps[1..]);
  }

  // ---------- each operation, before merging ----------

  lemma CreateShape(rs: seq<Region>, k: nat, made: U64, part: Region)
    requires k < |rs| && NoAdjacentFree(rs) && rs[k].IsFree() && !part.IsFree()
    requires made <= rs[k].sizeMiB && part.sizeMiB == made
    ensures SlotAt(rs, k) < |ShapeOf(rs).gaps|
    ensures var rest := if made == rs[k].sizeMiB then [] else [rs[k].(sizeMiB := rs[k].sizeMiB - made)];
            var after := rs[..k] + [part] + (rest + rs[k + 1..]);
            ShapeOf(after) == InsertPart(ShapeOf(rs), SlotAt(rs, k), part, rs[k].sizeMiB - made) &&
            Total(after) == Total(rs)
  {
    hide ShapeOf, Join, WithFirstGap, Prepend, InsertPart;
    var a, b := rs[..k], rs[k + 1..];
    var rest := if made == rs[k].sizeMiB then [] else [rs[k].(sizeMiB := rs[k].sizeMiB - made)];
    var left := rs[k].sizeMiB - made;
    var A, B := ShapeOf(a), ShapeOf(b);
    SlotLookup(rs, k);
    assert A.gaps[|A.parts|] == 0 && B.gaps[0] == 0 by { GapsAround(rs, k); }
    assert ShapeOf(rs) == Join(A, Prepend(rs[k], B)) && Total(rs) == Total(a) + rs[k].sizeMiB + Total(b) by {
      ShapeAround(rs, k);
    }
    assert ShapeOf(rest + b) == WithFirstGap(B, left) && Total(rest + b) == left + Total(b) by {
      RestShape(rest, b, left);
    }
    assert ShapeOf(a + [part] + (rest + b)) == Join(A, Prepend(part, WithFirstGap(B, left))) by {
      ShapeOfThree(a, part, rest + b);
    }
    assert Total(a + [part] + (rest + b)) == Total(rs) by { ShapeOfThree(a, part, rest + b); }
    InsertIntoJoin(A, rs[k], B, part, left);
  }

  lemma PrependShape(x: Region, b: seq<Region>)
    ensures ShapeOf([x] + b) == Prepend(x, ShapeOf(b))
    ensures Total([x] + b) == x.sizeMiB + Total(b)
  {
    assert ([x] + b)[1..] == b;
  }

  lemma SameFirstGap(b: Layout)
    requires b.Valid()
    ensures WithFirstGap(b, b.gaps[0]) == b
  {
    assert [b.gaps[0]] + b.gaps[1..] == b.gaps;
  }

  /** Free space in front of a layout only changes its first gap. */
  lemma PrependFree(f: Region, b: Layout, gap: int)
    requires b.Valid() && f.IsFree()
    ensures Prepend(f, b).gaps[0] == f.sizeMiB + b.gaps[0]
    ensures gap == f.sizeMiB + b.gaps[0] ==> Prepend(f, b) == WithFirstGap(b, gap)
    ensures WithFirstGap(Prepend(f, b), gap) == WithFirstGap(b, gap)
  {
  }

  lemma RestShape(rest: seq<Region>, b: seq<Region>, left: int)
    requires ShapeOf(b).gaps[0] == 0
    requires if left == 0 then rest == [] else |rest| == 1 && rest[0].IsFree() && rest[0].sizeMiB == left
    ensures ShapeOf(rest + b) == WithFirstGap(ShapeOf(b), left)
    ensures Total(rest + b) == left + Total(b)
  {
    hide ShapeOf, WithFirstGap, Prepend;
    if left == 0 {
      assert rest + b == b;
      SameFirstGap(ShapeOf(b));
    } else {
      assert rest == [rest[0]];
      PrependShape(rest[0], b);
      PrependFree(rest[0], ShapeOf(b), left);
    }
  }

  lemma RemoveShape(rs: seq<Region>, k: nat, gone: Region)
    requires k < |rs| && !rs[k].IsFree() && gone.IsFree() && gone.sizeMiB == rs[k].sizeMiB
    ensures SlotAt(rs, k) < |ShapeOf(rs).parts|
    ensures ShapeOf(rs[..k] + [gone] + rs[k + 1..]) == DropPart(ShapeOf(rs), SlotAt(rs, k))
    ensures Total(rs[..k] + [gone] + rs[k + 1..]) == Total(rs)
  {
    ShapeAround(rs, k);
    ShapeOfThree(rs[..k], gone, rs[k + 1..]);
    DropFromJoin(ShapeOf(rs[..k]), rs[k], ShapeOf(rs[k + 1..]), gone);
  }

  lemma ReplaceShape(rs: seq<Region>, k: nat, part: Region)
    requires k < |rs| && !rs[k].IsFree() && !part.IsFree() && part.sizeMiB == rs[k].sizeMiB
    ensures SlotAt(rs, k) < |ShapeOf(rs).parts| && ShapeOf(rs).parts[SlotAt(rs, k)] == rs[k]
    ensures ShapeOf(rs[k := part]) ==
            ReplacePart(ShapeOf(rs), SlotAt(rs, k), part, ShapeOf(rs).gaps[SlotAt(rs, k) + 1])
    ensures Total(rs[k := part]) == Total(rs)
  {
    var a, b := ShapeOf(rs[..k]), ShapeOf(rs[k + 1..]);
    ShapeAround(rs, k);
    assert rs[k := part] == rs[..k] + [part] + rs[k + 1..];
    ShapeOfThree(rs[..k], part, rs[k + 1..]);
    JoinAroundPart(a, rs[k], b);
    ReplaceInJoin(a, rs[k], b, part, b.gaps[0]);
    assert [b.gaps[0]] + b.gaps[1..] == b.gaps;
  }

  /** What an accepted resize puts after the resized partition, without wrap-around. */
  lemma ResizeTail(rs: seq<Region>, k: nat, want: U64)
    requires k < |rs| && !rs[k].IsFree()
    requires rs[k].sizeMiB + FreeAfter(rs, k) < TWO_63 && want <= rs[k].sizeMiB + FreeAfter(rs, k)
    ensures var size, free, rest := rs[k].sizeMiB, FreeAfter(rs, k), rs[k + 1..];
            var tail := Tail(rest, free, want - size);
            if want < size || !(rest != [] && rest[0].IsFree()) then tail == rest
            else if want == size + free then tail == rest[1..]
            else tail == [rest[0].(sizeMiB := free - (want - size))] + rest[1..]
  {
    AcceptedResizeArithmetic(want, rs[k].sizeMiB, FreeAfter(rs, k));
    assert k + 1 < |rs| ==> rs[k + 1..][0] == rs[k + 1];
  }

  /** What an accepted resize leaves behind a partition of the given size that `rest` followed. */
  ghost function AfterResized(rest: seq<Region>, size: U64, want: U64): seq<Region>
  {
    if want < size then [Region("", "", size - want, "")] + rest
    else if rest == [] || !rest[0].IsFree() then rest
    else if want - size >= rest[0].sizeMiB then rest[1..]
    else [rest[0].(sizeMiB := rest[0].sizeMiB - (want - size))] + rest[1..]
  }

  lemma ResizeTotal(rs: seq<Region>, k: nat, want: U64)
    requires k < |rs| && NoAdjacentFree(rs) && !rs[k].IsFree()
    requires Total(rs) < TWO_63 && want <= rs[k].sizeMiB + FreeAfter(rs, k)
    ensures Total(Resized(rs, k, want)) == Total(rs)
  {
    hide ShapeOf, Join, WithFirstGap, Prepend, AfterResized, Resized;
    var after := AfterResized(rs[k + 1..], rs[k].sizeMiB, want);
    RoomInRange(rs, k);
    ShapeAround(rs, k);
    GapsAround(rs, k);
    TailShape(rs[k + 1..], rs[k].sizeMiB, want, rs[k].sizeMiB + FreeAfter(rs, k) - want);
    ResizedPieces(rs, k, want);
    ShapeOfThree(rs[..k], rs[k].(sizeMiB := want), after);
  }

  lemma ReplacedLayout(before: Layout, after: Layout, a: Layout, p: Region, b: Layout, q: Region, gap: int)
    requires a.Valid() && b.Valid() && !p.IsFree() && !q.IsFree()
    requires before == Join(a, Prepend(p, b)) && after == Join(a, Prepend(q, WithFirstGap(b, gap)))
    ensures |a.parts| < |before.parts| && after == ReplacePart(before, |a.parts|, q, gap)
  {
    ReplaceInJoin(a, p, b, q, gap);
    JoinAroundPart(a, p, b);
  }

  lemma ResizeShape(rs: seq<Region>, k: nat, want: U64)
    requires k < |rs| && NoAdjacentFree(rs) && !rs[k].IsFree()
    requires Total(rs) < TWO_63 && want <= rs[k].sizeMiB + FreeAfter(rs, k)
    ensures SlotAt(rs, k) < |ShapeOf(rs).parts|
    ensures ShapeOf(Resized(rs, k, want)) ==
            ReplacePart(ShapeOf(rs), SlotAt(rs, k), rs[k].(sizeMiB := want),
                        rs[k].sizeMiB + FreeAfter(rs, k) - want)
  {
    hide ShapeOf, Join, WithFirstGap, ReplacePart, Prepend, AfterResized, Resized;
    var gap := rs[k].sizeMiB + FreeAfter(rs, k) - want;
    var part := rs[k].(sizeMiB := want);
    var behind := AfterResized(rs[k + 1..], rs[k].sizeMiB, want);
    var before, after := ShapeOf(rs), ShapeOf(Resized(rs, k, want));
    var a, b, c := ShapeOf(rs[..k]), ShapeOf(rs[k + 1..]), ShapeOf(behind);
    assert before == Join(a, Prepend(rs[k], b)) by { ShapeAround(rs, k); }
    assert c == WithFirstGap(b, gap) by {
      RoomInRange(rs, k);
      GapsAround(rs, k);
      TailShape(rs[k + 1..], rs[k].sizeMiB, want, gap);
    }
    assert after == Join(a, Prepend(part, c)) by {
      RoomInRange(rs, k);
      ResizedPieces(rs, k, want);
      ShapeOfThree(rs[..k], part, behind);
    }
    ReplacedLayout(before, after, a, rs[k], b, part, gap);
  }

  lemma ResizedPieces(rs: seq<Region>, k: nat, want: U64)
    requires k < |rs| && !rs[k].IsFree()
    requires rs[k].sizeMiB + FreeAfter(rs, k) < TWO_63 && want <= rs[k].sizeMiB + FreeAfter(rs, k)
    ensures Resized(rs, k, want) == rs[..k] + [rs[k].(sizeMiB := want)] + AfterResized(rs[k + 1..], rs[k].sizeMiB, want)
  {
    hide Tail, ToSigned;
    AcceptedResizeArithmetic(want, rs[k].sizeMiB, FreeAfter(rs, k));
    ResizeTail(rs, k, want);
    assert Suffix(rs, k, want - rs[k].sizeMiB) == AfterResized(rs[k + 1..], rs[k].sizeMiB, want);
  }

  lemma TailShape(rest: seq<Region>, size: U64, want: U64, gap: int)
    requires ShapeOf(rest).gaps[0] == if rest != [] && rest[0].IsFree() then rest[0].sizeMiB else 0
    requires 0 <= gap == size + ShapeOf(rest).gaps[0] - want
    ensures ShapeOf(AfterResized(rest, size, want)) == WithFirstGap(ShapeOf(rest), gap)
    ensures Total(AfterResized(rest, size, want)) == Total(rest) + size - want
  {
    hide ShapeOf, WithFirstGap, Prepend;
    var freed := Region("", "", if want < size then size - want else 0, "");
    if want < size {
      PrependShape(freed, rest);
      PrependFree(freed, ShapeOf(rest), gap);
    } else if rest == [] || !rest[0].IsFree() {
      SameFirstGap(ShapeOf(rest));
    } else {
      assert rest == [rest[0]] + rest[1..];
      PrependShape(rest[0], rest[1..]);
      PrependFree(rest[0], ShapeOf(rest[1..]), gap);
      SameFirstGap(ShapeOf(rest[1..]));
      if gap > 0 {
        var shrunk := rest[0].(sizeMiB := gap);
        PrependShape(shrunk, rest[1..]);
        PrependFree(shrunk, ShapeOf(rest[1..]), gap);
      }
    }
  }

  // ---------- whole operations and whole plans ----------

  /** What every planner state satisfies: free space is merged and unmounted, and sizes stay in range. */
  ghost predicate Sound(rs: seq<Region>) {
    NoAdjacentFree(rs) && FreeUnmounted(rs) && Total(rs) < TWO_63
  }

  /** The operation names an existing entry of the right kind and asks for no more than fits there. */
  ghost predicate Acceptable(rs: seq<Region>, op: Operation) {
    var k := IndexOf(rs, TargetOf(op));
    TargetOf(op) != "" && k < |rs| && (rs[k].IsFree() <==> op.Create?) &&
    LayoutFits(ShapeOf(rs), SlotAt(rs, k), op)
  }

  /** The planner accepts exactly the acceptable operations. */
  lemma StepAcceptsExactly(rs: seq<Region>, op: Operation)
    requires NoAdjacentFree(rs) && Total(rs) < TWO_63
    ensures PlanStep(rs, op).Ok? <==> Acceptable(rs, op)
  {
    hide ShapeOf, SlotAt, Coalesced, Resized;
    var k := IndexOf(rs, TargetOf(op));
    if k < |rs| {
      SlotLookup(rs, k);
      RoomInRange(rs, k);
      if op.Resize? {
        ResizeTestExact(if op.remaining then rs[k].sizeMiB + FreeAfter(rs, k) else op.sizeMiB,
                        rs[k].sizeMiB, FreeAfter(rs, k));
      }
    }
  }

  lemma MergedKeeps(before: seq<Region>, raw: seq<Region>)
    requires Total(before) < TWO_63 && Total(raw) == Total(before) && FreeUnmounted(raw)
    ensures Sound(Coalesced(raw)) && ShapeOf(Coalesced(raw)) == ShapeOf(raw)
    ensures Total(Coalesced(raw)) == Total(before)
  {
    CoalescedHasNoNeighbours(raw);
    CoalescedUnmounted(raw);
    CoalescedKeepsShape(raw);
    TotalOfShape(raw);
    TotalOfShape(Coalesced(raw));
  }

  lemma ReplacedSound(rs: seq<Region>, k: nat, part: Region)
    requires Sound(rs) && k < |rs| && !rs[k].IsFree() && !part.IsFree() && part.sizeMiB == rs[k].sizeMiB
    ensures Sound(rs[k := part]) && Total(rs[k := part]) == Total(rs)
  {
    ReplaceShape(rs, k, part);
  }

  /** The mountpoints and emptiness of the entries a resize leaves are those it started from. */
  lemma ResizedUnmounted(rs: seq<Region>, k: nat, want: U64)
    requires k < |rs| && FreeUnmounted(rs) && !rs[k].IsFree()
    ensures FreeUnmounted(Resized(rs, k, want))
  {
    hide FreeUnmounted, Tail, FreeAfter, ToSigned, ToUnsigned;
    var added := ToSigned(want) - ToSigned(rs[k].sizeMiB);
    SlicesUnmounted(rs, k);
    TailUnmounted(rs[k + 1..], FreeAfter(rs, k), added);
    OneUnmounted(rs[k].(sizeMiB := want));
    UnmountedConcat(rs[..k], [rs[k].(sizeMiB := want)]);
    if added < 0 {
      OneUnmounted(Region("", "", ToUnsigned(-added), ""));
      UnmountedConcat([Region("", "", ToUnsigned(-added), "")], Tail(rs[k + 1..], FreeAfter(rs, k), added));
    }
    UnmountedConcat(rs[..k] + [rs[k].(sizeMiB := want)], Suffix(rs, k, added));
  }

  lemma SlicesUnmounted(rs: seq<Region>, k: nat)
    requires k < |rs| && FreeUnmounted(rs)
    ensures FreeUnmounted(rs[..k]) && FreeUnmounted(rs[k + 1..])
  {
  }

  lemma OneUnmounted(r: Region)
    ensures FreeUnmounted([r]) <==> (r.IsFree() ==> r.mountpoint == "")
  {
    if FreeUnmounted([r]) { assert r in [r]; }
  }

  lemma UnmountedConcat(a: seq<Region>, b: seq<Region>)
    requires FreeUnmounted(a) && FreeUnmounted(b)
    ensures FreeUnmounted(a + b)
  {
  }

  lemma TailUnmounted(rest: seq<Region>, free: U64, added: int)
    requires FreeUnmounted(rest) && -TWO_64 < added < TWO_64
    ensures FreeUnmounted(Tail(rest, free, added))
  {
    if rest != [] { assert rest[0] in rest; }
  }

  lemma ResizeRefines(rs: seq<Region>, k: nat, want: U64)
    requires Sound(rs) && k < |rs| && !rs[k].IsFree() && want <= rs[k].sizeMiB + FreeAfter(rs, k)
    ensures var next := Coalesced(Resized(rs, k, want));
            SlotAt(rs, k) < |ShapeOf(rs).parts| &&
            ShapeOf(next) == ReplacePart(ShapeOf(rs), SlotAt(rs, k), rs[k].(sizeMiB := want),
                                         rs[k].sizeMiB + FreeAfter(rs, k) - want) &&
            Sound(next) && Total(next) == Total(rs)
  {
    ResizeShape(rs, k, want);
    ResizeTotal(rs, k, want);
    ResizedUnmounted(rs, k, want);
    MergedKeeps(rs, Resized(rs, k, want));
  }

  lemma RemoveRefines(rs: seq<Region>, k: nat)
    requires Sound(rs) && k < |rs| && !rs[k].IsFree()
    ensures var next := Coalesced(rs[..k] + [Region("", "", rs[k].sizeMiB, "")] + rs[k + 1..]);
            SlotAt(rs, k) < |ShapeOf(rs).parts| &&
            ShapeOf(next) == DropPart(ShapeOf(rs), SlotAt(rs, k)) &&
            Sound(next) && Total(next) == Total(rs)
  {
    var gone := Region("", "", rs[k].sizeMiB, "");
    RemoveShape(rs, k, gone);
    MergedKeeps(rs, rs[..k] + [gone] + rs[k + 1..]);
  }

  /** The abstract allocation an accepted operation amounts to. */
  ghost predicate Performs(rs: seq<Region>, op: Operation, next: seq<Region>) {
    var k := IndexOf(rs, TargetOf(op));
    var l := ShapeOf(rs);
    k < |rs| && LayoutFits(l, SlotAt(rs, k), op) &&
    ShapeOf(next) == LayoutStep(l, SlotAt(rs, k), op)
  }

  lemma CreateStepRefines(rs: seq<Region>, op: Operation)
    requires op.Create? && Sound(rs) && PlanStep(rs, op).Ok?
    ensures Performs(rs, op, PlanStep(rs, op).value)
    ensures Sound(PlanStep(rs, op).value) && Total(PlanStep(rs, op).value) == Total(rs)
  {
    hide ShapeOf, InsertPart, Coalesced, SlotAt;
    var k := IndexOf(rs, op.region);
    StepAcceptsExactly(rs, op);
    SlotLookup(rs, k);
    CreateRefines(rs, k, op.sizeMiB, op.remaining, op.filesystem, op.mountpoint);
  }

  lemma ResizeStepRefines(rs: seq<Region>, op: Operation)
    requires op.Resize? && Sound(rs) && PlanStep(rs, op).Ok?
    ensures Performs(rs, op, PlanStep(rs, op).value)
    ensures Sound(PlanStep(rs, op).value) && Total(PlanStep(rs, op).value) == Total(rs)
  {
    hide ShapeOf, ReplacePart, Resized, Coalesced, SlotAt;
    var k := IndexOf(rs, op.partition);
    StepAcceptsExactly(rs, op);
    SlotLookup(rs, k);
    RoomInRange(rs, k);
    ResizeRefines(rs, k, if op.remaining then rs[k].sizeMiB + FreeAfter(rs, k) else op.sizeMiB);
  }

  lemma EditStepRefines(rs: seq<Region>, op: Operation)
    requires !op.Create? && !op.Resize? && Sound(rs) && PlanStep(rs, op).Ok?
    ensures Performs(rs, op, PlanStep(rs, op).value)
    ensures Sound(PlanStep(rs, op).value) && Total(PlanStep(rs, op).value) == Total(rs)
  {
    hide ShapeOf, ReplacePart, DropPart, Coalesced, SlotAt;
    var k := IndexOf(rs, op.partition);
    StepAcceptsExactly(rs, op);
    SlotLookup(rs, k);
    match op {
      case Remove(_) => RemoveRefines(rs, k);
      case SetMountpoint(_, mp) =>
        ReplaceShape(rs, k, rs[k].(mountpoint := mp));
        ReplacedSound(rs, k, rs[k].(mountpoint := mp));
      case SetFilesystem(_, fs) =>
        ReplaceShape(rs, k, rs[k].(filesystem := fs));
        ReplacedSound(rs, k, rs[k].(filesystem := fs));
    }
  }

  /** One accepted operation performs the abstract allocation and keeps every planner invariant,
      the total size included. */
  lemma StepRefines(rs: seq<Region>, op: Operation)
    requires Sound(rs) && PlanStep(rs, op).Ok?
    ensures Performs(rs, op, PlanStep(rs, op).value)
    ensures Sound(PlanStep(rs, op).value) && Total(PlanStep(rs, op).value) == Total(rs)
  {
    if op.Create? {
      CreateStepRefines(rs, op);
    } else if op.Resize? {
      ResizeStepRefines(rs, op);
    } else {
      EditStepRefines(rs, op);
    }
  }

  lemma CreateRefines(rs: seq<Region>, k: nat, size: U64, remaining: bool, fs: string, mp: string)
    requires Sound(rs) && k < |rs| && rs[k].IsFree()
    requires IsValidFilesystem(fs)
    requires if remaining then size == 0 else size <= rs[k].sizeMiB
    ensures var made := if remaining then rs[k].sizeMiB else size;
            var part := Region("", fs, made, mp);
            var rest := if made == rs[k].sizeMiB then [] else [rs[k].(sizeMiB := rs[k].sizeMiB - made)];
            var next := Coalesced(rs[..k] + [part] + (rest + rs[k + 1..]));
            SlotAt(rs, k) < |ShapeOf(rs).gaps| &&
            ShapeOf(next) == InsertPart(ShapeOf(rs), SlotAt(rs, k), part, rs[k].sizeMiB - made) &&
            Sound(next) && Total(next) == Total(rs)
  {
    hide ShapeOf, InsertPart, Coalesced, SlotAt;
    var made := if remaining then rs[k].sizeMiB else size;
    var part := Region("", fs, made, mp);
    var rest := if made == rs[k].sizeMiB then [] else [rs[k].(sizeMiB := rs[k].sizeMiB - made)];
    var raw := rs[..k] + [part] + (rest + rs[k + 1..]);
    CreateShape(rs, k, made, part);
    forall r | r in raw ensures r.IsFree() ==> r.mountpoint == "" {
      assert rs[k] in rs;
    }
    MergedKeeps(rs, raw);
  }

  /** Over any accepted list of operations the device size is kept, no two free regions become
      neighbours and none is ever mounted. */
  lemma {:induction false} RunKeepsInvariants(rs: seq<Region>, ops: seq<Operation>)
    requires Sound(rs) && PlanRun(rs, ops).Ok?
    ensures Sound(PlanRun(rs, ops).value)
    ensures Total(PlanRun(rs, ops).value) == Total(rs)
    decreases |ops|
  {
    if ops != [] {
      StepRefines(rs, ops[0]);
      RunKeepsInvariants(PlanStep(rs, ops[0]).value, ops[1..]);
    }
  }
}

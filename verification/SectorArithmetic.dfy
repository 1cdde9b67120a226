/** Conversions between MiB and device sectors, on 64-bit words. */
module SectorArithmetic {
  import opened StorageTypes

  const MIB := 0x10_0000

  /** Sectors needed for `mib` MiB; both the multiplication and the cast to the signed sector type can wrap. */
  function SectorsForMiB(sectorSize: int, mib: U64): (r: int)
    requires 0 < sectorSize <= MIB
  {
    var bytes := (mib * 0x10_0000) % 0x1_0000_0000_0000_0000;
    var rounded := (bytes + sectorSize - 1) % 0x1_0000_0000_0000_0000;
    Quotient(rounded, sectorSize)
  }

  function Quotient(word: U64, divisor: int): int
    requires 0 < divisor
  {
    DivisionInRange(word, divisor);
    ToSigned(word / divisor)
  }

  lemma DivisionInRange(word: U64, divisor: int)
    requires 0 < divisor
    ensures 0 <= word / divisor <= word
  {
    Division(word, divisor);
    if word / divisor > word {
      assert divisor * (word / divisor) >= word / divisor by { Scale(1, divisor, word / divisor); }
    }
  }

  /** Whole MiB in a number of sectors. */
  function SectorsToMiB(sectorSize: int, sectors: int): int
    requires 0 < sectorSize && 0 <= sectors
  {
    ((sectorSize * sectors) % 0x1_0000_0000_0000_0000) / 0x10_0000
  }

  lemma NoSectors(sectorSize: int)
    requires 0 < sectorSize
    ensures SectorsToMiB(sectorSize, 0) == 0
  {
    assert sectorSize * 0 == 0;
  }

  // ---------- division facts ----------

  lemma Division(a: int, d: int)
    requires 0 <= a && 0 < d
    ensures a == d * (a / d) + a % d && 0 <= a % d < d && 0 <= a / d
  {
  }

  lemma Scale(a: int, b: int, c: int)
    requires a <= b && 0 <= c
    ensures a * c <= b * c
  {
  }

  lemma QuotientIs(a: int, d: int, q: int, r: int)
    requires 0 < d && a == d * q + r && 0 <= r < d
    ensures a / d == q
  {
    var x, y := a / d, a % d;
    assert a == d * x + y && 0 <= y < d;
    assert d * (x - q) == r - y;
    if x > q { Scale(1, x - q, d); } else if x < q { Scale(1, q - x, d); }
  }

  /** The quotient is the largest multiple count that still fits. */
  lemma FloorAdjunction(m: int, n: int, d: int)
    requires 0 < d && 0 <= n
    ensures m * d <= n <==> m <= n / d
  {
    Division(n, d);
    var q := n / d;
    if m <= q { Scale(m, q, d); } else { Scale(q + 1, m, d); }
  }

  // ---------- what the conversions compute when a MiB is a whole number of sectors ----------

  /** `perMiB` sectors make one MiB. */
  ghost predicate WholeSectors(sectorSize: int, perMiB: int) {
    512 <= sectorSize <= MIB && 0 < perMiB && sectorSize * perMiB == MIB
  }

  lemma ForMiBExact(sectorSize: int, perMiB: int, mib: U64)
    requires WholeSectors(sectorSize, perMiB) && mib < 0x1000_0000_0000
    ensures SectorsForMiB(sectorSize, mib) == mib * perMiB
  {
    var bytes := mib * 0x10_0000;
    var count := mib * perMiB;
    assert bytes == sectorSize * count by {
      assert mib * (sectorSize * perMiB) == sectorSize * (mib * perMiB);
    }
    assert bytes % 0x1_0000_0000_0000_0000 == bytes;
    assert (bytes + sectorSize - 1) % 0x1_0000_0000_0000_0000 == bytes + sectorSize - 1;
    QuotientIs(bytes + sectorSize - 1, sectorSize, count, sectorSize - 1);
    assert count < TWO_63 by {
      Scale(512, sectorSize, count);
    }
  }

  lemma Distributed(a: int, b: int, q: int, r: int)
    ensures a * (b * q + r) == (a * b) * q + a * r
    ensures a * (r + 1) == a * r + a
  {
  }

  lemma ToMiBExact(sectorSize: int, perMiB: int, sectors: int)
    requires WholeSectors(sectorSize, perMiB) && 0 <= sectors && sectorSize * sectors < TWO_64
    ensures SectorsToMiB(sectorSize, sectors) == sectors / perMiB
  {
    assert 0 <= sectorSize * sectors by { Scale(0, sectorSize, sectors); }
    Division(sectors, perMiB);
    var q, r := sectors / perMiB, sectors % perMiB;
    Distributed(sectorSize, perMiB, q, r);
    assert 0 <= sectorSize * r < 0x10_0000 by {
      Scale(r + 1, perMiB, sectorSize);
      Scale(0, sectorSize, r);
    }
    QuotientIs(sectorSize * sectors, 0x10_0000, q, sectorSize * r);
  }

  /** A request fits in a run of sectors exactly when it is at most the run's whole MiB. */
  lemma Adjunction(sectorSize: int, perMiB: int, mib: U64, sectors: int)
    requires WholeSectors(sectorSize, perMiB) && mib < 0x1000_0000_0000
    requires 0 <= sectors && sectorSize * sectors < TWO_63
    ensures SectorsForMiB(sectorSize, mib) <= sectors <==> mib <= SectorsToMiB(sectorSize, sectors)
  {
    ForMiBExact(sectorSize, perMiB, mib);
    ToMiBExact(sectorSize, perMiB, sectors);
    FloorAdjunction(mib, sectors, perMiB);
  }

  ghost predicate AdjunctionAt(sectorSize: int, mib: U64, sectors: int)
    requires 0 < sectorSize <= MIB && 0 <= sectors
  {
    SectorsForMiB(sectorSize, mib) <= sectors <==> mib <= SectorsToMiB(sectorSize, sectors)
  }

  /** Over every run of sectors a disk below 2^63 bytes can have, the two conversions agree exactly for the
      requests whose byte count does not wrap into that range. */
  lemma AdjunctionExactly(sectorSize: int, perMiB: int, mib: U64)
    requires WholeSectors(sectorSize, perMiB)
    ensures (forall sectors | 0 <= sectors && sectorSize * sectors < TWO_63 :: AdjunctionAt(sectorSize, mib, sectors))
      <==> (mib < 0x1000_0000_0000 || mib % 0x1000_0000_0000 >= 0x800_0000_0000)
  {
    hide SectorsForMiB, SectorsToMiB;
    var low := mib % 0x1000_0000_0000;
    if mib < 0x1000_0000_0000 {
      forall sectors | 0 <= sectors && sectorSize * sectors < TWO_63 ensures AdjunctionAt(sectorSize, mib, sectors) {
        Adjunction(sectorSize, perMiB, mib, sectors);
      }
    } else {
      forall sectors | 0 <= sectors && sectorSize * sectors < TWO_63
        ensures AdjunctionAt(sectorSize, mib, sectors) <==> low > SectorsToMiB(sectorSize, sectors)
      {
        WrappedAdjunction(sectorSize, perMiB, mib, sectors);
      }
      if low < 0x800_0000_0000 {
        var wrapped := low * perMiB;
        assert 0 <= wrapped by { Scale(0, perMiB, low); }
        assert sectorSize * wrapped == 0x10_0000 * low by {
          assert sectorSize * (low * perMiB) == low * (sectorSize * perMiB);
        }
        ToMiBExact(sectorSize, perMiB, wrapped);
        FloorAdjunction(low, wrapped, perMiB);
        assert !AdjunctionAt(sectorSize, mib, wrapped);
      } else {
        forall sectors | 0 <= sectors && sectorSize * sectors < TWO_63 ensures AdjunctionAt(sectorSize, mib, sectors) {
          MiBBound(sectorSize, perMiB, sectors);
        }
      }
    }
  }

  /** A wrapped request is compared as its remainder, while the request itself exceeds every disk. */
  lemma WrappedAdjunction(sectorSize: int, perMiB: int, mib: U64, sectors: int)
    requires WholeSectors(sectorSize, perMiB) && mib >= 0x1000_0000_0000
    requires 0 <= sectors && sectorSize * sectors < TWO_63
    ensures AdjunctionAt(sectorSize, mib, sectors) <==>
            mib % 0x1000_0000_0000 > SectorsToMiB(sectorSize, sectors)
  {
    hide SectorsForMiB, SectorsToMiB;
    var low := mib % 0x1000_0000_0000;
    WrappedRequest(sectorSize, perMiB, mib);
    ForMiBExact(sectorSize, perMiB, low);
    Adjunction(sectorSize, perMiB, low, sectors);
    MiBBound(sectorSize, perMiB, sectors);
  }

  lemma WrappedRequest(sectorSize: int, perMiB: int, mib: U64)
    requires WholeSectors(sectorSize, perMiB)
    ensures SectorsForMiB(sectorSize, mib) == (mib % 0x1000_0000_0000) * perMiB
  {
    var low, high := mib % 0x1000_0000_0000, mib / 0x1000_0000_0000;
    Division(mib, 0x1000_0000_0000);
    ForMiBExact(sectorSize, perMiB, low);
    RemainderIs(mib * 0x10_0000, 0x1_0000_0000_0000_0000, high, low * 0x10_0000);
    RemainderIs(low * 0x10_0000, 0x1_0000_0000_0000_0000, 0, low * 0x10_0000);
    hide Quotient;
    assert SectorsForMiB(sectorSize, mib) == SectorsForMiB(sectorSize, low);
  }

  lemma RemainderIs(a: int, d: int, q: int, r: int)
    requires 0 < d && a == d * q + r && 0 <= r < d
    ensures a % d == r
  {
    QuotientIs(a, d, q, r);
  }

  lemma MiBBound(sectorSize: int, perMiB: int, sectors: int)
    requires WholeSectors(sectorSize, perMiB) && 0 <= sectors && sectorSize * sectors < TWO_63
    ensures 0 <= SectorsToMiB(sectorSize, sectors) < 0x800_0000_0000
  {
    ToMiBExact(sectorSize, perMiB, sectors);
    Division(sectors, perMiB);
    var q := sectors / perMiB;
    Scale(perMiB * q, sectors, sectorSize);
    assert sectorSize * (perMiB * q) == 0x10_0000 * q by {
      assert sectorSize * (perMiB * q) == (sectorSize * perMiB) * q;
    }
  }
}

/**
 What the code makes of values below 19 (crates/webgate-core/src/ed25519.rs:308-458): no operation leads
 from limbs of value 19 or more to less, so a residue below 19 that was computed appears as itself plus p,
 and to_bytes writes it as itself plus 19.
 */
module FieldLarge {
  import opened Words
  import opened Arith
  import opened LittleEndian
  import opened FieldElements
  import opened FieldEncoding
  import opened FieldZero
  import opened EdwardsPoints
  import opened PointEncoding

  /** The value is 19 or more. */
  predicate Large(a: FieldElement) {
    a.l0 >= 19 || a.l1 > 0 || a.l2 > 0 || a.l3 > 0 || a.l4 > 0
  }

  lemma LargeValue(a: FieldElement)
    ensures Large(a) <==> a.Value() >= 19
  {
  }

  lemma LargePositive(a: FieldElement)
    requires Large(a)
    ensures Positive(a)
  {
  }

  // ---------------------------------------------------------------- no operation falls below 19

  lemma CarryLarge(a: FieldElement)
    requires a.l1 <= 0xffff_ffff_ffff_e000 && a.l2 <= 0xffff_ffff_ffff_e000
    requires a.l3 <= 0xffff_ffff_ffff_e000 && a.l4 <= 0xffff_ffff_ffff_e000
    requires Large(a)
    ensures Large(a.Carry())
  {
    hide FieldElement.Value, FieldElement.Carry, Cong, Large;
    LargeValue(a);
    LargeValue(a.Carry());
    CarryFolds(a);
    FoldedLarge(a.Value());
  }

  lemma FoldedLarge(v: int)
    requires v >= 19
    ensures v % TWO255 + 19 * (v / TWO255) >= 19
  {
    if v < TWO255 {
      DivModUnique(v, 0, v, TWO255);
    }
  }

  /** Five columns carried upwards, the last carry coming back nineteenfold: below 19 only from below 19. */
  lemma LargeDigits(r0: nat, r1: nat, r2: nat, r3: nat, r4: nat)
    requires r0 >= 19 || r1 > 0 || r2 > 0 || r3 > 0 || r4 > 0
    ensures var L := 0x8_0000_0000_0000;
      var s1 := r1 + r0 / L; var s2 := r2 + s1 / L; var s3 := r3 + s2 / L; var s4 := r4 + s3 / L;
      r0 % L + s4 / L * 19 >= 19 || s1 % L > 0 || s2 % L > 0 || s3 % L > 0 || s4 % L > 0
  {
  }

  lemma ReduceLarge(r0: u128, r1: u128, r2: u128, r3: u128, r4: u128)
    requires r0 <= 77 * SQUARE54 && r1 <= 59 * SQUARE54 && r2 <= 41 * SQUARE54
    requires r3 <= 23 * SQUARE54 && r4 <= 5 * SQUARE54
    requires r0 >= 19 || r1 > 0 || r2 > 0 || r3 > 0 || r4 > 0
    ensures Large(ReduceColumns(r0, r1, r2, r3, r4))
  {
    hide Cong, Weighted, FieldElement.Value, Low51;
    LargeDigits(r0 as int, r1 as int, r2 as int, r3 as int, r4 as int);
  }

  /** A product of one factor of value 19 or more and one that is not zero stands in some column. */
  lemma ColumnsLarge(a: FieldElement, b: FieldElement)
    requires a.Below(0x40_0000_0000_0000) && b.Below(0x40_0000_0000_0000)
    requires Positive(a) && Positive(b) && (Large(a) || Large(b))
    ensures var (r0, r1, r2, r3, r4) := a.Columns(b); r0 >= 19 || r1 > 0 || r2 > 0 || r3 > 0 || r4 > 0
  {
    hide M, M19;
    forall x: u64, y: u64 {:trigger M(x, y)} | 0 < x < 0x40_0000_0000_0000 && 0 < y < 0x40_0000_0000_0000
      ensures M(x, y) > 0 && (x >= 19 || y >= 19 ==> M(x, y) >= 19)
    {
      ProductLarge(x as int, y as int);
    }
    forall x: u64, y: u64 {:trigger M19(x, y)} | 0 < x < 0x40_0000_0000_0000 && 0 < y < 0x40_0000_0000_0000
      ensures M19(x, y) >= 19
    {
      ProductLarge(x as int, y as int);
    }
  }

  lemma ProductLarge(x: int, y: int)
    requires x > 0 && y > 0
    ensures x * y > 0 && (x >= 19 || y >= 19 ==> x * y >= 19)
  {
  }

  lemma MulLarge(a: FieldElement, b: FieldElement)
    requires a.Below(0x40_0000_0000_0000) && b.Below(0x40_0000_0000_0000)
    requires Positive(a) && Positive(b) && (Large(a) || Large(b))
    ensures Large(a.Mul(b)) && Positive(a.Mul(b)) && a.Mul(b).Below(0x40_0000_0000_0000)
  {
    hide Large, Positive, Cong, FieldElement.Value, FieldElement.Carry, ReduceColumns, FieldElement.Columns;
    MulExact(a, b);
    ColumnsLarge(a, b);
    var (r0, r1, r2, r3, r4) := a.Columns(b);
    ReduceLarge(r0, r1, r2, r3, r4);
    CarryLarge(ReduceColumns(r0, r1, r2, r3, r4));
    LargePositive(a.Mul(b));
  }

  /** The offset 4p of a difference is far above 19. */
  lemma SubLarge(a: FieldElement, b: FieldElement)
    requires a.Below(0x40_0000_0000_0000) && b.Subtrahend() && b.Value() < 3 * TWO255
    ensures Large(a.Sub(b)) && Positive(a.Sub(b))
  {
    hide FieldElement.Value, FieldElement.Carry, Large, Positive, Cong;
    SpreadValue(a, b);
    LargeValue(a.Spread(b));
    CarryLarge(a.Spread(b));
    LargePositive(a.Sub(b));
  }

  lemma SpreadValue(a: FieldElement, b: FieldElement)
    requires a.Below(0x40_0000_0000_0000) && b.Subtrahend()
    ensures a.Spread(b).Value() == a.Value() + 4 * P - b.Value()
    ensures a.Spread(b).Below(0x80_0000_0000_0000)
  {
  }

  lemma TightValue(a: FieldElement)
    requires a.Tight()
    ensures a.Value() < TWO255 + 0x400
  {
    WeightedBound(0, a.l1 as int, a.l2 as int, a.l3 as int, a.l4 as int);
    TightSum(a.l0 as int, a.l1 as int, a.l2 as int, a.l3 as int, a.l4 as int);
  }

  lemma TightSum(l0: int, l1: int, l2: int, l3: int, l4: int)
    requires 0 <= l0 < 0x8_0000_0000_0400 && 0 <= l1 < 0x8_0000_0000_0000 && 0 <= l2 < 0x8_0000_0000_0000
    requires 0 <= l3 < 0x8_0000_0000_0000 && 0 <= l4 < 0x8_0000_0000_0000
    ensures Weighted(l0, l1, l2, l3, l4) < TWO255 + 0x400
  {
  }

  // ---------------------------------------------------------------- what is written

  /** What to_bytes writes for a residue that was computed. */
  function Written(r: int): int {
    if r < 19 then r + 19 else r
  }

  lemma SettledLarge(a: FieldElement)
    requires a.Below(0x8000_0000_0000_0000) && Large(a)
    ensures Settled(a).Value() >= 19
  {
    hide Large, FieldElement.Value, Cong, FieldElement.Carry;
    CarrySettles(a);
    CarryLarge(a);
    CarryLarge(a.Carry());
    CarryLarge(a.Carry().Carry());
    LargeValue(Settled(a));
  }

  /** to_bytes writes a value of 19 or more by its residue alone. */
  lemma ToBytesWritten(a: FieldElement)
    requires a.Below(0x8000_0000_0000_0000) && Large(a)
    ensures ValueOf(256, ToBytes(a)) == Written(a.Value() % P)
  {
    hide Large, FieldElement.Value, Cong, Settled, ToBytes, ValueOf;
    SettledLarge(a);
    SettledResidue(a);
    ToBytesValueOf(a);
  }

  /** Two such values are written alike exactly when that number is the same. */
  lemma WrittenAlike(a: FieldElement, b: FieldElement)
    requires a.Below(0x8000_0000_0000_0000) && Large(a) && b.Below(0x8000_0000_0000_0000) && Large(b)
    ensures ToBytes(a) == ToBytes(b) <==> Written(a.Value() % P) == Written(b.Value() % P)
  {
    hide Large, FieldElement.Value, Cong, Settled, ToBytes, ValueOf, Written;
    ToBytesWritten(a);
    ToBytesWritten(b);
    if ValueOf(256, ToBytes(a)) == ValueOf(256, ToBytes(b)) {
      ValueInjective(256, ToBytes(a), ToBytes(b));
    }
  }

  /** The sign bit is that of the number written. */
  lemma SignWritten(a: FieldElement)
    requires a.Below(0x8000_0000_0000_0000) && Large(a)
    ensures IsNegative(a) <==> Written(a.Value() % P) % 2 != 0
  {
    hide Large, FieldElement.Value, Cong, Settled, ToBytes, ValueOf, Written;
    ToBytesWritten(a);
    LowBit(ToBytes(a));
  }
}

/**
 What the code makes of zero (crates/webgate-core/src/ed25519.rs:527-533, 628-673): no operation turns
 non-zero limbs into zero limbs, so a residue of zero that was computed appears as p.
 */
module FieldZero {
  import opened Wrappers
  import opened Words
  import opened Arith
  import opened LittleEndian
  import opened FieldElements
  import opened FieldEncoding
  import opened FieldPower
  import opened EdwardsPoints
  import opened PointEncoding
  import Scalars

  /** Some limb is not zero. */
  predicate Positive(a: FieldElement) {
    a.l0 > 0 || a.l1 > 0 || a.l2 > 0 || a.l3 > 0 || a.l4 > 0
  }

  lemma PositiveValue(a: FieldElement)
    ensures Positive(a) <==> a.Value() > 0
  {
  }

  // ---------------------------------------------------------------- no operation reaches zero

  lemma CarryPositive(a: FieldElement)
    requires a.l1 <= 0xffff_ffff_ffff_e000 && a.l2 <= 0xffff_ffff_ffff_e000
    requires a.l3 <= 0xffff_ffff_ffff_e000 && a.l4 <= 0xffff_ffff_ffff_e000
    requires Positive(a)
    ensures Positive(a.Carry())
  {
    hide FieldElement.Value, FieldElement.Carry, Cong, Positive;
    PositiveValue(a);
    PositiveValue(a.Carry());
    CarryFolds(a);
    Folded(a.Value());
  }

  lemma Folded(v: int)
    requires v > 0
    ensures v % TWO255 + 19 * (v / TWO255) > 0
  {
  }

  /** Five columns carried upwards, the last carry coming back nineteenfold: all zero only from all zero. */
  lemma ZeroDigits(r0: nat, r1: nat, r2: nat, r3: nat, r4: nat)
    requires r0 > 0 || r1 > 0 || r2 > 0 || r3 > 0 || r4 > 0
    ensures var L := 0x8_0000_0000_0000;
      var s1 := r1 + r0 / L; var s2 := r2 + s1 / L; var s3 := r3 + s2 / L; var s4 := r4 + s3 / L;
      r0 % L + s4 / L * 19 > 0 || s1 % L > 0 || s2 % L > 0 || s3 % L > 0 || s4 % L > 0
  {
  }

  lemma ReducePositive(r0: u128, r1: u128, r2: u128, r3: u128, r4: u128)
    requires r0 <= 77 * SQUARE54 && r1 <= 59 * SQUARE54 && r2 <= 41 * SQUARE54
    requires r3 <= 23 * SQUARE54 && r4 <= 5 * SQUARE54
    requires r0 > 0 || r1 > 0 || r2 > 0 || r3 > 0 || r4 > 0
    ensures Positive(ReduceColumns(r0, r1, r2, r3, r4))
  {
    hide Cong, Weighted, FieldElement.Value, Low51;
    ZeroDigits(r0 as int, r1 as int, r2 as int, r3 as int, r4 as int);
  }

  lemma ProductPositive(x: int, y: int)
    requires x > 0 && y > 0
    ensures x * y > 0
  {
  }

  /** A product of positive limbs stands in some column. */
  lemma ColumnsPositive(a: FieldElement, b: FieldElement)
    requires a.Below(0x40_0000_0000_0000) && b.Below(0x40_0000_0000_0000) && Positive(a) && Positive(b)
    ensures var (r0, r1, r2, r3, r4) := a.Columns(b); r0 > 0 || r1 > 0 || r2 > 0 || r3 > 0 || r4 > 0
  {
    hide M, M19;
    forall x: u64, y: u64 {:trigger M(x, y)} | 0 < x < 0x40_0000_0000_0000 && 0 < y < 0x40_0000_0000_0000
      ensures M(x, y) > 0
    {
      ProductPositive(x as int, y as int);
    }
    forall x: u64, y: u64 {:trigger M19(x, y)} | 0 < x < 0x40_0000_0000_0000 && 0 < y < 0x40_0000_0000_0000
      ensures M19(x, y) > 0
    {
      ProductPositive(x as int, y as int);
    }
  }

  lemma MulPositive(a: FieldElement, b: FieldElement)
    requires a.Below(0x40_0000_0000_0000) && b.Below(0x40_0000_0000_0000) && Positive(a) && Positive(b)
    ensures Positive(a.Mul(b)) && a.Mul(b).Below(0x40_0000_0000_0000)
  {
    hide Positive, Cong, FieldElement.Value, FieldElement.Carry, ReduceColumns, FieldElement.Columns;
    MulExact(a, b);
    ColumnsPositive(a, b);
    var (r0, r1, r2, r3, r4) := a.Columns(b);
    ReducePositive(r0, r1, r2, r3, r4);
    CarryPositive(ReduceColumns(r0, r1, r2, r3, r4));
  }

  lemma SubPositive(a: FieldElement, b: FieldElement)
    requires a.Below(0x40_0000_0000_0000) && b.Tight()
    ensures b.Subtrahend() && Positive(a.Sub(b))
  {
    hide FieldElement.Carry;
    CarryPositive(a.Spread(b));
  }

  lemma {:induction false} SquareTimesPositive(t: FieldElement, n: nat)
    requires t.Below(0x40_0000_0000_0000) && Positive(t)
    ensures Positive(SquareTimes(t, n))
    decreases n
  {
    hide Positive, FieldElement.Mul;
    if n > 0 {
      MulPositive(t, t);
      SquareTimesPositive(t.Square(), n - 1);
    }
  }

  lemma StepPositive(t: FieldElement, n: nat, s: FieldElement)
    requires t.Below(0x40_0000_0000_0000) && s.Below(0x40_0000_0000_0000) && Positive(t) && Positive(s)
    ensures Positive(SquareTimes(t, n).Mul(s)) && SquareTimes(t, n).Mul(s).Below(0x40_0000_0000_0000)
  {
    hide Positive, FieldElement.Mul, SquareTimes;
    SquareTimesPositive(t, n);
    MulPositive(SquareTimes(t, n), s);
  }

  lemma PowPositive(a: FieldElement)
    requires a.Below(0x40_0000_0000_0000) && Positive(a)
    ensures Positive(Pow22523(a))
  {
    hide Positive, FieldElement.Mul, FieldElement.Below, SquareTimes;
    MulPositive(a, a);
    var x := a.Square();
    MulPositive(x, a);
    var t2 := x.Mul(a);
    MulPositive(t2, t2);
    MulPositive(t2.Square(), t2.Square());
    MulPositive(t2.Square().Square(), t2);
    var t4 := t2.Square().Square().Mul(t2);
    MulPositive(t4, t4);
    MulPositive(t4.Square(), a);
    var t5 := t4.Square().Mul(a);
    StepPositive(t5, 5, t5);
    var t10 := SquareTimes(t5, 5).Mul(t5);
    StepPositive(t10, 10, t10);
    var t20 := SquareTimes(t10, 10).Mul(t10);
    StepPositive(t20, 20, t20);
    var t40 := SquareTimes(t20, 20).Mul(t20);
    StepPositive(t40, 10, t10);
    var t50 := SquareTimes(t40, 10).Mul(t10);
    StepPositive(t50, 50, t50);
    var t100 := SquareTimes(t50, 50).Mul(t50);
    StepPositive(t100, 100, t100);
    var t200 := SquareTimes(t100, 100).Mul(t100);
    StepPositive(t200, 50, t50);
    var t250 := SquareTimes(t200, 50).Mul(t50);
    MulPositive(t250, t250);
    MulPositive(t250.Square(), t250.Square());
    MulPositive(t250.Square().Square(), a);
  }

  lemma InvertPositive(a: FieldElement)
    requires a.Below(0x40_0000_0000_0000) && Positive(a)
    ensures Positive(Invert(a))
  {
    hide Positive, FieldElement.Mul, FieldElement.Below, Pow22523;
    PowPositive(a);
    var p := Pow22523(a);
    MulPositive(p, p);
    MulPositive(p.Square(), p.Square());
    MulPositive(p.Square().Square(), p.Square().Square());
    MulPositive(a, a);
    MulPositive(a.Square(), a);
    MulPositive(p.Square().Square().Square(), a.Square().Mul(a));
  }

  // ---------------------------------------------------------------- how zero is seen

  lemma SettledPositive(a: FieldElement)
    requires a.Below(0x8000_0000_0000_0000)
    ensures Positive(a) <==> Settled(a).Value() > 0
  {
    hide Positive, FieldElement.Value, Cong, FieldElement.Carry;
    CarrySettles(a);
    PositiveValue(Settled(a));
    if Positive(a) {
      CarryPositive(a);
      CarryPositive(a.Carry());
    } else {
      ZeroSettles(a);
    }
  }

  lemma ZeroSettles(a: FieldElement)
    requires !Positive(a)
    ensures a.Below(0x8000_0000_0000_0000) && Settled(a) == a && a.Value() == 0
  {
    assert a == FieldElement(0, 0, 0, 0, 0);
    CanonicalCarry(a);
  }

  /** A residue of zero settles as zero or as p; in limbs that are not all zero, as p. */
  lemma ZeroSettlesAsP(a: FieldElement)
    requires a.Below(0x8000_0000_0000_0000) && Cong(a.Value(), 0, P)
    ensures Settled(a).Value() == if Positive(a) then P else 0
  {
    hide Positive, FieldElement.Value, Cong, Settled;
    SettledPositive(a);
    SettledResidue(a);
    CongIffMod(a.Value(), 0, P);
  }

  lemma ZerosValue()
    ensures ValueOf(256, seq<byte>(32, _ => 0)) == 0
  {
    var s: seq<byte> := seq(32, _ => 0);
    forall i | 0 <= i < |s| ensures s[i] == 0 {
    }
    Scalars.ZeroValue(256, s);
  }

  /** is_zero sees limbs, not residues: it is true exactly of the zero limbs. */
  lemma IsZeroLimbs(a: FieldElement)
    requires a.Tight()
    ensures IsZero(a) <==> !Positive(a)
  {
    hide Positive, FieldElement.Value, Cong, Settled, ToBytes, ValueOf;
    DecodeBounds();
    ToBytesValueOf(a);
    SettledPositive(a);
    ZerosValue();
    if ValueOf(256, ToBytes(a)) == 0 {
      ValueInjective(256, ToBytes(a), seq(32, _ => 0));
    }
  }

  /** is_zero recognises a residue of zero exactly unless it settles as p. */
  lemma IsZeroExact(a: FieldElement)
    requires a.Tight()
    ensures a.Below(0x8000_0000_0000_0000)
    ensures (IsZero(a) <==> Cong(a.Value(), 0, P)) <==> Settled(a).Value() != P
  {
    hide Positive, FieldElement.Value, Cong, Settled, IsZero;
    DecodeBounds();
    IsZeroLimbs(a);
    SettledPositive(a);
    if Cong(a.Value(), 0, P) {
      ZeroSettlesAsP(a);
    } else {
      SettledResidue(a);
      CongIffMod(a.Value(), 0, P);
      ZeroLimbs(a);
    }
  }

  lemma ZeroLimbs(a: FieldElement)
    ensures !Positive(a) ==> Cong(a.Value(), 0, P)
  {
    CongRefl(0, P);
  }

  // ---------------------------------------------------------------- decoding where x is zero

  /** u = y^2 - 1 never has zero limbs, whatever y. */
  lemma CurvePositive(y: FieldElement)
    requires y.Below(0x40_0000_0000_0000)
    ensures Positive(CurveU(y)) && Positive(CurveV(y)) && Positive(XSquared(y))
  {
    hide FieldElement.Mul, FieldElement.Sub, Invert, Positive;
    DecodeBounds();
    SubPositive(y.Square(), ONE);
    AddOnePositive(D.Mul(y.Square()));
    InvertPositive(CurveV(y));
    MulPositive(CurveU(y), Invert(CurveV(y)));
  }

  lemma AddOnePositive(a: FieldElement)
    requires a.Tight()
    ensures Positive(a.Add(ONE))
  {
  }

  /** The guard of decompress for x = 0 is taken for no input. */
  lemma GuardNeverTaken(bytes: seq<byte>)
    requires |bytes| == 32
    ensures DecodedY(bytes).Below(0x40_0000_0000_0000) && !IsZero(XSquared(DecodedY(bytes)))
  {
    hide XSquared, IsZero, DecodedY, Positive;
    CurvePositive(DecodedY(bytes));
    IsZeroLimbs(XSquared(DecodedY(bytes)));
  }

  lemma MulZero(a: FieldElement, b: FieldElement)
    requires a.Below(0x40_0000_0000_0000) && b.Below(0x40_0000_0000_0000) && Cong(a.Value(), 0, P)
    ensures Cong(a.Mul(b).Value(), 0, P)
  {
    hide FieldElement.Value, FieldElement.Mul, Cong;
    MulExact(a, b);
    CongRefl(b.Value(), P);
    CongMul(a.Value(), 0, b.Value(), b.Value(), P);
    CongTrans(a.Mul(b).Value(), a.Value() * b.Value(), 0, P);
  }

  lemma CurveUZero(y: FieldElement)
    requires y.Below(0x40_0000_0000_0000) && Cong(y.Value() * y.Value(), 1, P)
    ensures Cong(CurveU(y).Value(), 0, P)
  {
    hide FieldElement.Value, FieldElement.Mul, FieldElement.Sub, Cong;
    DecodeBounds();
    SmallConstants();
    MulExact(y, y);
    CongTrans(y.Square().Value(), y.Value() * y.Value(), 1, P);
    SubExact(y.Square(), ONE);
    CongRefl(1, P);
    CongSub(y.Square().Value(), 1, 1, 1, P);
    CongTrans(CurveU(y).Value(), y.Square().Value() - 1, 0, P);
  }

  /** With u zero, the candidate and u / v are both a zero that settles as p. */
  lemma CandidateZero(y: FieldElement)
    requires y.Below(0x40_0000_0000_0000) && Cong(CurveU(y).Value(), 0, P)
    ensures Cong(Candidate(y).Value(), 0, P) && Positive(Candidate(y))
    ensures Cong(XSquared(y).Value(), 0, P) && Positive(XSquared(y))
  {
    hide FieldElement.Value, FieldElement.Mul, FieldElement.Below, CurveU, CurveV, Pow22523, Invert, Cong, Positive;
    DecodeBounds();
    CurvePositive(y);
    var u, v := CurveU(y), CurveV(y);
    MulZero(u, Invert(v));
    MulPositive(v, v);
    MulPositive(v.Square(), v);
    MulPositive(v.Square(), v.Square());
    MulZero(u, v.Square().Mul(v));
    MulPositive(u, v.Square().Mul(v));
    var uv3 := u.Mul(v.Square().Mul(v));
    MulPositive(uv3, v.Square().Mul(v.Square()));
    var uv7 := uv3.Mul(v.Square().Mul(v.Square()));
    PowPositive(uv7);
    MulZero(uv3, Pow22523(uv7));
    MulPositive(uv3, Pow22523(uv7));
  }

  /** Two zeros in limbs that are not all zero are encoded alike, as 19. */
  lemma ZerosEncodedAlike(a: FieldElement, b: FieldElement)
    requires a.Below(0x8000_0000_0000_0000) && b.Below(0x8000_0000_0000_0000)
    requires Cong(a.Value(), 0, P) && Positive(a) && Cong(b.Value(), 0, P) && Positive(b)
    ensures ToBytes(a) == ToBytes(b) && ValueOf(256, ToBytes(a)) == 19
  {
    hide FieldElement.Value, Cong, Positive, Settled, ToBytes, ValueOf;
    ZeroSettlesAsP(a);
    ZeroSettlesAsP(b);
    ToBytesValueOf(a);
    ToBytesValueOf(b);
    ValueInjective(256, ToBytes(a), ToBytes(b));
  }

  lemma SquaresToZero(x: FieldElement, x2: FieldElement)
    requires x.Tight() && x2.Tight() && Cong(x.Value(), 0, P) && Positive(x) && Cong(x2.Value(), 0, P) && Positive(x2)
    ensures SquaresTo(x, x2)
  {
    hide FieldElement.Value, FieldElement.Mul, Cong, Positive, ToBytes;
    DecodeBounds();
    MulZero(x, x);
    MulPositive(x, x);
    ZerosEncodedAlike(x.Square(), x2);
  }

  /**
   Every encoding of a y with y^2 = 1, where x is zero, is decoded whatever its sign bit. Section 5.1.3
   of RFC 8032 refuses it when that bit is set.
   */
  lemma ZeroXDecodes(bytes: seq<byte>)
    requires |bytes| == 32 && Cong(DecodedY(bytes).Value() * DecodedY(bytes).Value(), 1, P)
    ensures Decompress(bytes).Some?
  {
    hide FieldElement.Value, Cong, Positive, Candidate, XSquared, CurveU, SquaresTo, IsZero, DecodedY, WithSign,
      FromAffine, OnYAxis;
    var y := DecodedY(bytes);
    CurveUZero(y);
    CandidateZero(y);
    SquaresToZero(Candidate(y), XSquared(y));
    GuardNeverTaken(bytes);
  }

  /** The encoding of y = 1 with the sign bit set. */
  function SignedOne(): (s: seq<byte>)
    ensures |s| == 32
  {
    seq(32, i => if i == 0 then 1 else if i == 31 then 0x80 else 0)
  }

  lemma SignedOneValue()
    ensures ValueOf(256, SignedOne()) == 1 + TWO255
  {
    var low: seq<byte> := seq(31, i => if i == 0 then 1 else 0);
    var zeros: seq<byte> := seq(30, _ => 0);
    assert SignedOne() == low + [0x80];
    assert low == [1] + zeros;
    BytePowers();
    hide Pow;
    ValueAppend(256, low, [0x80]);
    OneDigit(0x80);
    OneDigit(1);
    ValueAppend(256, [1], zeros);
    Scalars.ZeroValue(256, zeros);
    assert Pow(256, 1) * 0 == 0;
  }

  /** A concrete one that is decoded: 1 in the first byte, the sign bit in the last. */
  lemma SignedOneDecodes()
    ensures Decompress(SignedOne()).Some?
  {
    hide FieldElement.Value, ValueOf, Decompress, SignedOne, FromBytes, Cong;
    SignedOneValue();
    FromBytesValue(SignedOne());
    assert (1 + TWO255) % TWO255 == 1;
    CongRefl(1, P);
    ZeroXDecodes(SignedOne());
  }
}

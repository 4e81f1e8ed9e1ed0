/** The 256-step double-and-add of crates/webgate-core/src/ed25519.rs:675-687. */
module ScalarMultiplication {
  import opened Words
  import opened Arith
  import opened LittleEndian
  import opened FieldElements
  import opened EdwardsAlgebra
  import opened EdwardsGroup
  import opened EdwardsPoints

  /**
   A point the code may meet: bounded limbs, on the curve, Z not zero modulo p. Said of a name for its
   integers, so that the curve equations over limbs only come up where they are asked for.
   */
  ghost predicate Valid(p: EdwardsPoint) {
    p.Bounded() && forall q {:trigger Proper(q, CurveD(), P)} | q == p.Ints() :: Proper(q, CurveD(), P)
  }

  lemma ValidProper(p: EdwardsPoint)
    requires Valid(p)
    ensures Proper(p.Ints(), CurveD(), P)
  {
    hide FieldElement.Value;
  }

  /** Number theory taken as given: p is prime, and d is not a square modulo p. */
  ghost predicate PrimeAndNonSquare() {
    && (forall a {:trigger Invertible(a, P)} | !Cong(a, 0, P) :: Invertible(a, P))
    && (forall s :: !RootOf(s, CurveD(), P))
  }

  lemma FieldFacts()
    requires PrimeAndNonSquare()
    ensures CurveField(CurveD(), SQRT_M1.Value(), P)
  {
    hide Cong, FieldElement.Value;
    Constants();
    FourIsNotZero();
  }

  lemma FourIsNotZero()
    ensures !Cong(4, 0, P)
  {
    if Cong(4, 0, P) {
      var k := CongElim(4, 0, P);
      assert false;
    }
  }

  /** The affine point a valid point stands for. */
  ghost function PointOf(p: EdwardsPoint): Affine
    requires PrimeAndNonSquare() && Valid(p)
  {
    hide FieldElement.Value, Cong, CurveD;
    ValidProper(p);
    ToAffine(p.Ints(), P)
  }

  lemma ValidOnAffine(p: EdwardsPoint)
    requires PrimeAndNonSquare() && Valid(p)
    ensures OnAffine(PointOf(p), CurveD(), P)
  {
    hide FieldElement.Value, Cong, CurveD, ToAffine, OnAffine;
    FieldFacts();
    ValidProper(p);
    ImageOnAffine(p.Ints(), CurveD(), P);
  }

  /** Adding valid points: the result is valid, and is their sum on the curve. */
  lemma AddValid(p: EdwardsPoint, q: EdwardsPoint)
    requires PrimeAndNonSquare() && Valid(p) && Valid(q)
    ensures Valid(p.Add(q))
    ensures PointOf(p.Add(q)) == AffineSum(PointOf(p), PointOf(q), CurveD(), P)
  {
    hide Cong, FieldElement.Value, FieldElement.Mul, EdwardsPoint.Add, EdwardsPoint.Bounded, CurveD, CurveField,
      ToAffine, AffineSum, Sum, Proper;
    FieldFacts();
    AddRefines(p, q);
    SumProper(p.Ints(), q.Ints(), CurveD(), SQRT_M1.Value(), P);
    SumIsAffine(p.Ints(), q.Ints(), CurveD(), SQRT_M1.Value(), P);
    CopyProper(p.Add(q).Ints(), Sum(p.Ints(), q.Ints(), CurveD()), CurveD(), SQRT_M1.Value(), P);
  }

  /** Doubling a valid point: the result is valid, and is the point added to itself. */
  lemma DoubleValid(p: EdwardsPoint)
    requires PrimeAndNonSquare() && Valid(p)
    ensures Valid(p.Double())
    ensures PointOf(p.Double()) == AffineSum(PointOf(p), PointOf(p), CurveD(), P)
  {
    hide Cong, FieldElement.Value, FieldElement.Mul, EdwardsPoint.Double, EdwardsPoint.Bounded, CurveD, CurveField,
      ToAffine, AffineSum, Twice, Sum, Proper;
    FieldFacts();
    DoubleRefines(p);
    TwiceIsAffine(p.Ints(), CurveD(), SQRT_M1.Value(), P);
    CopyProper(p.Double().Ints(), Twice(p.Ints()), CurveD(), SQRT_M1.Value(), P);
  }

  /** Bit i of the scalar, least significant first. */
  function BitAt(scalar: seq<byte>, i: nat): int
    requires i < 8 * |scalar|
  {
    scalar[i / 8] / Pow(2, i % 8) % 2
  }

  /** The result after the bits from 255 down to i have been processed. */
  function Ladder(p: EdwardsPoint, scalar: seq<byte>, i: nat): (r: EdwardsPoint)
    requires p.Bounded() && |scalar| == 32 && i <= 256
    ensures r.Bounded()
    decreases 256 - i
  {
    hide FieldElement.Value, FieldElement.Mul, Cong, EdwardsPoint.Add, EdwardsPoint.Double, Sum, Twice, CurveD, Pow;
    if i == 256 then IDENTITY else
      var r := Ladder(p, scalar, i + 1);
      DoubleRefines(r);
      var s := r.Double();
      AddRefines(s, p);
      if BitAt(scalar, i) != 0 then s.Add(p) else s
  }

  function ScalarMul(p: EdwardsPoint, scalar: seq<byte>): (r: EdwardsPoint)
    requires p.Bounded() && |scalar| == 32
    ensures r.Bounded()
  {
    Ladder(p, scalar, 0)
  }

  /** The loop computes the ladder. */
  method ComputeScalarMul(p: EdwardsPoint, scalar: seq<byte>) returns (result: EdwardsPoint)
    requires p.Bounded() && |scalar| == 32
    ensures result == ScalarMul(p, scalar)
  {
    hide EdwardsPoint.Add, EdwardsPoint.Double, FieldElement.Value, Pow, Cong;
    result := IDENTITY;
    for i := 256 downto 0
      invariant result == Ladder(p, scalar, i)
    {
      DoubleRefines(result);
      result := result.Double();
      var byteIdx, bitIdx := i / 8, i % 8;
      if scalar[byteIdx] / Pow(2, bitIdx) % 2 != 0 {
        result := result.Add(p);
      }
    }
  }

  /** Bit i of the scalar's value is the bit the loop looks at. */
  lemma BitOfValue(scalar: seq<byte>, i: nat)
    requires i < 8 * |scalar|
    ensures ValueOf(256, scalar) / Pow(2, i) % 2 == BitAt(scalar, i)
  {
    EightBits();
    BitOfDigits(8, scalar, i);
  }

  lemma EightBits()
    ensures Pow(2, 8) == 256
  {
    PowAdd(2, 4, 4);
    assert Pow(2, 4) == 2 * Pow(2, 3) == 4 * Pow(2, 2) == 16;
  }

  /** Every intermediate of the loop keeps the limb bounds and stays on the curve. */
  lemma {:induction false} LadderOnCurve(p: EdwardsPoint, scalar: seq<byte>, i: nat)
    requires p.Bounded() && p.Ints().OnCurve(CurveD(), P) && |scalar| == 32 && i <= 256
    ensures Ladder(p, scalar, i).Bounded() && Ladder(p, scalar, i).Ints().OnCurve(CurveD(), P)
    decreases 256 - i
  {
    hide Cong, FieldElement.Value, EdwardsPoint.Add, EdwardsPoint.Double, CurveD, Sum, Twice;
    if i == 256 {
      IdentityInts();
      OriginOnCurve(CurveD(), P);
    } else {
      LadderOnCurve(p, scalar, i + 1);
      var r := Ladder(p, scalar, i + 1);
      DoubleRefines(r);
      TwiceOnCurve(r.Ints(), CurveD(), P);
      CopyOnCurve(r.Double().Ints(), Twice(r.Ints()), CurveD(), P);
      AddRefines(r.Double(), p);
      SumOnCurve(r.Double().Ints(), p.Ints(), CurveD(), P);
      CopyOnCurve(r.Double().Add(p).Ints(), Sum(r.Double().Ints(), p.Ints(), CurveD()), CurveD(), P);
    }
  }

  lemma OriginOnCurve(d: int, m: int)
    ensures Extended(0, 1, 1, 0).OnCurve(d, m)
  {
    CongRefl(0, m);
    CongRefl(1, m);
  }

  /** After the bits from i up, the ladder holds [n >> i]P, for n the scalar's value. */
  lemma {:induction false} LadderMultiple(p: EdwardsPoint, scalar: seq<byte>, i: nat)
    requires PrimeAndNonSquare() && Associative(CurveD(), P)
    requires Valid(p) && |scalar| == 32 && i <= 256
    ensures ValueOf(256, scalar) / Pow(2, i) >= 0
    ensures Valid(Ladder(p, scalar, i))
    ensures PointOf(Ladder(p, scalar, i)) == Multiple(ValueOf(256, scalar) / Pow(2, i), PointOf(p), CurveD(), P)
    decreases 256 - i
  {
    hide FieldElement.Value, Cong, EdwardsPoint.Add, EdwardsPoint.Double, AffineSum, ToAffine, OnAffine, BitAt,
      Proper;
    var n, d, a := ValueOf(256, scalar), CurveD(), PointOf(p);
    ValueBound(256, scalar);
    FieldFacts();
    if i == 256 {
      TopQuotient(scalar);
      IdentityValid();
    } else {
      LadderMultiple(p, scalar, i + 1);
      var r := Ladder(p, scalar, i + 1);
      var k := n / Pow(2, i + 1);
      DoubleValid(r);
      AddValid(r.Double(), p);
      NextQuotient(scalar, i);
      ValidOnAffine(p);
      MultipleAdd(k, k, a, d, SQRT_M1.Value(), P);
    }
  }

  lemma TopQuotient(scalar: seq<byte>)
    requires |scalar| == 32
    ensures ValueOf(256, scalar) / Pow(2, 256) == 0
  {
    ValueBound(256, scalar);
    EightBits();
    PowMul(2, 8, 32);
    DivModUnique(ValueOf(256, scalar), 0, ValueOf(256, scalar), Pow(2, 256));
  }

  /** One bit more: n >> i is twice n >> (i + 1), plus bit i. */
  lemma NextQuotient(scalar: seq<byte>, i: nat)
    requires i < 8 * |scalar|
    ensures var k := ValueOf(256, scalar) / Pow(2, i + 1);
      k >= 0 && ValueOf(256, scalar) / Pow(2, i) == k + k + BitAt(scalar, i) && 0 <= BitAt(scalar, i) <= 1
  {
    ValueBound(256, scalar);
    BitOfValue(scalar, i);
    var n, w := ValueOf(256, scalar), Pow(2, i);
    assert Pow(2, i + 1) == w * 2;
    DivDiv(n, w, 2);
    QuotientNonneg(n, w);
  }

  lemma QuotientNonneg(n: int, w: int)
    requires n >= 0 && w > 0
    ensures n / w >= 0
  {
  }

  lemma IdentityValid()
    requires PrimeAndNonSquare()
    ensures Valid(IDENTITY) && PointOf(IDENTITY) == ORIGIN
  {
    hide Cong, ToAffine, Inverse, FieldElement.Value, EdwardsPoint.Bounded, CurveD;
    IdentityInts();
    OriginOnAffine(CurveD(), P);
    var q := Lift(ORIGIN, CurveD(), P);
    assert IDENTITY.Ints() == q;
  }

  lemma IdentityInts()
    ensures IDENTITY.Bounded() && IDENTITY.Ints() == Extended(0, 1, 1, 0)
  {
    SmallConstants();
  }

  /** Scalar multiplication is repeated addition on the curve, over all 256 bits of the scalar. */
  lemma ScalarMulMultiple(p: EdwardsPoint, scalar: seq<byte>)
    requires PrimeAndNonSquare() && Associative(CurveD(), P)
    requires Valid(p) && |scalar| == 32
    ensures ValueOf(256, scalar) >= 0
    ensures Valid(ScalarMul(p, scalar))
    ensures PointOf(ScalarMul(p, scalar)) == Multiple(ValueOf(256, scalar), PointOf(p), CurveD(), P)
  {
    hide FieldElement.Value, Cong, AffineSum, ToAffine, Multiple, Proper, Ladder, ValueOf, Associative,
      PrimeAndNonSquare;
    LadderMultiple(p, scalar, 0);
    assert Pow(2, 0) == 1;
    DivModUnique(ValueOf(256, scalar), ValueOf(256, scalar), 0, 1);
  }
}

/**
 What compress writes of the points the code computes (crates/webgate-core/src/ed25519.rs:578-625): their
 coordinates have values of 19 or more, so the encoding depends on the affine point alone.
 */
module PointResidues {
  import opened Words
  import opened Arith
  import opened LittleEndian
  import opened FieldElements
  import opened FieldEncoding
  import opened FieldPower
  import opened EdwardsAlgebra
  import opened EdwardsGroup
  import opened EdwardsPoints
  import opened ScalarMultiplication
  import opened PointEncoding
  import opened FieldZero
  import opened FieldLarge
  import opened PointDecoding
  import Scalars

  /** Coordinates as every addition and doubling leaves them. */
  predicate LargePoint(p: EdwardsPoint) {
    Large(p.x) && Large(p.y) && Large(p.z)
  }

  lemma AddPositive(a: FieldElement, b: FieldElement)
    requires a.Below(0x8000_0000_0000_0000) && b.Below(0x8000_0000_0000_0000)
    ensures Positive(a) || Positive(b) ==> Positive(a.Add(b))
    ensures Large(a) || Large(b) ==> Large(a.Add(b))
  {
  }

  lemma DifferenceLarge(a: FieldElement, b: FieldElement)
    requires a.Below(0x40_0000_0000_0000) && b.Tight()
    ensures Large(a.Sub(b)) && Positive(a.Sub(b)) && a.Sub(b).Tight()
  {
    hide FieldElement.Value, FieldElement.Sub, Large, Positive;
    StepBounds();
    TightValue(b);
    SubLarge(a, b);
  }

  /** The sum of two points of non-zero Z limbs. */
  lemma AddLarge(p: EdwardsPoint, q: EdwardsPoint)
    requires p.Bounded() && q.Bounded() && Positive(p.z) && Positive(q.z)
    ensures LargePoint(p.Add(q))
  {
    hide FieldElement.Mul, FieldElement.Add, FieldElement.Sub, FieldElement.Value, FieldElement.Below,
      FieldElement.Tight, Large, Positive, Cong;
    StepBounds();
    SmallConstants();
    Constants();
    PointBounds(p);
    PointBounds(q);
    DifferenceLarge(p.y, p.x);
    DifferenceLarge(q.y, q.x);
    MulLarge(p.y.Sub(p.x), q.y.Sub(q.x));
    TwoPositive();
    MulPositive(p.z, TWO);
    MulPositive(p.z.Mul(TWO), q.z);
    var a, b := p.y.Sub(p.x).Mul(q.y.Sub(q.x)), p.y.Add(p.x).Mul(q.y.Add(q.x));
    var c, d := p.t.Mul(TWO_D).Mul(q.t), p.z.Mul(TWO).Mul(q.z);
    LastProducts(a, b, c, d);
  }

  lemma TwoPositive()
    ensures Positive(TWO)
  {
  }

  lemma Bound63(a: FieldElement)
    requires a.Tight()
    ensures a.Below(0x8000_0000_0000_0000) && a.Below(0x40_0000_0000_0000)
  {
  }

  lemma PointBounds(p: EdwardsPoint)
    requires p.Bounded()
    ensures p.x.Below(0x8000_0000_0000_0000) && p.y.Below(0x8000_0000_0000_0000)
    ensures p.x.Below(0x40_0000_0000_0000) && p.y.Below(0x40_0000_0000_0000) && p.z.Below(0x40_0000_0000_0000)
  {
  }

  lemma LastProducts(a: FieldElement, b: FieldElement, c: FieldElement, d: FieldElement)
    requires a.Tight() && b.Tight() && c.Tight() && d.Tight() && Large(a) && Positive(d)
    ensures b.Sub(a).Tight() && d.Sub(c).Tight()
    ensures d.Add(c).Below(0x40_0000_0000_0000) && b.Add(a).Below(0x40_0000_0000_0000)
    ensures var e, f, g, h := b.Sub(a), d.Sub(c), d.Add(c), b.Add(a);
      Large(e.Mul(f)) && Large(g.Mul(h)) && Large(f.Mul(g))
  {
    hide FieldElement.Mul, FieldElement.Add, FieldElement.Sub, FieldElement.Value, FieldElement.Below,
      FieldElement.Tight, Large, Positive;
    StepBounds();
    DifferenceLarge(b, a);
    DifferenceLarge(d, c);
    Bound63(a);
    Bound63(b);
    Bound63(c);
    Bound63(d);
    AddPositive(b, a);
    AddPositive(d, c);
    LargePositive(b.Add(a));
    MulLarge(b.Sub(a), d.Sub(c));
    MulLarge(d.Add(c), b.Add(a));
    MulLarge(d.Sub(c), d.Add(c));
  }

  /** The double of a point whose X and Y limbs are not all zero. */
  lemma DoubleLarge(p: EdwardsPoint)
    requires p.Bounded() && (Positive(p.x) || Positive(p.y))
    ensures LargePoint(p.Double())
  {
    hide FieldElement.Mul, FieldElement.Add, FieldElement.Sub, FieldElement.Value, FieldElement.Below,
      FieldElement.Tight, Large, Positive, Cong;
    StepBounds();
    SmallConstants();
    PointBounds(p);
    Squares(p);
    var a, b, c := p.x.Square(), p.y.Square(), p.z.Square().Mul(TWO);
    if Positive(p.x) {
      MulPositive(p.x, p.x);
    } else {
      MulPositive(p.y, p.y);
    }
    DoubleProducts(a, b, c, p.x.Add(p.y).Square());
  }

  lemma DoubleProducts(a: FieldElement, b: FieldElement, c: FieldElement, s: FieldElement)
    requires a.Tight() && b.Tight() && c.Tight() && s.Tight() && (Positive(a) || Positive(b))
    ensures a.Add(b).Subtrahend() && s.Sub(a.Add(b)).Tight() && b.Sub(a).Tight() && c.Sub(b.Sub(a)).Tight()
    ensures a.Add(b).Below(0x40_0000_0000_0000)
    ensures var d := a.Add(b); var e, g := s.Sub(d), b.Sub(a); var f := c.Sub(g);
      Large(e.Mul(f)) && Large(g.Mul(d)) && Large(f.Mul(g))
  {
    hide FieldElement.Mul, FieldElement.Add, FieldElement.Sub, FieldElement.Value, FieldElement.Below,
      FieldElement.Tight, Large, Positive;
    StepBounds();
    Bound63(a);
    Bound63(b);
    AddPositive(a, b);
    SumSubtracted(a, b, s);
    DifferenceLarge(b, a);
    DifferenceLarge(c, b.Sub(a));
    MulLarge(s.Sub(a.Add(b)), c.Sub(b.Sub(a)));
    MulLarge(b.Sub(a), a.Add(b));
    MulLarge(c.Sub(b.Sub(a)), b.Sub(a));
  }

  lemma SumSubtracted(a: FieldElement, b: FieldElement, s: FieldElement)
    requires a.Tight() && b.Tight() && s.Tight()
    ensures a.Add(b).Subtrahend() && Large(s.Sub(a.Add(b))) && Positive(s.Sub(a.Add(b)))
  {
    hide FieldElement.Add, FieldElement.Sub, FieldElement.Value, Large, Positive;
    StepBounds();
    AddExact(a, b);
    TightValue(a);
    TightValue(b);
    SubLarge(s, a.Add(b));
  }

  /** Every intermediate of the loop but the first. */
  lemma {:induction false} LadderLarge(p: EdwardsPoint, scalar: seq<byte>, i: nat)
    requires p.Bounded() && Positive(p.z) && |scalar| == 32 && i < 256
    ensures LargePoint(Ladder(p, scalar, i))
    decreases 256 - i
  {
    hide EdwardsPoint.Add, EdwardsPoint.Double, EdwardsPoint.Bounded, FieldElement.Value, Large, Positive, BitAt;
    var r := Ladder(p, scalar, i + 1);
    if i + 1 == 256 {
      IdentityPositive();
    } else {
      LadderLarge(p, scalar, i + 1);
      LargePositive(r.y);
    }
    DoubleLarge(r);
    DoubleRefines(r);
    LargePositive(r.Double().z);
    AddLarge(r.Double(), p);
  }

  lemma IdentityPositive()
    ensures Positive(IDENTITY.y)
  {
  }

  /** Every multiple that the code computes. */
  lemma ScalarMulLarge(p: EdwardsPoint, scalar: seq<byte>)
    requires p.Bounded() && Positive(p.z) && |scalar| == 32
    ensures LargePoint(ScalarMul(p, scalar))
  {
    hide Ladder, LargePoint;
    LadderLarge(p, scalar, 0);
  }

  /** The Z of a valid point is not zero modulo p, so its limbs are not zero. */
  lemma ValidPositive(p: EdwardsPoint)
    requires Valid(p)
    ensures p.Bounded() && Positive(p.z)
  {
    hide FieldElement.Value, Positive, EdwardsPoint.Bounded, CurveD, Cong;
    ValidProper(p);
    PositiveValue(p.z);
    CongRefl(0, P);
  }

  // ---------------------------------------------------------------- what compress writes

  /** y as it is written, in little-endian, with the low bit of x as it is written. */
  function EncodeWritten(a: Affine): (s: seq<byte>)
    requires 0 <= a.x && 0 <= a.y
    ensures |s| == 32
  {
    EncodeAffine(Affine(Written(a.x), Written(a.y)))
  }

  /** The coordinates compress hands to to_bytes. */
  lemma QuotientsLarge(p: EdwardsPoint)
    requires p.Bounded() && LargePoint(p)
    ensures Large(QuotientX(p)) && Large(QuotientY(p))
  {
    hide FieldElement.Mul, FieldElement.Value, Large, Positive, Invert;
    StepBounds();
    LargePositive(p.x);
    LargePositive(p.y);
    LargePositive(p.z);
    InvertPositive(p.z);
    MulLarge(p.x, Invert(p.z));
    MulLarge(p.y, Invert(p.z));
  }

  /** They stand for the affine coordinates. */
  lemma QuotientsStand(p: EdwardsPoint)
    requires PrimeAndNonSquare() && Valid(p)
    ensures QuotientX(p).Value() % P == PointOf(p).x && QuotientY(p).Value() % P == PointOf(p).y
    ensures 0 <= PointOf(p).x < P && 0 <= PointOf(p).y < P
  {
    hide FieldElement.Value, Cong, PrimeAndNonSquare, PointOf, QuotientX, QuotientY, Pow, CurveD,
      EdwardsPoint.Bounded;
    QuotientsAffine(p);
    ResidueOfP(QuotientX(p).Value());
    ResidueOfP(QuotientY(p).Value());
  }

  /** compress writes such a point by its affine coordinates alone. */
  lemma CompressWritten(p: EdwardsPoint)
    requires PrimeAndNonSquare() && Valid(p) && LargePoint(p)
    ensures 0 <= PointOf(p).x < P && 0 <= PointOf(p).y < P && Compress(p) == EncodeWritten(PointOf(p))
  {
    hide FieldElement.Value, PrimeAndNonSquare, PointOf, QuotientX, QuotientY, Proper, EdwardsPoint.Bounded,
      LargePoint, ToBytes, LeBytes, ValueOf, Pow, SetTopBit, Large, Written;
    QuotientsLarge(p);
    QuotientsStand(p);
    SignWritten(QuotientX(p));
    WrittenBytes(QuotientY(p));
    WrittenNatural(PointOf(p).x);
    WrittenNatural(PointOf(p).y);
  }

  lemma WrittenNatural(r: int)
    requires 0 <= r < P
    ensures 19 <= Written(r) < P
  {
  }

  lemma WrittenBytes(y: FieldElement)
    requires y.Below(0x8000_0000_0000_0000) && Large(y)
    ensures Written(y.Value() % P) >= 0 && ToBytes(y) == LeBytes(Written(y.Value() % P), 32)
  {
    hide FieldElement.Value, ToBytes, LeBytes, ValueOf, Pow, Large, Written;
    ResidueOfP(y.Value());
    WrittenNatural(y.Value() % P);
    ToBytesWritten(y);
    Scalars.FourWords();
    LeBytesValue(Written(y.Value() % P), 32);
    ValueInjective(256, ToBytes(y), LeBytes(Written(y.Value() % P), 32));
  }

  /** It is the encoding of section 5.1.2 of RFC 8032 exactly when both coordinates are 19 or more. */
  lemma CompressExactly(p: EdwardsPoint)
    requires PrimeAndNonSquare() && Valid(p) && LargePoint(p)
    ensures 0 <= PointOf(p).x < P && 0 <= PointOf(p).y < P
    ensures Compress(p) == EncodeAffine(PointOf(p)) <==> PointOf(p).x >= 19 && PointOf(p).y >= 19
  {
    hide PrimeAndNonSquare, PointOf, Valid, LargePoint, Compress, EncodeWritten, EncodeAffine;
    CompressWritten(p);
    EncodedAlike(PointOf(p));
  }

  lemma EncodedAlike(a: Affine)
    requires 0 <= a.x < P && 0 <= a.y < P
    ensures EncodeWritten(a) == EncodeAffine(a) <==> a.x >= 19 && a.y >= 19
  {
    hide LeBytes, SetTopBit, ValueOf, Pow;
    WrittenNatural(a.x);
    WrittenNatural(a.y);
    Scalars.FourWords();
    LeBytesValue(a.y, 32);
    LeBytesValue(Written(a.y), 32);
    SignedEqual(LeBytes(Written(a.y), 32), LeBytes(a.y, 32), Written(a.x) % 2 != 0, a.x % 2 != 0);
  }

  /** Points that stand for one affine point have one encoding, however they were computed. */
  lemma OneEncoding(p: EdwardsPoint, q: EdwardsPoint)
    requires PrimeAndNonSquare() && Valid(p) && Valid(q) && LargePoint(p) && LargePoint(q) && PointOf(p) == PointOf(q)
    ensures Compress(p) == Compress(q)
  {
    hide PrimeAndNonSquare, Valid, PointOf, LargePoint, Compress, EncodeWritten;
    CompressWritten(p);
    CompressWritten(q);
  }

  /** What an encoding shows of a point: y as it is written, and the low bit of x as it is written. */
  predicate ShownAlike(a: Affine, b: Affine) {
    Written(a.y) == Written(b.y) && Written(a.x) % 2 == Written(b.x) % 2
  }

  /** Encodings are equal exactly when they show the same. */
  lemma SameEncoding(p: EdwardsPoint, q: EdwardsPoint)
    requires PrimeAndNonSquare() && Valid(p) && Valid(q) && LargePoint(p) && LargePoint(q)
    ensures Compress(p) == Compress(q) <==> ShownAlike(PointOf(p), PointOf(q))
  {
    hide PrimeAndNonSquare, Valid, PointOf, LargePoint, Compress, EncodeWritten, ShownAlike;
    CompressWritten(p);
    CompressWritten(q);
    SameWritten(PointOf(p), PointOf(q));
  }

  lemma SameWritten(a: Affine, b: Affine)
    requires 0 <= a.x < P && 0 <= a.y < P && 0 <= b.x < P && 0 <= b.y < P
    ensures EncodeWritten(a) == EncodeWritten(b) <==> ShownAlike(a, b)
  {
    hide LeBytes, SetTopBit, ValueOf, Pow, Written;
    WrittenNatural(a.y);
    WrittenNatural(b.y);
    WrittenNatural(a.x);
    WrittenNatural(b.x);
    Scalars.FourWords();
    LeBytesValue(Written(a.y), 32);
    LeBytesValue(Written(b.y), 32);
    SignedEqual(LeBytes(Written(a.y), 32), LeBytes(Written(b.y), 32), Written(a.x) % 2 != 0, Written(b.x) % 2 != 0);
  }

  /** Away from the small residues a point is shown as itself. */
  lemma ShownOnce(a: Affine, b: Affine)
    requires PrimeAndNonSquare() && OnAffine(a, CurveD(), P) && OnAffine(b, CurveD(), P) && ShownAlike(a, b)
    requires a.y >= 38 && 19 <= a.x <= P - 19
    ensures a == b
  {
    hide CurveD, PrimeAndNonSquare, SolvedCurve, FieldElement.Value, DecodedY, XSquared, Cong, EncodeAffine;
    EncodedParts(a);
    var y := DecodedY(EncodeAffine(a));
    CongRefl(a.y, P);
    PointSquared(y, a);
    PointSquared(y, b);
    var n: int := XSquared(y).Value();
    CongSym(n, b.x * b.x, P);
    CongTrans(b.x * b.x, n, a.x * a.x, P);
    FieldOfP();
    RootsOfSquare(b.x, a.x, P);
    DivModUnique(b.x, 0, b.x, P);
    OppositeResidue(a.x);
  }

  // ---------------------------------------------------------------- reading such an encoding

  lemma WrittenSign(x: int, r: int)
    requires 0 <= x < P && (r == x || r == -x % P)
    ensures DecodedX(r, Written(x) % 2 != 0) == if x == 0 || r == x || 19 <= x <= P - 19 then x else P - x
  {
    OppositeResidue(x);
    OppositeResidue(r);
  }

  /** What the code writes of a curve point decodes to it exactly when y is 19 or more and x survives. */
  ghost predicate Survives(a: Affine) {
    && 0 <= a.x < P && 19 <= a.y < P
    && (a.x == 0 || 19 <= a.x <= P - 19 || RootResidue(EncodeWritten(a)) == a.x)
  }

  lemma DecodeWritten(a: Affine)
    requires PrimeAndNonSquare() && OnAffine(a, CurveD(), P)
    ensures DecodesTo(EncodeWritten(a), a) <==> Survives(a)
  {
    hide CurveD, EncodeAffine, DecodedY, PrimeAndNonSquare, DecodedX, RootResidue, ResidueY, SolvedCurve, DecodesTo,
      Root;
    var s := EncodeWritten(a);
    WrittenNatural(a.x);
    WrittenNatural(a.y);
    EncodedParts(Affine(Written(a.x), Written(a.y)));
    if a.y >= 19 {
      RootIsX(s, a);
      DecodedPoint(s);
      WrittenSign(a.x, RootResidue(s));
      OddModulus(a.x);
      OnePoint(s, a, Affine(P - a.x, a.y));
    } else if DecodesTo(s, a) {
      DecodesY(s, a);
    }
  }

  lemma DecodesY(bytes: seq<byte>, a: Affine)
    requires |bytes| == 32 && DecodesTo(bytes, a)
    ensures a.y == ResidueY(bytes)
  {
    hide CurveD, DecodedX, RootResidue, ResidueY, OnAffine, Decompress, Valid, PointOf, PrimeAndNonSquare;
    DecodedOnCurve(bytes);
    OnePoint(bytes, a, Affine(DecodedX(RootResidue(bytes), bytes[31] >= 0x80), ResidueY(bytes)));
  }

  /** Which of the two roots is found depends on x alone. */
  lemma SurvivesExactly(a: Affine, n: nat)
    requires PrimeAndNonSquare() && OnAffine(a, CurveD(), P) && 4 * n + 1 == P
    ensures Survives(a) <==> a.y >= 19 && (a.x == 0 || 19 <= a.x <= P - 19 || OwnRoot(a.x, n))
  {
    hide CurveD, EncodeAffine, DecodedY, PrimeAndNonSquare, RootResidue, ResidueY, SolvedCurve, Root, OwnRoot;
    if a.y >= 19 {
      WrittenNatural(a.x);
      EncodedParts(Affine(Written(a.x), Written(a.y)));
      RootByPower(EncodeWritten(a), a, n);
    }
  }
}

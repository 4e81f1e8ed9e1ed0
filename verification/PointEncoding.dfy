/** The base point, and points as 32 bytes (crates/webgate-core/src/ed25519.rs:553-575, 615-673). */
module PointEncoding {
  import opened Wrappers
  import opened Words
  import opened Arith
  import opened LittleEndian
  import opened FieldElements
  import opened FieldEncoding
  import opened FieldPower
  import opened EdwardsAlgebra
  import opened EdwardsGroup
  import opened EdwardsPoints
  import opened ScalarMultiplication
  import opened Scalars
  import opened SquareRoots
  import FermatTheorem

  const BASE_X := FieldElement(0x0006_2d60_8f25_d51a, 0x0004_12a4_b4f6_592a, 0x0007_5b71_71a4_b31d,
                               0x0001_ff60_5271_18fe, 0x0002_1693_6d3c_d6e5)

  const BASE_Y := FieldElement(0x0006_6666_6666_6658, 0x0004_cccc_cccc_cccc, 0x0001_9999_9999_9999,
                               0x0003_3333_3333_3333, 0x0006_6666_6666_6666)

  const BASE_T: int := 0x67875f0fd78b766566ea4e8e64abe37d20f09f80775152f56dde8ab3a5b7dda3

  /** The base point B, of affine y = 4/5. */
  function Base(): (b: EdwardsPoint)
    ensures b.Bounded()
  {
    BaseBounds();
    EdwardsPoint(BASE_X, BASE_Y, ONE, BASE_X.Mul(BASE_Y))
  }

  lemma BaseBounds()
    ensures BASE_X.Tight() && BASE_Y.Tight() && ONE.Tight() && BASE_X.Mul(BASE_Y).Tight()
  {
    hide FieldElement.Mul;
    MulExact(BASE_X, BASE_Y);
  }

  lemma BaseConstants()
    ensures Cong(BASE_X.Value() * BASE_Y.Value(), BASE_T, P)
    ensures Cong(BASE_Y.Value() * BASE_Y.Value() - BASE_X.Value() * BASE_X.Value(),
        1 * 1 + CurveD() * (BASE_T * BASE_T), P)
    ensures Cong(5 * BASE_Y.Value(), 4, P)
  {
    CongIntro(BASE_X.Value() * BASE_Y.Value(), BASE_T,
      12089777079628320618000921127670825209163210154433485764836890627159878209761, P);
    CongIntro(BASE_Y.Value() * BASE_Y.Value() - BASE_X.Value() * BASE_X.Value(), 1 * 1 + CurveD() * (BASE_T * BASE_T),
      -(0x35a6f2f722f473f3e90ddf9998a13bcde91c1293e858dd3920162ae0e01c7772 * TWO255
      + 0x3a7cea0e60a67e5c8423bcf9129dc7be6f6ddce18dd0e710b9fb776c353930e0), P);
    CongIntro(5 * BASE_Y.Value(), 4, 4, P);
  }

  /** It is the base point of section 5.1 of RFC 8032: these coordinates, y four fifths, x even. */
  lemma BaseCoordinates()
    ensures BASE_X.Value() == 15112221349535400772501151409588531511454012693041857206046113283949847762202
    ensures BASE_Y.Value() == 46316835694926478169428394003475163141307993866256225615783033603165251855960
    ensures Cong(5 * BASE_Y.Value(), 4, P) && BASE_X.Value() % 2 == 0 && BASE_X.Value() < P
    ensures Base().x == BASE_X && Base().y == BASE_Y && Base().z == ONE
  {
    hide Cong, FieldElement.Mul;
    BaseConstants();
    BaseBounds();
  }

  /** The stored base point is on the curve, and valid. */
  lemma BaseValid()
    ensures Valid(Base())
  {
    hide Cong, FieldElement.Value, FieldElement.Mul, CurveD;
    BaseConstants();
    SmallConstants();
    BaseBounds();
    MulExact(BASE_X, BASE_Y);
    var x: int, y: int, t: int := BASE_X.Value(), BASE_Y.Value(), BASE_X.Mul(BASE_Y).Value();
    CongSym(t, x * y, P);
    assert 1 * t == t;
    CongTrans(t, x * y, BASE_T, P);
    CongSquare(t, BASE_T, P);
    CongScale(CurveD(), t * t, BASE_T * BASE_T, P);
    CongRefl(1 * 1, P);
    CongAdd(1 * 1, 1 * 1, CurveD() * (t * t), CurveD() * (BASE_T * BASE_T), P);
    CongSym(1 * 1 + CurveD() * (t * t), 1 * 1 + CurveD() * (BASE_T * BASE_T), P);
    CongTrans(y * y - x * x, 1 * 1 + CurveD() * (BASE_T * BASE_T), 1 * 1 + CurveD() * (t * t), P);
    CongRefl(1, P);
    InvertibleNonzero(1, 1, P);
  }

  // ---------------------------------------------------------------- encoding points

  /** The low bit of the encoding: the sign of x. */
  function IsNegative(f: FieldElement): bool
    requires f.Below(0x8000_0000_0000_0000)
  {
    ToBytes(f)[0] % 2 != 0
  }

  /** Set the top bit of the last byte. */
  function SetTopBit(s: seq<byte>): seq<byte>
    requires |s| == 32
  {
    s[31 := BitOr(s[31], 0x80) % 0x100]
  }

  function Compress(p: EdwardsPoint): (s: seq<byte>)
    requires p.Bounded()
    ensures |s| == 32
  {
    var x, y := QuotientX(p), QuotientY(p);
    if IsNegative(x) then SetTopBit(ToBytes(y)) else ToBytes(y)
  }

  /** Section 5.1.2 of RFC 8032: y in little-endian, with the low bit of x as top bit. */
  function EncodeAffine(a: Affine): (s: seq<byte>)
    requires 0 <= a.x && 0 <= a.y
    ensures |s| == 32
  {
    if a.x % 2 != 0 then SetTopBit(LeBytes(a.y, 32)) else LeBytes(a.y, 32)
  }

  /** The coordinates compress hands to to_bytes. */
  function QuotientX(p: EdwardsPoint): (x: FieldElement)
    requires p.Bounded()
    ensures x.Below(0x8000_0000_0000_0000)
  {
    StepBounds();
    p.x.Mul(Invert(p.z))
  }

  function QuotientY(p: EdwardsPoint): (y: FieldElement)
    requires p.Bounded()
    ensures y.Below(0x8000_0000_0000_0000)
  {
    StepBounds();
    p.y.Mul(Invert(p.z))
  }

  lemma FieldOfP()
    requires PrimeAndNonSquare()
    ensures Field(P)
  {
    hide Cong;
  }

  /** Fermat's little theorem modulo p. */
  lemma FermatOfP(a: int, e: nat)
    requires PrimeAndNonSquare() && !Cong(a, 0, P) && e + 1 == P
    ensures Cong(Pow(a, e), 1, P)
  {
    hide Cong, Pow, PrimeAndNonSquare;
    FieldOfP();
    FermatTheorem.Fermat(a, e, P);
  }

  /** invert gives an inverse of whatever is not zero modulo p, and of nothing else. */
  lemma InvertExactly(a: FieldElement)
    requires PrimeAndNonSquare() && a.Below(0x40_0000_0000_0000)
    ensures Cong(Invert(a).Value() * a.Value(), 1, P) <==> !Cong(a.Value(), 0, P)
  {
    hide Cong, FieldElement.Value, Invert, Pow, PrimeAndNonSquare;
    var v: int, k: int := a.Value(), Invert(a).Value();
    if Cong(v, 0, P) {
      FieldOfP();
      FermatTheorem.OneNotZero(P);
      CongScale(k, v, 0, P);
      if Cong(k * v, 1, P) {
        CongSym(k * v, 1, P);
        CongTrans(1, k * v, 0, P);
      }
    } else {
      var e: nat :| e + 1 == P;
      FermatOfP(v, e);
      InvertInverse(a, e);
    }
  }

  /** They stand for the affine coordinates. */
  lemma QuotientsAffine(p: EdwardsPoint)
    requires PrimeAndNonSquare() && Valid(p)
    ensures QuotientX(p).Value() % P == PointOf(p).x && QuotientY(p).Value() % P == PointOf(p).y
  {
    hide Cong, FieldElement.Value, FieldElement.Mul, Invert, CurveD, Pow;
    StepBounds();
    FieldFacts();
    ValidProper(p);
    InvertExactly(p.z);
    var k: int, z: int := Invert(p.z).Value(), p.z.Value();
    assert k * z == z * k;
    assert Invertible(z, P);
    OneQuotient(p.x, p.z, Invert(p.z), Inverse(z, P));
    OneQuotient(p.y, p.z, Invert(p.z), Inverse(z, P));
  }

  lemma OneQuotient(x: FieldElement, z: FieldElement, zInv: FieldElement, l: int)
    requires x.Tight() && z.Tight() && zInv.Below(0x40_0000_0000_0000)
    requires Cong(z.Value() * zInv.Value(), 1, P) && Cong(z.Value() * l, 1, P)
    ensures x.Below(0x40_0000_0000_0000)
    ensures x.Mul(zInv).Value() % P == x.Value() * l % P
  {
    hide Cong, FieldElement.Value, FieldElement.Mul;
    StepBounds();
    MulExact(x, zInv);
    CongRefl(x.Value() * z.Value(), P);
    CongIffMod(x.Mul(zInv).Value(), x.Value() * zInv.Value(), P);
    QuotientUnique(x.Value(), z.Value(), zInv.Value(), x.Value(), z.Value(), l, P);
  }

  /** The value of a byte string whose top bit is clear, and of the same with it set. */
  lemma TopBitValue(s: seq<byte>)
    requires |s| == 32 && ValueOf(256, s) < TWO255
    ensures ValueOf(256, SetTopBit(s)) == ValueOf(256, s) + TWO255
    ensures SetTopBit(s) != s
  {
    hide ValueOf, Pow, BitOr;
    BytePowers();
    TopByteSmall(s);
    OrTop(s[31]);
    ValueUpdate(256, s, 31, s[31] + 0x80);
    assert SetTopBit(s)[31] != s[31];
  }

  /** Section 5.1.2 of RFC 8032 in numbers: y, and the low bit of x as bit 255. */
  lemma EncodingNumber(a: Affine)
    requires 0 <= a.x && 0 <= a.y < P
    ensures ValueOf(256, EncodeAffine(a)) == a.y + a.x % 2 * TWO255
  {
    hide ValueOf, Pow, SetTopBit;
    FourWords();
    LeBytesValue(a.y, 32);
    TopBitValue(LeBytes(a.y, 32));
  }

  lemma TopByteSmall(s: seq<byte>)
    requires |s| == 32 && ValueOf(256, s) < TWO255
    ensures s[31] < 0x80
  {
    hide Pow;
    BytePowers();
    ValueBound(256, s[..31]);
    PrefixStep(256, s, 31);
    assert s[..32] == s;
  }

  lemma OrTop(x: byte)
    requires x < 0x80
    ensures BitOr(x, 0x80) == x + 0x80
  {
    assert Pow(2, 7) == 2 * Pow(2, 6) == 4 * Pow(2, 5) == 8 * Pow(2, 4) == 16 * Pow(2, 3) == 128;
    BitOrDisjoint(x, 0x80, 7);
  }

  /** The low bit of what to_bytes writes. */
  lemma LowBit(s: seq<byte>)
    requires |s| == 32
    ensures s[0] % 2 == ValueOf(256, s) % 2
  {
    EvenRest(s[0], ValueOf(256, s[1..]));
  }

  lemma EvenRest(b: int, v: int)
    ensures (b + 256 * v) % 2 == b % 2
  {
  }

  /**
   compress writes the encoding of the affine point exactly when both settled
   coordinates are below p.
   */
  lemma CompressEncodes(p: EdwardsPoint)
    requires PrimeAndNonSquare() && Valid(p)
    ensures 0 <= PointOf(p).x < P && 0 <= PointOf(p).y < P
    ensures Compress(p) == EncodeAffine(PointOf(p))
       <==> Settled(QuotientX(p)).Value() < P && Settled(QuotientY(p)).Value() < P
  {
    hide Cong, FieldElement.Value, FieldElement.Mul, Invert, CurveD, Pow, ValueOf, ToBytes, Settled, LeBytes,
      SetTopBit, ToAffine;
    QuotientsAffine(p);
    var a, x, y := PointOf(p), QuotientX(p), QuotientY(p);
    ResidueRange(x.Value(), P);
    ResidueRange(y.Value(), P);
    SignBit(x);
    EncodedY(y);
    SignedEqual(ToBytes(y), LeBytes(a.y, 32), IsNegative(x), a.x % 2 != 0);
  }

  /** Sign bit and 255-bit value can be read back apart. */
  lemma SignedEqual(s: seq<byte>, t: seq<byte>, m: bool, n: bool)
    requires |s| == |t| == 32 && ValueOf(256, s) < TWO255 && ValueOf(256, t) < TWO255
    ensures (if m then SetTopBit(s) else s) == (if n then SetTopBit(t) else t) <==> m == n && s == t
  {
    hide ValueOf, SetTopBit;
    TopBitValue(s);
    TopBitValue(t);
    ValueBound(256, s);
    ValueBound(256, t);
    if ValueOf(256, s) == ValueOf(256, t) {
      ValueInjective(256, s, t);
    }
  }

  lemma ResidueRange(x: int, m: int)
    requires m > 0
    ensures 0 <= x % m < m
  {
  }

  /** The sign bit is that of the residue exactly when the settled value is below p. */
  lemma SignBit(x: FieldElement)
    requires x.Below(0x8000_0000_0000_0000)
    ensures (IsNegative(x) <==> x.Value() % P % 2 != 0) <==> Settled(x).Value() < P
  {
    hide FieldElement.Value, Cong, ValueOf, Settled, ToBytes;
    ToBytesValueOf(x);
    LowBit(ToBytes(x));
    SettledResidue(x);
  }

  lemma SettledResidue(x: FieldElement)
    requires x.Below(0x8000_0000_0000_0000)
    ensures var w := Settled(x).Value();
      w < TWO255 && x.Value() % P == if w < P then w else w - P
  {
    hide FieldElement.Value, Cong;
    var w := Settled(x).Value();
    CongIffMod(w, x.Value(), P);
    DivModUnique(w, if w < P then 0 else 1, if w < P then w else w - P, P);
  }

  lemma EncodedY(y: FieldElement)
    requires y.Below(0x8000_0000_0000_0000)
    ensures var r := y.Value() % P;
      && r >= 0 && ValueOf(256, LeBytes(r, 32)) == r < TWO255
      && ValueOf(256, ToBytes(y)) < TWO255
      && (ToBytes(y) == LeBytes(r, 32) <==> Settled(y).Value() < P)
  {
    hide FieldElement.Value, Cong, ValueOf, Settled, ToBytes, LeBytes, Pow;
    ToBytesValueOf(y);
    SettledResidue(y);
    FourWords();
    LeBytesValue(y.Value() % P, 32);
    if Settled(y).Value() < P {
      ValueInjective(256, ToBytes(y), LeBytes(y.Value() % P, 32));
    }
  }

  // ---------------------------------------------------------------- decoding points

  /** u = y^2 - 1 and v = d y^2 + 1, of which x^2 is the quotient. */
  function CurveU(y: FieldElement): (u: FieldElement)
    requires y.Below(0x40_0000_0000_0000)
    ensures u.Tight()
  {
    DecodeBounds();
    y.Square().Sub(ONE)
  }

  function CurveV(y: FieldElement): (v: FieldElement)
    requires y.Below(0x40_0000_0000_0000)
    ensures v.Below(0x40_0000_0000_0000)
  {
    DecodeBounds();
    D.Mul(y.Square()).Add(ONE)
  }

  lemma DecodeBounds()
    ensures ONE.Tight() && D.Tight() && ZERO.Tight() && SQRT_M1.Tight()
    ensures forall r: FieldElement, s: FieldElement {:trigger r.Mul(s)} |
      r.Below(0x40_0000_0000_0000) && s.Below(0x40_0000_0000_0000) :: r.Mul(s).Tight()
    ensures forall r: FieldElement, s: FieldElement {:trigger r.Sub(s)} |
      r.Below(0x40_0000_0000_0000) && s.Subtrahend() :: r.Sub(s).Tight()
    ensures forall r: FieldElement {:trigger r.Tight()} | r.Tight() :: r.Below(0x40_0000_0000_0000) && r.Subtrahend()
    ensures forall r: FieldElement, s: FieldElement {:trigger r.Add(s)} |
      r.Tight() && s.Tight() :: r.Add(s).Below(0x40_0000_0000_0000) && r.Add(s).Subtrahend()
  {
    hide FieldElement.Mul, FieldElement.Sub, FieldElement.Add;
    StepBounds();
  }

  function XSquared(y: FieldElement): (x2: FieldElement)
    requires y.Below(0x40_0000_0000_0000)
    ensures x2.Tight()
  {
    DecodeBounds();
    CurveU(y).Mul(Invert(CurveV(y)))
  }

  /** The candidate (u v^3)(u v^7)^((p-5)/8) for a square root of u / v. */
  function Candidate(y: FieldElement): (x: FieldElement)
    requires y.Below(0x40_0000_0000_0000)
    ensures x.Tight()
  {
    hide FieldElement.Mul, CurveU, CurveV, Pow22523;
    DecodeBounds();
    var u, v := CurveU(y), CurveV(y);
    var uv3 := u.Mul(v.Square().Mul(v));
    var uv7 := uv3.Mul(v.Square().Mul(v.Square()));
    uv3.Mul(Pow22523(uv7))
  }

  /** The test `x.square().to_bytes() == x2.to_bytes()`. */
  function SquaresTo(x: FieldElement, x2: FieldElement): bool
    requires x.Tight() && x2.Tight()
  {
    DecodeBounds();
    ToBytes(x.Square()) == ToBytes(x2)
  }

  function TimesRoot(x: FieldElement): (r: FieldElement)
    requires x.Tight()
    ensures r.Tight()
  {
    DecodeBounds();
    x.Mul(SQRT_M1)
  }

  /** The candidate, or the candidate times a root of -1, whichever squares to u / v. */
  function Root(y: FieldElement): (x: Option<FieldElement>)
    requires y.Below(0x40_0000_0000_0000)
  {
    hide *;
    var x, x2 := Candidate(y), XSquared(y);
    if SquaresTo(x, x2) then Some(x)
    else if SquaresTo(TimesRoot(x), x2) then Some(TimesRoot(x))
    else None
  }

  /** Negate x when its sign bit is not the wanted one. */
  function WithSign(x: FieldElement, signBit: bool): (r: FieldElement)
    requires x.Tight()
    ensures r.Tight()
  {
    DecodeBounds();
    if IsNegative(x) != signBit then ZERO.Sub(x) else x
  }

  function FromAffine(x: FieldElement, y: FieldElement): (p: EdwardsPoint)
    requires x.Tight() && y.Tight()
    ensures p.Bounded()
  {
    DecodeBounds();
    EdwardsPoint(x, y, ONE, x.Mul(y))
  }

  function DecodedY(bytes: seq<byte>): (y: FieldElement)
    requires |bytes| == 32
    ensures y.Tight() && y.Below(0x40_0000_0000_0000)
  {
    FromBytesValue(bytes);
    FromBytes(bytes)
  }

  function IsZero(x: FieldElement): bool
    requires x.Tight()
  {
    DecodeBounds();
    ToBytes(x) == seq(32, _ => 0)
  }

  function OnYAxis(y: FieldElement): (p: EdwardsPoint)
    requires y.Tight()
    ensures p.Bounded()
  {
    DecodeBounds();
    EdwardsPoint(ZERO, y, ONE, ZERO)
  }

  lemma RootTight(y: FieldElement)
    requires y.Below(0x40_0000_0000_0000)
    ensures Root(y).Some? ==> Root(y).value.Tight()
  {
    hide FieldElement.Tight, Candidate, XSquared, SquaresTo, TimesRoot;
    var x := Candidate(y);
    var r := TimesRoot(x);
  }

  function Decompress(bytes: seq<byte>): (p: Option<EdwardsPoint>)
    requires |bytes| == 32
  {
    hide *;
    var signBit := bytes[31] >= 0x80;
    var y := DecodedY(bytes);
    RootTight(y);
    if IsZero(XSquared(y)) then
      if signBit then None else Some(OnYAxis(y))
    else
      match Root(y)
      case None => None
      case Some(r) => Some(FromAffine(WithSign(r, signBit), y))
  }

  lemma DecompressBounded(bytes: seq<byte>)
    requires |bytes| == 32
    ensures Decompress(bytes).Some? ==> Decompress(bytes).value.Bounded()
  {
    hide EdwardsPoint.Bounded, FieldElement.Tight, DecodedY, IsZero, XSquared, OnYAxis, Root, FromAffine, WithSign;
    var y := DecodedY(bytes);
    RootTight(y);
  }
}

/**
 What decompress makes of 32 bytes (crates/webgate-core/src/ed25519.rs:615-673): which strings decode, to
 which point, and which points come back from their encoding.
 */
module PointDecoding {
  import opened Wrappers
  import opened Words
  import opened Arith
  import opened LittleEndian
  import opened FieldElements
  import opened FieldEncoding
  import opened FieldPower
  import opened EdwardsAlgebra
  import opened EdwardsGroup
  import opened EdwardsPoints
  import opened ScalarMultiplication
  import opened PointEncoding
  import opened FieldZero
  import opened FieldLarge
  import opened SquareRoots
  import FermatTheorem
  import Scalars

  lemma ResidueOfP(n: int)
    ensures 0 <= n % P < P && Cong(n, n % P, P) && Cong(n % P, n, P)
  {
    hide Cong;
    DivModUnique(n % P, 0, n % P, P);
    CongIffMod(n, n % P, P);
    CongSym(n, n % P, P);
  }

  // ---------------------------------------------------------------- u, v and their quotient

  /** u = y^2 - 1 and v = d y^2 + 1. */
  lemma CurveValues(y: FieldElement)
    requires y.Below(0x40_0000_0000_0000)
    ensures var w := y.Value() * y.Value();
      Cong(CurveU(y).Value(), w - 1, P) && Cong(CurveV(y).Value(), CurveD() * w + 1, P)
  {
    hide FieldElement.Value, FieldElement.Mul, FieldElement.Sub, FieldElement.Add, Cong;
    DecodeBounds();
    SmallConstants();
    var v := y.Value();
    CongRefl(v, P);
    CongRefl(1, P);
    CongRefl(CurveD(), P);
    MulRep(y, y, v, v);
    SubRep(y.Square(), ONE, v * v, 1);
    MulRep(D, y.Square(), CurveD(), v * v);
    AddRep(D.Mul(y.Square()), ONE, CurveD() * (v * v), 1);
  }

  /** On the curve, u = v x^2, for numbers that stand for u and v. */
  lemma CurveQuotient(x: int, y: int, u: int, v: int, d: int, m: int)
    requires SolvedCurve(x, y, d, m) && Cong(u, y * y - 1, m) && Cong(v, d * (y * y) + 1, m)
    ensures Cong(u, v * (x * x), m)
  {
    hide Cong;
    var w, r := d * (y * y) + 1, x * x;
    CongSym(w * r, y * y - 1, m);
    CongTrans(u, y * y - 1, w * r, m);
    CongRight(v, w, r, m);
    CongSym(v * r, w * r, m);
    CongTrans(u, w * r, v * r, m);
  }

  /** d y^2 is never -1, because d is no square and -1 is. */
  lemma DenominatorUnit(y: int, d: int, i: int, m: int)
    requires CurveField(d, i, m)
    ensures !Cong(d * (y * y) + 1, 0, m)
  {
    hide Cong;
    if Cong(d * (y * y) + 1, 0, m) {
      CongRefl(-1, m);
      CongAdd(d * (y * y) + 1, 0, -1, -1, m);
      var k := InverseOfY(y, d, i, m);
      RootOfD(y, k, d, i, m);
      NoRoot(i * k, d, i, m);
    }
  }

  lemma NoRoot(s: int, d: int, i: int, m: int)
    requires CurveField(d, i, m)
    ensures !Cong(s * s, d, m)
  {
    hide Cong;
    assert !RootOf(s, d, m);
  }

  lemma InverseOfY(y: int, d: int, i: int, m: int) returns (k: int)
    requires CurveField(d, i, m) && Cong(d * (y * y), -1, m)
    ensures Cong(y * k, 1, m)
  {
    hide Cong;
    if Cong(y, 0, m) {
      CongSquare(y, 0, m);
      CongScale(d, y * y, 0, m);
      CongSym(d * (y * y), -1, m);
      CongTrans(-1, d * (y * y), 0, m);
      MinusOneNotZero(m);
      assert false;
    }
    k := Inverse(y, m);
  }

  lemma MinusOneNotZero(m: int)
    requires m > 1
    ensures !Cong(-1, 0, m)
  {
    if Cong(-1, 0, m) {
      CongIffMod(-1, 0, m);
      DivModUnique(-1, -1, m - 1, m);
    }
  }

  /** (i / y)^2 = d. */
  lemma RootOfD(y: int, k: int, d: int, i: int, m: int)
    requires Cong(y * k, 1, m) && Cong(d * (y * y), -1, m) && Cong(i * i, -1, m)
    ensures Cong((i * k) * (i * k), d, m)
  {
    hide Cong;
    var kk := k * k;
    Interchange(i, k, i, k);
    CongRight(i * i, -1, kk, m);
    CongRight(d * (y * y), -1, kk, m);
    CongSym((d * (y * y)) * kk, -1 * kk, m);
    CongTrans((i * i) * kk, -1 * kk, (d * (y * y)) * kk, m);
    Interchange(y, k, y, k);
    CongSquare(y * k, 1, m);
    CongScale(d, (y * k) * (y * k), 1, m);
    assert (d * (y * y)) * kk == d * ((y * y) * kk);
    CongTrans((i * i) * kk, d * ((y * k) * (y * k)), d, m);
  }

  /** v is never zero. */
  lemma CurveVUnit(y: FieldElement)
    requires PrimeAndNonSquare() && y.Below(0x40_0000_0000_0000)
    ensures !Cong(CurveV(y).Value(), 0, P)
  {
    hide FieldElement.Value, Cong, CurveU, CurveV, CurveD, PrimeAndNonSquare, CurveField;
    FieldFacts();
    CurveValues(y);
    var v: int, w := CurveV(y).Value(), y.Value() * y.Value();
    if Cong(v, 0, P) {
      CongSym(v, CurveD() * w + 1, P);
      CongTrans(CurveD() * w + 1, v, 0, P);
      DenominatorUnit(y.Value(), CurveD(), SQRT_M1.Value(), P);
      assert false;
    }
  }

  /** v times the recovered x^2 is u. */
  lemma QuotientTimes(y: FieldElement)
    requires PrimeAndNonSquare() && y.Below(0x40_0000_0000_0000)
    ensures Cong(CurveV(y).Value() * XSquared(y).Value(), CurveU(y).Value(), P)
  {
    hide FieldElement.Value, FieldElement.Mul, Cong, CurveU, CurveV, Invert, CurveD, Pow, PrimeAndNonSquare;
    DecodeBounds();
    var u, v := CurveU(y), CurveV(y);
    CurveVUnit(y);
    InvertExactly(v);
    CongRefl(u.Value(), P);
    CongRefl(Invert(v).Value(), P);
    MulRep(u, Invert(v), u.Value(), Invert(v).Value());
    var w: int, k: int, z: int := u.Value(), Invert(v).Value(), v.Value();
    CongRefl(z, P);
    CongMul(z, z, XSquared(y).Value(), w * k, P);
    assert z * (w * k) == (k * z) * w;
    CongRight(k * z, 1, w, P);
    CongTrans(z * XSquared(y).Value(), (k * z) * w, w, P);
  }

  /** The recovered x^2 is n exactly when u is v n. */
  lemma XSquaredIs(y: FieldElement, n: int)
    requires PrimeAndNonSquare() && y.Below(0x40_0000_0000_0000)
    ensures Cong(XSquared(y).Value(), n, P) <==> Cong(CurveU(y).Value(), CurveV(y).Value() * n, P)
  {
    hide FieldElement.Value, Cong, CurveU, CurveV, XSquared, PrimeAndNonSquare;
    QuotientTimes(y);
    var u: int, v: int, s: int := CurveU(y).Value(), CurveV(y).Value(), XSquared(y).Value();
    CongSym(v * s, u, P);
    if Cong(s, n, P) {
      CongScale(v, s, n, P);
      CongTrans(u, v * s, v * n, P);
    }
    if Cong(u, v * n, P) {
      CongTrans(v * s, u, v * n, P);
      FieldOfP();
      CurveVUnit(y);
      UnitExists(v, P);
      assert v * s == s * v && v * n == n * v;
      Cancel(s, n, v, Inverse(v, P), P);
    }
  }

  // ---------------------------------------------------------------- the candidate

  /** u v^3 and u v^7 on limbs. */
  lemma CandidateParts(u: FieldElement, v: FieldElement)
    requires u.Below(0x40_0000_0000_0000) && v.Below(0x40_0000_0000_0000)
    ensures v.Square().Tight() && v.Square().Mul(v).Tight() && v.Square().Mul(v.Square()).Tight()
    ensures var uv3 := u.Mul(v.Square().Mul(v));
      uv3.Tight() && Cong(uv3.Value(), u.Value() * Pow(v.Value(), 3), P)
    ensures var uv7 := u.Mul(v.Square().Mul(v)).Mul(v.Square().Mul(v.Square()));
      uv7.Tight() && Cong(uv7.Value(), u.Value() * Pow(v.Value(), 7), P)
  {
    hide FieldElement.Value, FieldElement.Mul, FieldElement.Below, FieldElement.Tight, Cong, Pow;
    DecodeBounds();
    var z: int, w: int := v.Value(), u.Value();
    FirstPowers(z);
    CongRefl(z, P);
    CongRefl(w, P);
    MulRep(v, v, z, z);
    MulRep(v.Square(), v, z * z, z);
    MulRep(v.Square(), v.Square(), z * z, z * z);
    MulRep(u, v.Square().Mul(v), w, Pow(z, 3));
    MulRep(u.Mul(v.Square().Mul(v)), v.Square().Mul(v.Square()), w * Pow(z, 3), Pow(z, 4));
    PowAdd(z, 3, 4);
    assert (w * Pow(z, 3)) * Pow(z, 4) == w * Pow(z, 7);
  }

  lemma CandidateOf(u: FieldElement, v: FieldElement, k: nat)
    requires u.Below(0x40_0000_0000_0000) && v.Below(0x40_0000_0000_0000)
    requires k + 3 == 0x1000000000000000000000000000000000000000000000000000000000000000
    ensures v.Square().Tight() && v.Square().Mul(v).Tight() && v.Square().Mul(v.Square()).Tight()
    ensures u.Mul(v.Square().Mul(v)).Tight() && u.Mul(v.Square().Mul(v)).Mul(v.Square().Mul(v.Square())).Tight()
    ensures var uv3 := u.Mul(v.Square().Mul(v));
      var uv7 := uv3.Mul(v.Square().Mul(v.Square()));
      Cong(uv3.Mul(Pow22523(uv7)).Value(),
           (u.Value() * Pow(v.Value(), 3)) * Pow(u.Value() * Pow(v.Value(), 7), k), P)
  {
    hide FieldElement.Value, FieldElement.Mul, FieldElement.Below, FieldElement.Tight, Cong, Pow22523, Pow;
    DecodeBounds();
    CandidateParts(u, v);
    var uv3 := u.Mul(v.Square().Mul(v));
    var uv7 := uv3.Mul(v.Square().Mul(v.Square()));
    var t: int, w: int := u.Value() * Pow(v.Value(), 3), u.Value() * Pow(v.Value(), 7);
    PowerRep(uv7, w, k);
    MulRep(uv3, Pow22523(uv7), t, Pow(w, k));
  }

  /** The candidate is u v^3 times the k-th power of u v^7. */
  ghost predicate CandidateShape(y: FieldElement, k: nat)
    requires y.Below(0x40_0000_0000_0000)
  {
    hide CurveU, CurveV, Candidate, FieldElement.Value, Pow, Cong;
    var u: int, v: int := CurveU(y).Value(), CurveV(y).Value();
    Cong(Candidate(y).Value(), (u * Pow(v, 3)) * Pow(u * Pow(v, 7), k), P)
  }

  lemma CandidateIs(y: FieldElement, k: nat)
    requires y.Below(0x40_0000_0000_0000)
    requires k + 3 == 0x1000000000000000000000000000000000000000000000000000000000000000
    ensures CandidateShape(y, k)
  {
    hide FieldElement.Value, FieldElement.Mul, FieldElement.Below, FieldElement.Tight, Cong, CurveU, CurveV, Pow22523,
      Pow;
    DecodeBounds();
    CandidateOf(CurveU(y), CurveV(y), k);
  }

  lemma PowerRep(a: FieldElement, w: int, k: nat)
    requires a.Below(0x40_0000_0000_0000) && Cong(a.Value(), w, P)
    requires k + 3 == 0x1000000000000000000000000000000000000000000000000000000000000000
    ensures Cong(Pow22523(a).Value(), Pow(w, k), P)
  {
    hide FieldElement.Value, FieldElement.Below, Cong, Pow22523, Pow;
    Pow22523Power(a, k);
    CongPow(a.Value(), w, k, P);
    CongTrans(Pow22523(a).Value(), Pow(a.Value(), k), Pow(w, k), P);
  }

  /** k = 2^252 - 3 and e = p - 1 = 8 k + 4. */
  lemma Exponents() returns (k: nat, e: nat)
    ensures k + 3 == 0x1000000000000000000000000000000000000000000000000000000000000000
    ensures e + 1 == P && e == 8 * k + 4
  {
    var k' :| k' + 3 == 0x1000000000000000000000000000000000000000000000000000000000000000;
    var e' :| e' + 1 == P;
    k, e := k', e';
  }

  /** The square of the candidate has the fourth power of the recovered x^2. */
  ghost predicate SameFourth(y: FieldElement)
    requires y.Below(0x40_0000_0000_0000)
  {
    hide Candidate, XSquared, FieldElement.Value, Pow, Cong;
    var c: int, s: int := Candidate(y).Value(), XSquared(y).Value();
    Cong(Pow(c * c, 4), Pow(s, 4), P)
  }

  /** So it has for every y. */
  lemma CandidateFourth(y: FieldElement)
    requires PrimeAndNonSquare() && y.Below(0x40_0000_0000_0000)
    ensures SameFourth(y)
  {
    hide FieldElement.Value, Cong, CurveU, CurveV, XSquared, Candidate, PrimeAndNonSquare, Pow;
    var u: int, v: int := CurveU(y).Value(), CurveV(y).Value();
    var c: int, s: int := Candidate(y).Value(), XSquared(y).Value();
    if Cong(u, 0, P) {
      CandidateZero(y);
      CongSquare(c, 0, P);
      CongPow(c * c, 0, 4, P);
      CongPow(s, 0, 4, P);
      CongSym(Pow(s, 4), Pow(0, 4), P);
      CongTrans(Pow(c * c, 4), Pow(0, 4), Pow(s, 4), P);
    } else {
      var k, e := Exponents();
      CandidateIs(y, k);
      QuotientTimes(y);
      FieldOfP();
      ProductUnit(y);
      FermatOfP(u * Pow(v, 7), e);
      FourthPowers(c, u, v, s, k, e, P);
    }
  }

  /** u v^7 is zero only where u is. */
  lemma ProductUnit(y: FieldElement)
    requires PrimeAndNonSquare() && y.Below(0x40_0000_0000_0000) && !Cong(CurveU(y).Value(), 0, P)
    ensures !Cong(CurveU(y).Value() * Pow(CurveV(y).Value(), 7), 0, P)
  {
    hide FieldElement.Value, Cong, CurveU, CurveV, PrimeAndNonSquare, Pow;
    var u: int, v: int := CurveU(y).Value(), CurveV(y).Value();
    FieldOfP();
    CurveVUnit(y);
    PowUnit(v, 7, P);
    if Cong(u * Pow(v, 7), 0, P) {
      ProductZero(u, Pow(v, 7), P);
    }
  }

  lemma {:induction false} PowUnit(v: int, n: nat, m: int)
    requires Field(m) && !Cong(v, 0, m)
    ensures !Cong(Pow(v, n), 0, m)
  {
    hide Cong, Field;
    if n == 0 {
      FermatTheorem.OneNotZero(m);
    } else {
      PowUnit(v, n - 1, m);
      if Cong(v * Pow(v, n - 1), 0, m) {
        ProductZero(v, Pow(v, n - 1), m);
      }
    }
  }

  // ---------------------------------------------------------------- the root test

  /** Everything the root test looks at has a value of 19 or more. */
  lemma DecodeLarge(y: FieldElement)
    requires y.Below(0x40_0000_0000_0000)
    ensures Large(XSquared(y)) && Large(Candidate(y)) && Large(TimesRoot(Candidate(y)))
  {
    hide FieldElement.Mul, FieldElement.Value, FieldElement.Below, CurveU, CurveV, Pow22523, Invert, Positive, Large;
    DecodeBounds();
    CurvePositive(y);
    CurveULarge(y);
    var u, v := CurveU(y), CurveV(y);
    InvertPositive(v);
    MulLarge(u, Invert(v));
    MulPositive(v, v);
    MulPositive(v.Square(), v);
    MulPositive(v.Square(), v.Square());
    MulLarge(u, v.Square().Mul(v));
    var uv3 := u.Mul(v.Square().Mul(v));
    MulPositive(uv3, v.Square().Mul(v.Square()));
    PowPositive(uv3.Mul(v.Square().Mul(v.Square())));
    MulLarge(uv3, Pow22523(uv3.Mul(v.Square().Mul(v.Square()))));
    RootPositive();
    MulLarge(Candidate(y), SQRT_M1);
  }

  lemma RootPositive()
    ensures Positive(SQRT_M1) && Positive(ONE)
  {
  }

  lemma CurveULarge(y: FieldElement)
    requires y.Below(0x40_0000_0000_0000)
    ensures Large(CurveU(y))
  {
    hide FieldElement.Mul, FieldElement.Sub, FieldElement.Value, Large, Positive;
    DecodeBounds();
    SmallConstants();
    SubLarge(y.Square(), ONE);
  }

  /** Below 38, equal fourth powers come from equal numbers, and written alike means equal or 19 apart below 38. */
  lemma WrittenDistinct(r: int, s: int)
    requires 0 <= r < P && 0 <= s < P && Written(r) == Written(s) && Cong(Pow(r, 4), Pow(s, 4), P)
    ensures r == s
  {
    hide Cong;
    if r < s {
      SmallFourth(r, s);
    } else if s < r {
      CongSym(Pow(r, 4), Pow(s, 4), P);
      SmallFourth(s, r);
    }
  }

  lemma SmallFourth(r: int, s: int)
    requires 0 <= r < s < 38
    ensures !Cong(Pow(r, 4), Pow(s, 4), P)
  {
    FirstPowers(r);
    FirstPowers(s);
    SquareGrows(r, s, 38);
    SquareGrows(r * r, s * s, 38 * 38);
    hide Pow;
    if Cong(Pow(r, 4), Pow(s, 4), P) {
      FermatTheorem.SmallDifference(Pow(r, 4), Pow(s, 4), P);
    }
  }

  lemma SquareGrows(r: int, s: int, n: int)
    requires 0 <= r < s < n
    ensures 0 <= r * r < s * s < n * n
  {
    assert r * r <= r * s;
    assert r * s < s * s;
  }

  /** The root test is exact: no two different squares it could meet are written alike. */
  lemma RootTest(z: FieldElement, x2: FieldElement)
    requires z.Tight() && x2.Tight() && Large(z) && Large(x2)
    requires var v: int := z.Value(); Cong(Pow(v * v, 4), Pow(x2.Value(), 4), P)
    ensures SquaresTo(z, x2) <==> Cong(z.Value() * z.Value(), x2.Value(), P)
  {
    hide FieldElement.Value, FieldElement.Mul, Cong, ToBytes, Large, Positive, Written, Pow;
    DecodeBounds();
    LargePositive(z);
    MulLarge(z, z);
    WrittenAlike(z.Square(), x2);
    var v: int, q: int, n: int := z.Value(), z.Square().Value(), x2.Value();
    MulExact(z, z);
    CongIffMod(q, v * v, P);
    CongIffMod(v * v, n, P);
    var r, s := q % P, n % P;
    ResidueOfP(q);
    ResidueOfP(n);
    if Written(r) == Written(s) {
      CongTrans(r, q, v * v, P);
      CongPow(r, v * v, 4, P);
      CongPow(n, s, 4, P);
      CongTrans(Pow(r, 4), Pow(v * v, 4), Pow(n, 4), P);
      CongTrans(Pow(r, 4), Pow(n, 4), Pow(s, 4), P);
      WrittenDistinct(r, s);
    }
  }

  lemma RootTimes(c: FieldElement)
    requires c.Tight()
    ensures var v: int, w: int := c.Value(), TimesRoot(c).Value();
      Cong(w, v * SQRT_M1.Value(), P) && Cong(w * w, -(v * v), P)
  {
    hide FieldElement.Value, FieldElement.Mul, Cong;
    DecodeBounds();
    Constants();
    var v: int, i: int, w: int := c.Value(), SQRT_M1.Value(), TimesRoot(c).Value();
    CongRefl(v, P);
    CongRefl(i, P);
    MulRep(c, SQRT_M1, v, i);
    CongSquare(w, v * i, P);
    Interchange(v, i, v, i);
    CongScale(v * v, i * i, -1, P);
    assert (v * v) * -1 == -(v * v);
    CongTrans(w * w, (v * v) * (i * i), -(v * v), P);
  }

  lemma OppositeFourth(n: int)
    ensures Pow(-n, 4) == Pow(n, 4)
  {
    FirstPowers(n);
    FirstPowers(-n);
    assert -n * -n == n * n;
  }

  /** Both root tests are exact: the candidate squares to x^2, or it times a root of -1 does. */
  lemma RootTests(y: FieldElement)
    requires PrimeAndNonSquare() && y.Below(0x40_0000_0000_0000)
    ensures var c: int, s: int := Candidate(y).Value(), XSquared(y).Value();
      && (SquaresTo(Candidate(y), XSquared(y)) <==> Cong(c * c, s, P))
      && (SquaresTo(TimesRoot(Candidate(y)), XSquared(y)) <==> Cong(-(c * c), s, P))
  {
    hide FieldElement.Value, FieldElement.Tight, Cong, Candidate, XSquared, SquaresTo, TimesRoot, PrimeAndNonSquare,
      Pow, Large;
    DecodeLarge(y);
    CandidateFourth(y);
    var z, x2 := Candidate(y), XSquared(y);
    var c: int, w: int, s: int := z.Value(), TimesRoot(z).Value(), x2.Value();
    RootTest(z, x2);
    RootTimes(z);
    CongPow(w * w, -(c * c), 4, P);
    OppositeFourth(c * c);
    CongTrans(Pow(w * w, 4), Pow(c * c, 4), Pow(s, 4), P);
    RootTest(TimesRoot(z), x2);
    SameLeft(w * w, -(c * c), s);
  }

  /** Which root is found, if any. */
  lemma RootCases(y: FieldElement)
    requires PrimeAndNonSquare() && y.Below(0x40_0000_0000_0000)
    ensures var c: int, s: int := Candidate(y).Value(), XSquared(y).Value();
      Root(y) == if Cong(c * c, s, P) then Some(Candidate(y))
                 else if Cong(-(c * c), s, P) then Some(TimesRoot(Candidate(y)))
                 else None
  {
    hide FieldElement.Value, FieldElement.Tight, Cong, Candidate, XSquared, SquaresTo, TimesRoot, PrimeAndNonSquare;
    RootTests(y);
  }

  /** The root found is a root of the recovered x^2. */
  lemma RootExact(y: FieldElement)
    requires PrimeAndNonSquare() && y.Below(0x40_0000_0000_0000) && Root(y).Some?
    ensures Root(y).value.Tight() && Large(Root(y).value)
    ensures Cong(Root(y).value.Value() * Root(y).value.Value(), XSquared(y).Value(), P)
  {
    hide FieldElement.Value, FieldElement.Tight, Cong, Candidate, XSquared, TimesRoot, PrimeAndNonSquare, Large, Root;
    DecodeLarge(y);
    RootCases(y);
    var z := Candidate(y);
    RootTimes(z);
    var c: int, w: int, s: int := z.Value(), TimesRoot(z).Value(), XSquared(y).Value();
    if !Cong(c * c, s, P) {
      CongTrans(w * w, -(c * c), s, P);
    }
  }

  lemma SameLeft(s: int, t: int, r: int)
    requires Cong(s, t, P)
    ensures Cong(s, r, P) <==> Cong(t, r, P)
  {
    CongIffMod(s, r, P);
    CongIffMod(t, r, P);
    CongIffMod(s, t, P);
  }

  /** Where the recovered x^2 is a square, a root is found. */
  lemma RootFound(y: FieldElement, x: int)
    requires PrimeAndNonSquare() && y.Below(0x40_0000_0000_0000) && Cong(XSquared(y).Value(), x * x, P)
    ensures Root(y).Some?
  {
    hide FieldElement.Value, FieldElement.Mul, Cong, Candidate, XSquared, CurveU, CurveV, TimesRoot, Pow,
      PrimeAndNonSquare, Root;
    var c: int, s: int := Candidate(y).Value(), XSquared(y).Value();
    XSquaredIs(y, x * x);
    RootCases(y);
    CongSym(s, x * x, P);
    if Cong(x, 0, P) {
      CongSquare(x, 0, P);
      CongTrans(s, x * x, 0, P);
      XSquaredIs(y, 0);
      CandidateZero(y);
      CongSquare(c, 0, P);
      CongSym(s, 0, P);
      CongTrans(c * c, 0, s, P);
    } else {
      var k, e := CandidateRoot(y, x);
      FermatOfP(x, e);
      FieldOfP();
      OneOfTwo(c, x, k, e, P);
      if Cong(c * c, x * x, P) {
        CongTrans(c * c, x * x, s, P);
      } else {
        CongTrans(-(c * c), x * x, s, P);
      }
    }
  }

  /** For a square x^2 the candidate is x^(2k+2). */
  lemma CandidateRoot(y: FieldElement, x: int) returns (k: nat, e: nat)
    requires PrimeAndNonSquare() && y.Below(0x40_0000_0000_0000) && Cong(XSquared(y).Value(), x * x, P)
    ensures e + 1 == P && e == 8 * k + 4 && Cong(Candidate(y).Value(), Pow(x, 2 * k + 2), P)
  {
    hide FieldElement.Value, Cong, Candidate, XSquared, CurveU, CurveV, Pow, PrimeAndNonSquare;
    XSquaredIs(y, x * x);
    k, e := Exponents();
    CandidateIs(y, k);
    CurveVUnit(y);
    FermatOfP(CurveV(y).Value(), e);
    CandidateOfSquare(Candidate(y).Value(), CurveU(y).Value(), CurveV(y).Value(), x, k, e, P);
  }

  // ---------------------------------------------------------------- the sign

  /** The x that decoding takes for a root of residue r and a sign bit. */
  function DecodedX(r: int, sign: bool): int {
    if (Written(r) % 2 != 0) == sign then r else -r % P
  }

  lemma SignedResidue(x: FieldElement, sign: bool)
    requires x.Tight() && Large(x)
    ensures WithSign(x, sign).Value() % P == DecodedX(x.Value() % P, sign)
  {
    hide FieldElement.Value, FieldElement.Sub, Cong, IsNegative, Large, Written;
    DecodeBounds();
    SignWritten(x);
    if IsNegative(x) != sign {
      SmallConstants();
      CongRefl(0, P);
      Negated(ZERO, x);
      ResidueOfP(x.Value());
      var v: int, r := x.Value(), x.Value() % P;
      CongScale(-1, v, r, P);
      CongTrans(WithSign(x, sign).Value(), -v, -r, P);
      CongIffMod(WithSign(x, sign).Value(), -r, P);
    }
  }

  lemma Negated(z: FieldElement, x: FieldElement)
    requires z.Below(0x40_0000_0000_0000) && x.Subtrahend() && Cong(z.Value(), 0, P)
    ensures var v: int := x.Value(); Cong(z.Sub(x).Value(), -v, P)
  {
    hide FieldElement.Value, FieldElement.Sub, Cong, FieldElement.Below, FieldElement.Subtrahend;
    CongRefl(x.Value(), P);
    SubRep(z, x, 0, x.Value());
  }

  lemma OppositeResidue(x: int)
    requires 0 <= x < P
    ensures -x % P == if x == 0 then 0 else P - x
  {
    if x != 0 {
      DivModUnique(-x, -1, P - x, P);
    }
  }

  /** With the sign bit of section 5.1.2 of RFC 8032, x comes back unless the root is a residue from 1 to 18. */
  lemma HonestSign(x: int, r: int)
    requires 0 <= x < P && (r == x || r == -x % P)
    ensures DecodedX(r, x % 2 != 0) == if x == 0 || r >= 19 then x else P - x
  {
    OppositeResidue(x);
    OppositeResidue(r);
  }

  // ---------------------------------------------------------------- back to the curve

  /** And back from u = v x^2 to the curve. */
  lemma OnCurveFrom(x: int, y: int, u: int, v: int, x2: int, d: int, m: int)
    requires Cong(u, y * y - 1, m) && Cong(v, d * (y * y) + 1, m)
    requires Cong(v * x2, u, m) && Cong(x * x, x2, m)
    ensures SolvedCurve(x, y, d, m)
  {
    hide Cong;
    var w := d * (y * y) + 1;
    CongRight(v, w, x * x, m);
    CongSym(v * (x * x), w * (x * x), m);
    CongRefl(v, m);
    CongMul(v, v, x * x, x2, m);
    CongTrans(w * (x * x), v * (x * x), v * x2, m);
    CongTrans(w * (x * x), v * x2, u, m);
    CongTrans(w * (x * x), u, y * y - 1, m);
  }

  /** A point of residues x and y stands for them. */
  lemma AffineCopy(x: FieldElement, y: FieldElement, a: Affine)
    requires PrimeAndNonSquare() && OnAffine(a, CurveD(), P) && x.Tight() && y.Tight()
    requires Cong(x.Value(), a.x, P) && Cong(y.Value(), a.y, P)
    ensures Valid(FromAffine(x, y)) && PointOf(FromAffine(x, y)) == a
  {
    hide FieldElement.Value, FieldElement.Mul, Cong, CurveD, OnAffine, ToAffine, Proper, PrimeAndNonSquare;
    DecodeBounds();
    SmallConstants();
    FieldFacts();
    var q := Lift(a, CurveD(), P);
    var p := FromAffine(x, y);
    CongRefl(1, P);
    MulRep(x, y, a.x, a.y);
    assert p.Ints().CongruentTo(q, P);
    CopyProper(p.Ints(), q, CurveD(), SQRT_M1.Value(), P);
  }

  /** Decompression of a string whose root test succeeds. */
  lemma DecompressRoot(bytes: seq<byte>)
    requires |bytes| == 32 && Root(DecodedY(bytes)).Some?
    ensures DecodedY(bytes).Tight() && Root(DecodedY(bytes)).value.Tight()
    ensures Decompress(bytes)
        == Some(FromAffine(WithSign(Root(DecodedY(bytes)).value, bytes[31] >= 0x80), DecodedY(bytes)))
  {
    hide FieldElement.Tight, FieldElement.Value, DecodedY, Root, XSquared, IsZero, WithSign, FromAffine, OnYAxis;
    RootTight(DecodedY(bytes));
    GuardNeverTaken(bytes);
  }

  lemma RootGiven(bytes: seq<byte>)
    requires |bytes| == 32 && Decompress(bytes).Some?
    ensures Root(DecodedY(bytes)).Some?
  {
    hide DecodedY, Root, XSquared, IsZero, WithSign, FromAffine, OnYAxis;
    GuardNeverTaken(bytes);
  }

  // ---------------------------------------------------------------- what decodes, and to what

  /** The residue of the root that decoding these bytes finds; zero where none is found. */
  ghost function RootResidue(bytes: seq<byte>): int
    requires |bytes| == 32
  {
    hide FieldElement.Value, DecodedY, Root;
    match Root(DecodedY(bytes))
    case Some(r) => r.Value() % P
    case None => 0
  }

  /** The residue of the y that the bytes hold. */
  ghost function ResidueY(bytes: seq<byte>): int
    requires |bytes| == 32
  {
    hide FieldElement.Value, DecodedY;
    DecodedY(bytes).Value() % P
  }

  /** The bytes decode, to a valid point that stands for a. */
  ghost predicate DecodesTo(bytes: seq<byte>, a: Affine)
    requires |bytes| == 32
  {
    hide *;
    && PrimeAndNonSquare() && Decompress(bytes).Some?
    && Valid(Decompress(bytes).value) && PointOf(Decompress(bytes).value) == a
  }

  /** A square root of the recovered x^2 makes a point of the curve. */
  lemma RootOnCurve(x: int, y: int, u: int, v: int, x2: int, d: int, m: int)
    requires m > 1 && Cong(u, y * y - 1, m) && Cong(v, d * (y * y) + 1, m)
    requires Cong(v * x2, u, m) && Cong(x * x, x2, m)
    ensures OnAffine(Affine(x % m, y % m), d, m)
  {
    hide Cong, SolvedCurve;
    OnCurveFrom(x, y, u, v, x2, d, m);
    Residue(x, m);
    Residue(y, m);
    SameCurve(x, x % m, y, y % m, d, m);
  }

  lemma SignSquares(x: FieldElement, sign: bool)
    requires x.Tight()
    ensures var v: int, w: int := x.Value(), WithSign(x, sign).Value(); Cong(w * w, v * v, P)
  {
    hide FieldElement.Value, FieldElement.Sub, Cong, IsNegative;
    DecodeBounds();
    SmallConstants();
    CongRefl(0, P);
    var v: int, w: int := x.Value(), WithSign(x, sign).Value();
    CongRefl(v * v, P);
    if IsNegative(x) != sign {
      Negated(ZERO, x);
      CongSquare(w, -v, P);
      assert -v * -v == v * v;
    }
  }

  /** With either sign, the root squares to the recovered x^2. */
  lemma RootSquares(y: FieldElement, sign: bool)
    requires y.Below(0x40_0000_0000_0000) && PrimeAndNonSquare() && Root(y).Some?
    ensures Root(y).value.Tight() && Large(Root(y).value)
    ensures var w: int := WithSign(Root(y).value, sign).Value(); Cong(w * w, XSquared(y).Value(), P)
  {
    hide FieldElement.Value, FieldElement.Tight, Cong, Root, WithSign, XSquared, PrimeAndNonSquare, Large;
    RootExact(y);
    SignSquares(Root(y).value, sign);
    var v: int, w: int := Root(y).value.Value(), WithSign(Root(y).value, sign).Value();
    CongTrans(w * w, v * v, XSquared(y).Value(), P);
  }

  /** The point that bytes with a root decode to. */
  lemma DecodedPoint(bytes: seq<byte>)
    requires |bytes| == 32 && PrimeAndNonSquare() && Root(DecodedY(bytes)).Some?
    ensures DecodesTo(bytes, Affine(DecodedX(RootResidue(bytes), bytes[31] >= 0x80), ResidueY(bytes)))
  {
    hide FieldElement.Value, FieldElement.Tight, Cong, CurveD, DecodedY, Root, WithSign, FromAffine, XSquared,
      DecodedX, PrimeAndNonSquare, Valid, PointOf, Large, OnAffine, Decompress, CurveU, CurveV;
    var y, sign := DecodedY(bytes), bytes[31] >= 0x80;
    DecompressRoot(bytes);
    RootSquares(y, sign);
    SignedResidue(Root(y).value, sign);
    var x := WithSign(Root(y).value, sign);
    QuotientTimes(y);
    CurveValues(y);
    RootOnCurve(x.Value(), y.Value(), CurveU(y).Value(), CurveV(y).Value(), XSquared(y).Value(),
      CurveD(), P);
    ResidueOfP(x.Value());
    ResidueOfP(y.Value());
    AffineCopy(x, y, Affine(x.Value() % P, y.Value() % P));
  }

  /** Whatever bytes decode, they decode to a valid point of the curve: with the y they hold, and the root as x. */
  lemma DecodedOnCurve(bytes: seq<byte>)
    requires |bytes| == 32 && PrimeAndNonSquare() && Decompress(bytes).Some?
    ensures var a := Affine(DecodedX(RootResidue(bytes), bytes[31] >= 0x80), ResidueY(bytes));
      DecodesTo(bytes, a) && OnAffine(a, CurveD(), P)
  {
    hide FieldElement.Value, DecodedY, Root, Decompress, DecodedX, PrimeAndNonSquare, Valid, PointOf, RootResidue,
      ResidueY, CurveD, OnAffine;
    RootGiven(bytes);
    DecodedPoint(bytes);
    ValidOnAffine(Decompress(bytes).value);
  }

  /** On the curve, the recovered x^2 is x^2. */
  lemma PointSquared(y: FieldElement, a: Affine)
    requires PrimeAndNonSquare() && y.Below(0x40_0000_0000_0000) && OnAffine(a, CurveD(), P) && Cong(y.Value(), a.y, P)
    ensures Cong(XSquared(y).Value(), a.x * a.x, P)
  {
    hide FieldElement.Value, Cong, CurveU, CurveV, CurveD, XSquared, SolvedCurve, PrimeAndNonSquare;
    CongRefl(a.x, P);
    SameCurve(a.x, a.x, a.y, y.Value(), CurveD(), P);
    CurveValues(y);
    CurveQuotient(a.x, y.Value(), CurveU(y).Value(), CurveV(y).Value(), CurveD(), P);
    XSquaredIs(y, a.x * a.x);
  }

  /** Bytes decode exactly when the y they hold, reduced modulo p, is that of a curve point. */
  lemma DecodesExactly(bytes: seq<byte>)
    requires |bytes| == 32 && PrimeAndNonSquare()
    ensures Decompress(bytes).Some? <==> exists x: int :: OnAffine(Affine(x, ResidueY(bytes)), CurveD(), P)
  {
    hide CurveD, DecodedY, Decompress, PrimeAndNonSquare, OnAffine, ResidueY, RootResidue, DecodedX, DecodesTo, Root;
    if Decompress(bytes).Some? {
      DecodedOnCurve(bytes);
    }
    if x: int :| OnAffine(Affine(x, ResidueY(bytes)), CurveD(), P) {
      RootIsX(bytes, Affine(x, ResidueY(bytes)));
      DecodedPoint(bytes);
      Decodes(bytes, Affine(DecodedX(RootResidue(bytes), bytes[31] >= 0x80), ResidueY(bytes)));
    }
  }

  lemma Decodes(bytes: seq<byte>, a: Affine)
    requires |bytes| == 32 && DecodesTo(bytes, a)
    ensures Decompress(bytes).Some?
  {
    hide Decompress, Valid, PointOf, PrimeAndNonSquare;
  }

  /** The root found for a curve point is x or -x. */
  lemma RootIsX(bytes: seq<byte>, a: Affine)
    requires |bytes| == 32 && PrimeAndNonSquare() && OnAffine(a, CurveD(), P) && ResidueY(bytes) == a.y
    ensures Root(DecodedY(bytes)).Some? && (RootResidue(bytes) == a.x || RootResidue(bytes) == -a.x % P)
  {
    hide FieldElement.Value, FieldElement.Tight, Cong, CurveD, DecodedY, Root, XSquared, PrimeAndNonSquare,
      SolvedCurve, Large;
    var y := DecodedY(bytes);
    ResidueOfP(y.Value());
    PointSquared(y, a);
    RootFound(y, a.x);
    RootSquaresTo(y, a.x);
    FieldOfP();
    RootsOfSquare(Root(y).value.Value(), a.x, P);
  }

  lemma RootSquaresTo(y: FieldElement, x: int)
    requires PrimeAndNonSquare() && y.Below(0x40_0000_0000_0000) && Root(y).Some? && Cong(XSquared(y).Value(), x * x, P)
    ensures var v: int := Root(y).value.Value(); Cong(v * v, x * x, P)
  {
    hide FieldElement.Value, FieldElement.Tight, Cong, Root, XSquared, PrimeAndNonSquare, Large;
    RootExact(y);
    var v: int := Root(y).value.Value();
    CongTrans(v * v, XSquared(y).Value(), x * x, P);
  }

  lemma RootsOfSquare(v: int, x: int, m: int)
    requires Field(m) && 0 <= x < m && Cong(v * v, x * x, m)
    ensures v % m == x || v % m == -x % m
  {
    hide Cong, Field;
    SameSquare(v, x, m);
    CongIffMod(v, x, m);
    CongIffMod(v, -x, m);
    DivModUnique(x, 0, x, m);
  }

  // ---------------------------------------------------------------- which root is found

  /** x to the power n = (p - 1) / 4 is one, or the inverse of the stored root of -1. */
  ghost predicate OwnRoot(x: int, n: nat) {
    Cong(Pow(x, n), 1, P) || Cong(Pow(x, n) * SQRT_M1.Value(), 1, P)
  }

  /** The root found for a curve point is x itself exactly when that power of x says so. */
  lemma RootByPower(bytes: seq<byte>, a: Affine, n: nat)
    requires |bytes| == 32 && PrimeAndNonSquare() && OnAffine(a, CurveD(), P) && ResidueY(bytes) == a.y
    requires 4 * n + 1 == P
    ensures RootResidue(bytes) == a.x
       <==> a.x == 0 || OwnRoot(a.x, n)
  {
    hide FieldElement.Value, FieldElement.Tight, Cong, CurveD, DecodedY, Root, XSquared, PrimeAndNonSquare,
      SolvedCurve, Large, Pow, Candidate, TimesRoot;
    var y := DecodedY(bytes);
    ResidueOfP(y.Value());
    PointSquared(y, a);
    RootIsX(bytes, a);
    OppositeResidue(a.x);
    if a.x != 0 {
      RootPower(y, a.x, n);
      var r: int := Root(y).value.Value();
      CongIffMod(r, a.x, P);
      DivModUnique(a.x, 0, a.x, P);
    }
  }

  lemma RootPower(y: FieldElement, x: int, n: nat)
    requires PrimeAndNonSquare() && y.Below(0x40_0000_0000_0000) && Cong(XSquared(y).Value(), x * x, P) && Root(y).Some?
    requires 4 * n + 1 == P && 0 < x < P
    ensures Cong(Root(y).value.Value(), x, P) <==> Cong(Pow(x, n), 1, P) || Cong(Pow(x, n) * SQRT_M1.Value(), 1, P)
  {
    hide FieldElement.Value, FieldElement.Tight, Cong, Root, XSquared, PrimeAndNonSquare, Pow, Candidate, TimesRoot;
    var c: int, s: int, h, i: int := Candidate(y).Value(), XSquared(y).Value(), Pow(x, n), SQRT_M1.Value();
    NotZero(x);
    var k, e := CandidateRoot(y, x);
    assert 2 * k + 2 == 1 + n;
    PowAdd(x, 1, n);
    FirstPowers(x);
    RootCases(y);
    RootTimes(Candidate(y));
    Constants();
    FieldOfP();
    CongSym(s, x * x, P);
    SameRight(c * c, s, x * x);
    SameRight(-(c * c), s, x * x);
    OneNotMinusOne();
    ChosenRoot(c, TimesRoot(Candidate(y)).Value(), x, h, i, P);
  }

  lemma NotZero(x: int)
    requires 0 < x < P
    ensures !Cong(x, 0, P)
  {
    if Cong(x, 0, P) {
      FermatTheorem.SmallDifference(x, 0, P);
    }
  }

  lemma SameRight(a: int, s: int, r: int)
    requires Cong(s, r, P) || Cong(r, s, P)
    ensures Cong(a, s, P) <==> Cong(a, r, P)
  {
    CongIffMod(a, s, P);
    CongIffMod(a, r, P);
    CongIffMod(s, r, P);
    CongIffMod(r, s, P);
  }

  lemma OneNotMinusOne()
    ensures !Cong(1, -1, P)
  {
    CongIffMod(1, -1, P);
    DivModUnique(-1, -1, P - 1, P);
  }

  // ---------------------------------------------------------------- the round trip

  /** What the encoding of a point holds: y, and the low bit of x. */
  lemma EncodedParts(a: Affine)
    requires 0 <= a.x < P && 0 <= a.y < P
    ensures var s := EncodeAffine(a);
      DecodedY(s).Value() == a.y && ResidueY(s) == a.y && (s[31] >= 0x80 <==> a.x % 2 != 0)
  {
    hide FieldElement.Value, ValueOf, Pow, LeBytes, FromBytes, BitOr;
    var s := LeBytes(a.y, 32);
    assert |SetTopBit(s)| == 32;
    hide SetTopBit;
    Scalars.FourWords();
    LeBytesValue(a.y, 32);
    TopByteSmall(s);
    TopByteSet(s);
    TopBitValue(s);
    FromBytesValue(s);
    FromBytesValue(SetTopBit(s));
    DivModUnique(a.y, 0, a.y, TWO255);
    DivModUnique(a.y + TWO255, 1, a.y, TWO255);
    DivModUnique(a.y, 0, a.y, P);
  }

  lemma TopByteSet(s: seq<byte>)
    requires |s| == 32 && s[31] < 0x80
    ensures SetTopBit(s)[31] >= 0x80
  {
    hide BitOr;
    OrTop(s[31]);
  }

  /**
   The encoding of a curve point always decodes: to the point itself if and only if its x is zero or the
   root found is a residue of 19 or more, and to its negative otherwise.
   */
  lemma DecodeEncoded(a: Affine)
    requires PrimeAndNonSquare() && OnAffine(a, CurveD(), P)
    ensures var s := EncodeAffine(a);
      && (DecodesTo(s, a) <==> a.x == 0 || RootResidue(s) >= 19)
      && (!DecodesTo(s, a) ==> DecodesTo(s, Affine(P - a.x, a.y)))
  {
    hide CurveD, EncodeAffine, DecodedY, PrimeAndNonSquare, DecodedX, RootResidue, ResidueY, SolvedCurve, DecodesTo,
      Root;
    var s := EncodeAffine(a);
    EncodedParts(a);
    RootIsX(s, a);
    DecodedPoint(s);
    HonestSign(a.x, RootResidue(s));
    OddModulus(a.x);
    OnePoint(s, a, Affine(P - a.x, a.y));
  }

  /** Bytes decode to one point. */
  lemma OnePoint(bytes: seq<byte>, a: Affine, b: Affine)
    requires |bytes| == 32
    ensures DecodesTo(bytes, a) && DecodesTo(bytes, b) ==> a == b
  {
    hide Decompress, Valid, PointOf, PrimeAndNonSquare;
  }

  /** No residue but zero is its own negative. */
  lemma OddModulus(x: int)
    ensures x != P - x
  {
  }

  /** Every curve point comes back whose x is at least 19 away from zero on both sides. */
  lemma LargeComesBack(a: Affine)
    requires PrimeAndNonSquare() && OnAffine(a, CurveD(), P) && 19 <= a.x <= P - 19
    ensures DecodesTo(EncodeAffine(a), a)
  {
    hide CurveD, EncodeAffine, DecodedY, PrimeAndNonSquare, RootResidue, ResidueY, SolvedCurve, DecodesTo, Root;
    EncodedParts(a);
    RootIsX(EncodeAffine(a), a);
    OppositeResidue(a.x);
    DecodeEncoded(a);
  }

  /** What a caller can check of a point: whether it comes back from its encoding. */
  lemma ComesBackExactly(a: Affine, n: nat)
    requires PrimeAndNonSquare() && OnAffine(a, CurveD(), P) && 4 * n + 1 == P
    ensures DecodesTo(EncodeAffine(a), a) <==> a.x == 0 || 19 <= a.x <= P - 19 || (a.x < 19 <==> !OwnRoot(a.x, n))
  {
    hide CurveD, EncodeAffine, DecodedY, PrimeAndNonSquare, RootResidue, ResidueY, SolvedCurve, DecodesTo, Root,
      OwnRoot;
    var s := EncodeAffine(a);
    EncodedParts(a);
    RootIsX(s, a);
    OppositeResidue(a.x);
    RootByPower(s, a, n);
    DecodeEncoded(a);
  }

  // ---------------------------------------------------------------- a point that does not come back

  const SIXTEEN_Y: int := 0x1d4598ae6ce1b9a01d0d15a00927dbfd9e9c177eb7cb9644240249f12dac70c7

  lemma SixteenOnCurve()
    ensures OnAffine(Affine(16, SIXTEEN_Y), CurveD(), P)
  {
    CongIntro((CurveD() * (SIXTEEN_Y * SIXTEEN_Y) + 1) * (16 * 16), SIXTEEN_Y * SIXTEEN_Y - 1,
      0x44a01fc8d1a53120211386a7e49d2d19d922953d89ca2cef2648fb1b0398aa59d * TWO255
      + 0x5cbab1e2f2f0eb7116d21ceb3d618b8ead90457325da172c7375c717b1979490, P);
  }

  /** 16 is a fourth power: to the power (p - 1) / 4 it is one. */
  lemma SixteenPower(n: nat)
    requires PrimeAndNonSquare() && 4 * n + 1 == P
    ensures Cong(Pow(16, n), 1, P)
  {
    hide Cong, Pow, PrimeAndNonSquare;
    assert Pow(2, 4) == 16 by { FirstPowers(2); }
    PowMul(2, 4, n);
    NotZero(2);
    FermatOfP(2, 4 * n);
  }

  lemma Quarter() returns (n: nat)
    ensures 4 * n + 1 == P
  {
    n := 0x1ffffffffffffffffffffffffffffffffffffffffffffffffffffffffffffffb;
  }

  /** The curve point with x = 16 and this y decodes from its own encoding as its negative. */
  lemma SixteenComesBackNegated()
    requires PrimeAndNonSquare()
    ensures var a := Affine(16, SIXTEEN_Y);
      OnAffine(a, CurveD(), P) && !DecodesTo(EncodeAffine(a), a)
          && DecodesTo(EncodeAffine(a), Affine(P - 16, SIXTEEN_Y))
  {
    hide Cong, Pow, CurveD, PrimeAndNonSquare, EncodeAffine, DecodesTo, RootResidue, ResidueY, DecodedY, SolvedCurve;
    var a := Affine(16, SIXTEEN_Y);
    SixteenOnCurve();
    EncodedParts(a);
    var n := Quarter();
    SixteenPower(n);
    RootByPower(EncodeAffine(a), a, n);
    DecodeEncoded(a);
  }
}

/**
 Square roots modulo a prime of the form 8 k + 5, as decompress takes them
 (crates/webgate-core/src/ed25519.rs:628-673): the arithmetic behind the candidate.
 */
module SquareRoots {
  import opened Arith
  import opened EdwardsAlgebra
  import opened EdwardsGroup

  /** Residues that are not zero can be inverted. */
  ghost predicate Field(m: int) {
    m > 1 && forall a {:trigger Invertible(a, m)} | !Cong(a, 0, m) :: Invertible(a, m)
  }

  lemma {:induction false} PowProduct(a: int, b: int, k: nat)
    ensures Pow(a * b, k) == Pow(a, k) * Pow(b, k)
  {
    if k > 0 {
      PowProduct(a, b, k - 1);
      Interchange(a, b, Pow(a, k - 1), Pow(b, k - 1));
    }
  }

  lemma Interchange(a: int, b: int, c: int, d: int)
    ensures (a * b) * (c * d) == (a * c) * (b * d)
  {
    assert (a * b) * (c * d) == a * (b * (c * d));
    assert b * (c * d) == c * (b * d);
    assert (a * c) * (b * d) == a * (c * (b * d));
  }

  lemma FirstPowers(x: int)
    ensures Pow(x, 1) == x && Pow(x, 2) == x * x && Pow(x, 3) == (x * x) * x && Pow(x, 4) == (x * x) * (x * x)
  {
    assert Pow(x, 2) == x * Pow(x, 1) == x * x;
    assert Pow(x, 3) == x * Pow(x, 2);
    PowAdd(x, 2, 2);
  }

  /** u v^j in powers of v and x, for u = v x^2. */
  lemma PowersOf(u: int, v: int, x: int, w: int, j: nat, m: int)
    requires Cong(u, v * (x * x), m) && w == Pow(v, j)
    ensures Cong(u * w, Pow(v, j + 1) * (x * x), m)
  {
    hide Cong;
    CongRight(u, v * (x * x), w, m);
    assert Pow(v, j + 1) == v * Pow(v, j);
    assert (v * (x * x)) * w == (v * w) * (x * x);
  }

  /** (v^8 x^2)^k = v^(8k) x^(2k). */
  lemma PowerOfBoth(s: int, v: int, x: int, k: nat, m: int)
    requires Cong(s, Pow(v, 8) * (x * x), m)
    ensures Cong(Pow(s, k), Pow(v, 8 * k) * Pow(x, 2 * k), m)
  {
    hide Cong;
    CongPow(s, Pow(v, 8) * (x * x), k, m);
    PowProduct(Pow(v, 8), x * x, k);
    PowMul(v, 8, k);
    FirstPowers(x);
    PowMul(x, 2, k);
  }

  /** The candidate u v^3 (u v^7)^k is x^(2k+2), where v^(8k+4) = 1. */
  lemma CandidatePower(c: int, t: int, q: int, v: int, x: int, k: nat, e: nat, m: int)
    requires Cong(t, Pow(v, 4) * (x * x), m) && Cong(q, Pow(v, 8 * k) * Pow(x, 2 * k), m) && Cong(c, t * q, m)
    requires e == 8 * k + 4 && Cong(Pow(v, e), 1, m)
    ensures Cong(c, Pow(x, 2 * k + 2), m)
  {
    hide Cong, Pow;
    var a, b, g, h := Pow(v, 4), x * x, Pow(v, 8 * k), Pow(x, 2 * k);
    CongMul(t, a * b, q, g * h, m);
    Interchange(a, b, g, h);
    PowAdd(v, 4, 8 * k);
    FirstPowers(x);
    PowAdd(x, 2, 2 * k);
    var p := Pow(x, 2 * k + 2);
    assert 4 + 8 * k == e && 2 + 2 * k == 2 * k + 2;
    CongRight(Pow(v, e), 1, p, m);
    CongTrans(c, t * q, Pow(v, e) * p, m);
    CongTrans(c, Pow(v, e) * p, p, m);
  }

  /** Its square is x^2 times a square root of one. */
  lemma CandidateSquared(c: int, x: int, k: nat, e: nat, m: int) returns (h: int)
    requires Cong(c, Pow(x, 2 * k + 2), m) && e == 8 * k + 4 && Cong(Pow(x, e), 1, m)
    ensures Cong(h * h, 1, m) && Cong(c * c, (x * x) * h, m)
  {
    hide Cong, Pow;
    h := Pow(x, 4 * k + 2);
    PowAdd(x, 4 * k + 2, 4 * k + 2);
    assert 4 * k + 2 + (4 * k + 2) == e;
    CongSquare(c, Pow(x, 2 * k + 2), m);
    PowAdd(x, 2 * k + 2, 2 * k + 2);
    PowAdd(x, 2, 4 * k + 2);
    FirstPowers(x);
    assert 2 * k + 2 + (2 * k + 2) == 2 + (4 * k + 2);
  }

  lemma ProductZero(a: int, b: int, m: int)
    requires Field(m) && Cong(a * b, 0, m)
    ensures Cong(a, 0, m) || Cong(b, 0, m)
  {
    hide Cong;
    if !Cong(b, 0, m) {
      assert Invertible(b, m);
      assert 0 * b == 0;
      Cancel(a, 0, b, Inverse(b, m), m);
    }
  }

  /** Equal squares come from equal or opposite numbers. */
  lemma SameSquare(a: int, b: int, m: int)
    requires Field(m) && Cong(a * a, b * b, m)
    ensures Cong(a, b, m) || Cong(a, -b, m)
  {
    hide Cong, Field;
    CongRefl(b * b, m);
    CongSub(a * a, b * b, b * b, b * b, m);
    assert (a - b) * (a + b) == a * a - b * b;
    ProductZero(a - b, a + b, m);
    if Cong(a - b, 0, m) {
      CongRefl(b, m);
      CongAdd(a - b, 0, b, b, m);
    } else {
      CongRefl(-b, m);
      CongAdd(a + b, 0, -b, -b, m);
    }
  }

  /** c^2 is x^2 or -x^2. */
  lemma OneOfTwo(c: int, x: int, k: nat, e: nat, m: int)
    requires Field(m) && Cong(c, Pow(x, 2 * k + 2), m) && e == 8 * k + 4 && Cong(Pow(x, e), 1, m)
    ensures Cong(c * c, x * x, m) || Cong(-(c * c), x * x, m)
  {
    hide Cong, Field, Pow;
    var h := CandidateSquared(c, x, k, e, m);
    assert 1 * 1 == 1;
    SameSquare(h, 1, m);
    if Cong(h, 1, m) {
      CongScale(x * x, h, 1, m);
      CongTrans(c * c, (x * x) * h, x * x, m);
    } else {
      CongScale(x * x, h, -1, m);
      CongTrans(c * c, (x * x) * h, -(x * x), m);
      CongScale(-1, c * c, -(x * x), m);
    }
  }

  /** The candidate for u / v, where u = v x^2. */
  lemma CandidateOfSquare(c: int, u: int, v: int, x: int, k: nat, e: nat, m: int)
    requires Cong(c, (u * Pow(v, 3)) * Pow(u * Pow(v, 7), k), m) && Cong(u, v * (x * x), m)
    requires e == 8 * k + 4 && Cong(Pow(v, e), 1, m)
    ensures Cong(c, Pow(x, 2 * k + 2), m)
  {
    hide Cong, Pow;
    PowersOf(u, v, x, Pow(v, 3), 3, m);
    PowersOf(u, v, x, Pow(v, 7), 7, m);
    PowerOfBoth(u * Pow(v, 7), v, x, k, m);
    CandidatePower(c, u * Pow(v, 3), Pow(u * Pow(v, 7), k), v, x, k, e, m);
  }

  /** With w = t v^4, t = u v^3 and v s = u: s w = t^2. */
  lemma QuotientTimesW(u: int, v: int, s: int, m: int)
    requires Cong(v * s, u, m)
    ensures var t := u * Pow(v, 3); Cong(s * (u * Pow(v, 7)), t * t, m)
  {
    hide Cong, Pow;
    var a, t := Pow(v, 3), u * Pow(v, 3);
    PowAdd(v, 3, 4);
    PowAdd(v, 1, 3);
    FirstPowers(v);
    assert Pow(v, 7) == a * (v * a);
    CongRight(v * s, u, t * a, m);
    assert s * (u * (a * (v * a))) == (v * s) * (t * a) by { Regroup(s, u, a, v); }
    assert u * (t * a) == t * t by { Regroup2(u, a); }
  }

  lemma Regroup(s: int, u: int, a: int, v: int)
    ensures s * (u * (a * (v * a))) == (v * s) * ((u * a) * a)
  {
    assert u * (a * (v * a)) == v * ((u * a) * a) by {
      assert a * (v * a) == v * (a * a);
      assert u * (v * (a * a)) == v * (u * (a * a));
      assert u * (a * a) == (u * a) * a;
    }
    var r := (u * a) * a;
    assert s * (v * r) == (v * s) * r;
  }

  lemma Regroup2(u: int, a: int)
    ensures u * ((u * a) * a) == (u * a) * (u * a)
  {
    var t := u * a;
    assert u * (t * a) == t * (u * a);
  }

  /** Whether or not u / v is a square, the square of the candidate has its fourth power. */
  lemma FourthPowers(c: int, u: int, v: int, s: int, k: nat, e: nat, m: int)
    requires Field(m) && !Cong(u * Pow(v, 7), 0, m)
    requires Cong(c, (u * Pow(v, 3)) * Pow(u * Pow(v, 7), k), m) && Cong(v * s, u, m)
    requires e == 8 * k + 4 && Cong(Pow(u * Pow(v, 7), e), 1, m)
    ensures Cong(Pow(c * c, 4), Pow(s, 4), m)
  {
    hide Cong, Pow, Field;
    var t, w := u * Pow(v, 3), u * Pow(v, 7);
    EighthPower(c, t, w, k, e, m);
    QuotientTimesW(u, v, s, m);
    CongPow(s * w, t * t, 4, m);
    PowProduct(s, w, 4);
    var f, g, h := Pow(c * c, 4), Pow(s, 4), Pow(w, 4);
    CongSym(g * h, Pow(t * t, 4), m);
    CongTrans(f * h, Pow(t * t, 4), g * h, m);
    FourthUnit(w, m);
    UnitExists(h, m);
    Cancel(f, g, h, Inverse(h, m), m);
  }

  lemma UnitExists(a: int, m: int)
    requires Field(m) && !Cong(a, 0, m)
    ensures Invertible(a, m)
  {
    hide Cong;
  }

  lemma FourthUnit(w: int, m: int)
    requires Field(m) && !Cong(w, 0, m)
    ensures !Cong(Pow(w, 4), 0, m)
  {
    hide Cong, Field, Pow;
    FirstPowers(w);
    if Cong(w * w, 0, m) {
      ProductZero(w, w, m);
    }
    if Cong((w * w) * (w * w), 0, m) {
      ProductZero(w * w, w * w, m);
    }
  }

  /** (w^k)^8 w^4 = w^(8k+4). */
  lemma PowerEight(w: int, k: nat)
    ensures var q := Pow(w, k); Pow(q * q, 4) * Pow(w, 4) == Pow(w, 8 * k + 4)
  {
    hide Pow;
    PowAdd(w, k, k);
    PowMul(w, k + k, 4);
    assert (k + k) * 4 == 8 * k;
    PowAdd(w, 8 * k, 4);
  }

  /** c = t q: c^8 = t^8 q^8. */
  lemma EighthProduct(c: int, t: int, q: int, m: int)
    requires Cong(c, t * q, m)
    ensures Cong(Pow(c * c, 4), Pow(t * t, 4) * Pow(q * q, 4), m)
  {
    hide Cong, Pow;
    CongSquare(c, t * q, m);
    Interchange(t, q, t, q);
    CongPow(c * c, (t * t) * (q * q), 4, m);
    PowProduct(t * t, q * q, 4);
  }

  /** c = t w^k: c^8 w^4 = t^8, where w^(8k+4) is one. */
  lemma EighthPower(c: int, t: int, w: int, k: nat, e: nat, m: int)
    requires Cong(c, t * Pow(w, k), m) && e == 8 * k + 4 && Cong(Pow(w, e), 1, m)
    ensures Cong(Pow(c * c, 4) * Pow(w, 4), Pow(t * t, 4), m)
  {
    hide Cong, Pow;
    var q := Pow(w, k);
    EighthProduct(c, t, q, m);
    PowerEight(w, k);
    LastFactor(Pow(c * c, 4), Pow(t * t, 4), Pow(q * q, 4), Pow(w, 4), m);
  }

  lemma LastFactor(f: int, a: int, b: int, h: int, m: int)
    requires Cong(f, a * b, m) && Cong(b * h, 1, m)
    ensures Cong(f * h, a, m)
  {
    hide Cong;
    CongRight(f, a * b, h, m);
    assert (a * b) * h == a * (b * h);
    CongScale(a, b * h, 1, m);
    CongTrans(f * h, a * (b * h), a, m);
  }

  /** x h is x exactly when h is one. */
  lemma UnitFactor(c: int, x: int, h: int, m: int)
    requires Field(m) && !Cong(x, 0, m) && Cong(c, x * h, m)
    ensures Cong(c, x, m) <==> Cong(h, 1, m)
  {
    hide Cong, Field;
    UnitExists(x, m);
    if Cong(h, 1, m) {
      CongScale(x, h, 1, m);
      CongTrans(c, x * h, x, m);
    }
    if Cong(c, x, m) {
      CongSym(c, x * h, m);
      CongTrans(x * h, c, x, m);
      assert x * h == h * x && x == 1 * x;
      Cancel(h, 1, x, Inverse(x, m), m);
    }
  }

  lemma SquareUnit(x: int, m: int)
    requires Field(m) && !Cong(x, 0, m)
    ensures !Cong(x * x, 0, m)
  {
    hide Cong, Field;
    if Cong(x * x, 0, m) {
      ProductZero(x, x, m);
    }
  }

  lemma NotBoth(c: int, x: int, h: int, i: int, m: int)
    requires Field(m) && !Cong(x, 0, m) && Cong(c, x * h, m) && Cong(i * i, -1, m) && Cong(h * i, 1, m)
    requires !Cong(1, -1, m)
    ensures !Cong(c * c, x * x, m)
  {
    hide Cong, Field;
    if Cong(c * c, x * x, m) {
      CongSquare(c, x * h, m);
      Interchange(x, h, x, h);
      SquareUnit(x, m);
      UnitFactor(c * c, x * x, h * h, m);
      CongSquare(h * i, 1, m);
      Interchange(h, i, h, i);
      CongMul(h * h, 1, i * i, -1, m);
      CongSym((h * i) * (h * i), 1, m);
      CongTrans(1, (h * h) * (i * i), -1, m);
    }
  }

  /** With c = x h and w = c i, whichever squares to x^2 is x exactly when h is one, or h i is. */
  lemma ChosenRoot(c: int, w: int, x: int, h: int, i: int, m: int)
    requires Field(m) && !Cong(x, 0, m) && Cong(c, x * h, m) && Cong(w, c * i, m) && Cong(i * i, -1, m)
    requires !Cong(1, -1, m)
    ensures Cong(c * c, x * x, m) ==> (Cong(c, x, m) <==> Cong(h, 1, m) || Cong(h * i, 1, m))
    ensures !Cong(c * c, x * x, m) && Cong(-(c * c), x * x, m)
        ==> (Cong(w, x, m) <==> Cong(h, 1, m) || Cong(h * i, 1, m))
  {
    hide Cong, Field;
    UnitFactor(c, x, h, m);
    CongRight(c, x * h, i, m);
    assert (x * h) * i == x * (h * i);
    CongTrans(w, c * i, x * (h * i), m);
    UnitFactor(w, x, h * i, m);
    if Cong(c, x, m) {
      CongSquare(c, x, m);
    }
    if Cong(h * i, 1, m) {
      NotBoth(c, x, h, i, m);
    }
  }
}

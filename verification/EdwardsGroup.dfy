/**
 Affine meaning of extended coordinates. Over a field in which -1 is a square and
 d is not, the sum formula has no exceptional case, and adding or doubling points
 in extended coordinates adds them on the affine curve -x^2 + y^2 = 1 + d x^2 y^2.
 */
module EdwardsGroup {
  import opened Arith
  import opened EdwardsAlgebra

  ghost predicate InverseOf(a: int, b: int, m: int) {
    Cong(a * b, 1, m)
  }

  ghost predicate Invertible(a: int, m: int) {
    exists b :: InverseOf(a, b, m)
  }

  ghost predicate RootOf(s: int, d: int, m: int) {
    Cong(s * s, d, m)
  }

  /**
   What is assumed of the numbers: m is an odd prime (every non-zero residue has an
   inverse), i is a square root of -1, and d has no square root.
   */
  ghost predicate CurveField(d: int, i: int, m: int) {
    && m > 1 && !Cong(4, 0, m)
    && Cong(i * i, -1, m)
    && (forall a {:trigger Invertible(a, m)} | !Cong(a, 0, m) :: Invertible(a, m))
    && (forall s :: !RootOf(s, d, m))
  }

  ghost function Inverse(a: int, m: int): (b: int)
    requires Invertible(a, m)
    ensures Cong(a * b, 1, m)
  {
    var b :| InverseOf(a, b, m);
    b
  }

  // ---------------------------------------------------------------- cancelling

  lemma CongRight(a: int, b: int, c: int, m: int)
    requires Cong(a, b, m)
    ensures Cong(a * c, b * c, m)
  {
    CongRefl(c, m);
    CongMul(a, b, c, c, m);
  }

  /** An invertible factor may be cancelled. */
  lemma Cancel(a: int, b: int, c: int, k: int, m: int)
    requires Cong(c * k, 1, m) && Cong(a * c, b * c, m)
    ensures Cong(a, b, m)
  {
    hide Cong;
    CongRight(a * c, b * c, k, m);
    CongRefl(a, m);
    CongRefl(b, m);
    CongMul(a, a, c * k, 1, m);
    CongMul(b, b, c * k, 1, m);
    assert (a * c) * k == a * (c * k) && (b * c) * k == b * (c * k);
    CongSym(a * (c * k), a, m);
    CongTrans(a, (a * c) * k, (b * c) * k, m);
    CongTrans(a, (b * c) * k, b, m);
  }

  /** What has an inverse is not zero. */
  lemma InvertibleNonzero(a: int, k: int, m: int)
    requires m > 1 && Cong(a * k, 1, m)
    ensures !Cong(a, 0, m)
  {
    if Cong(a, 0, m) {
      CongRight(a, 0, k, m);
      CongSym(a * k, 1, m);
      CongTrans(1, a * k, 0, m);
      CongIffMod(1, 0, m);
    }
  }

  // ---------------------------------------------------------------- no exceptional case

  /** (x, y) satisfies the affine curve equation modulo m. */
  ghost predicate AffineCurve(x: int, y: int, d: int, m: int) {
    Cong(y * y - x * x, 1 + d * ((x * y) * (x * y)), m)
  }

  /** The curve equation solved for x^2, as section 5.1.3 of RFC 8032 has it: (d y^2 + 1) x^2 = y^2 - 1. */
  ghost predicate SolvedCurve(x: int, y: int, d: int, m: int) {
    Cong((d * (y * y) + 1) * (x * x), y * y - 1, m)
  }

  /** Both equations have the same solutions. */
  lemma CurveForms(x: int, y: int, d: int, m: int)
    ensures AffineCurve(x, y, d, m) <==> SolvedCurve(x, y, d, m)
  {
    hide Cong;
    var s, r := y * y, x * x;
    var w := (d * s + 1) * r;
    CurveTerms(d, s, r);
    assert (x * y) * (x * y) == s * r;
    if Cong(s - r, 1 + d * (s * r), m) {
      CongRefl(r - 1, m);
      CongAdd(s - r, 1 + d * (s * r), r - 1, r - 1, m);
      CongSym(s - 1, w, m);
    }
    if Cong(w, s - 1, m) {
      CongSym(w, s - 1, m);
      CongRefl(1 - r, m);
      CongAdd(s - 1, w, 1 - r, 1 - r, m);
    }
  }

  lemma CurveTerms(d: int, s: int, r: int)
    ensures (d * s + 1) * r == 1 + d * (s * r) + (r - 1)
  {
    assert (d * s) * r == d * (s * r);
  }

  /** The curve equation depends on residues only. */
  lemma SameCurve(x: int, r: int, y: int, s: int, d: int, m: int)
    requires SolvedCurve(x, y, d, m) && Cong(r, x, m) && Cong(s, y, m)
    ensures SolvedCurve(r, s, d, m)
  {
    hide Cong;
    var v, w := d * (y * y) + 1, d * (s * s) + 1;
    CongSquare(r, x, m);
    CongSquare(s, y, m);
    CongScale(d, s * s, y * y, m);
    CongRefl(1, m);
    CongAdd(d * (s * s), d * (y * y), 1, 1, m);
    CongMul(w, v, r * r, x * x, m);
    CongTrans(w * (r * r), v * (x * x), y * y - 1, m);
    CongSub(s * s, y * y, 1, 1, m);
    CongSym(s * s - 1, y * y - 1, m);
    CongTrans(w * (r * r), y * y - 1, s * s - 1, m);
  }

  /** With e^2 = 1 and s = 1 or -1, (i x + s e y)^2 = 1 + d (xy)^2 + 2 s i e xy. */
  lemma ExceptionalLeft(x: int, y: int, e: int, s: int, d: int, i: int, m: int)
    requires AffineCurve(x, y, d, m) && Cong(e * e, 1, m) && Cong(i * i, -1, m) && s * s == 1
    ensures Cong((i * x + s * (e * y)) * (i * x + s * (e * y)),
        1 + d * ((x * y) * (x * y)) + 2 * s * i * (e * (x * y)), m)
  {
    hide Cong;
    var k := 2 * s * i * (e * (x * y));
    SquareParts(i, x, s, e * y);
    assert 2 * s * i * (x * (e * y)) == k by { assert x * (e * y) == e * (x * y); }
    assert (e * y) * (e * y) == (e * e) * (y * y);
    CongRight(i * i, -1, x * x, m);
    CongRight(e * e, 1, y * y, m);
    CongAdd((i * i) * (x * x), -1 * (x * x), (e * e) * (y * y), 1 * (y * y), m);
    CongTrans((i * i) * (x * x) + (e * e) * (y * y), y * y - x * x, 1 + d * ((x * y) * (x * y)), m);
    CongRefl(k, m);
    CongAdd((i * i) * (x * x) + (e * e) * (y * y), 1 + d * ((x * y) * (x * y)), k, k, m);
  }

  /** With e = d w x y and e^2 = 1, d (w (i x + s y))^2 = 1 + d w^2 + 2 s i e w. */
  lemma ExceptionalRight(w: int, x: int, y: int, e: int, s: int, d: int, i: int, m: int)
    requires AffineCurve(x, y, d, m) && Cong(e * e, 1, m) && Cong(i * i, -1, m) && s * s == 1
    requires e == d * (w * (x * y))
    ensures Cong(d * ((w * (i * x + s * y)) * (w * (i * x + s * y))), 1 + d * (w * w) + 2 * s * i * (e * w), m)
  {
    hide Cong;
    var u, dw, k := x * y, d * (w * w), 2 * s * i * (e * w);
    var sq := (i * i) * (x * x) + y * y;
    RightExpand(w, x, y, s, d, i);
    CongRight(i * i, -1, x * x, m);
    CongRefl(y * y, m);
    CongAdd((i * i) * (x * x), -1 * (x * x), y * y, y * y, m);
    CongTrans(sq, y * y - x * x, 1 + d * (u * u), m);
    CongScale(dw, sq, 1 + d * (u * u), m);
    ProductSquare(d, w, u);
    CongRefl(dw, m);
    CongAdd(dw, dw, e * e, 1, m);
    CongTrans(dw * sq, dw + e * e, 1 + dw, m);
    CongRefl(k, m);
    CongAdd(dw * sq, 1 + dw, k, k, m);
  }

  lemma ProductSquare(d: int, w: int, u: int)
    ensures (d * (w * w)) * (1 + d * (u * u)) == d * (w * w) + (d * (w * u)) * (d * (w * u))
  {
    var a := d * (w * u);
    PullSquare(d, w, u);
    assert (d * (w * w)) * (d * (u * u)) == d * ((d * (w * w)) * (u * u));
    assert a * a == d * (d * ((w * u) * (w * u))) by {
      assert (d * (w * u)) * (d * (w * u)) == d * (d * ((w * u) * (w * u)));
    }
  }

  lemma RightExpand(w: int, x: int, y: int, s: int, d: int, i: int)
    requires s * s == 1
    ensures d * ((w * (i * x + s * y)) * (w * (i * x + s * y)))
         == (d * (w * w)) * ((i * i) * (x * x) + y * y) + 2 * s * i * ((d * (w * (x * y))) * w)
  {
    var q, t, u := i * x + s * y, 2 * s * i, x * y;
    SquareParts(i, x, s, y);
    PullSquare(d, w, q);
    PullCross(d, w, t, u);
    assert (d * (w * w)) * (q * q) == (d * (w * w)) * ((i * i) * (x * x) + y * y) + (d * (w * w)) * (t * u) by {
      Distribute2(d * (w * w), (i * i) * (x * x) + y * y, t * u);
    }
  }

  lemma PullSquare(d: int, w: int, q: int)
    ensures d * ((w * q) * (w * q)) == (d * (w * w)) * (q * q)
  {
    assert (w * q) * (w * q) == (w * w) * (q * q);
  }

  lemma PullCross(d: int, w: int, t: int, u: int)
    ensures (d * (w * w)) * (t * u) == t * ((d * (w * u)) * w)
  {
    assert (d * (w * w)) * (t * u) == t * ((d * (w * w)) * u);
    assert (d * (w * w)) * u == (d * (w * u)) * w by {
      assert (w * w) * u == (w * u) * w;
    }
  }

  lemma Distribute2(a: int, b: int, c: int)
    ensures a * (b + c) == a * b + a * c
  {
  }

  /** If e = d x1 y1 x2 y2 were a square root of 1, then (i x1 + s e y1)^2 = d (x1 y1 (i x2 + s y2))^2. */
  lemma ExceptionalSquare(x1: int, y1: int, x2: int, y2: int, e: int, s: int, d: int, i: int, m: int)
    requires AffineCurve(x1, y1, d, m) && AffineCurve(x2, y2, d, m)
    requires e == d * ((x1 * y1) * (x2 * y2)) && Cong(e * e, 1, m) && Cong(i * i, -1, m)
    requires s * s == 1
    ensures Cong((i * x1 + s * (e * y1)) * (i * x1 + s * (e * y1)),
                 d * ((x1 * y1 * (i * x2 + s * y2)) * (x1 * y1 * (i * x2 + s * y2))), m)
  {
    hide Cong;
    ExceptionalLeft(x1, y1, e, s, d, i, m);
    ExceptionalRight(x1 * y1, x2, y2, e, s, d, i, m);
    var l := (i * x1 + s * (e * y1)) * (i * x1 + s * (e * y1));
    var r := d * ((x1 * y1 * (i * x2 + s * y2)) * (x1 * y1 * (i * x2 + s * y2)));
    var mid := 1 + d * ((x1 * y1) * (x1 * y1)) + 2 * s * i * (e * (x1 * y1));
    CongSym(r, mid, m);
    CongTrans(l, mid, r, m);
  }

  /** A number whose square is d times the square of r makes r zero, as d has no root. */
  lemma RootlessZero(l: int, r: int, d: int, i: int, m: int)
    requires CurveField(d, i, m) && Cong(l * l, d * (r * r), m)
    ensures Cong(r, 0, m)
  {
    hide Cong;
    if !Cong(r, 0, m) {
      assert Invertible(r, m);
      Quotient(l, r, Inverse(r, m), d, m);
      assert false;
    }
  }

  lemma Quotient(l: int, r: int, k: int, d: int, m: int)
    requires Cong(l * l, d * (r * r), m) && Cong(r * k, 1, m)
    ensures RootOf(l * k, d, m)
  {
    hide Cong;
    CongRight(l * l, d * (r * r), k * k, m);
    CongSquare(r * k, 1, m);
    CongScale(d, (r * k) * (r * k), 1 * 1, m);
    assert (l * l) * (k * k) == (l * k) * (l * k);
    assert (d * (r * r)) * (k * k) == d * ((r * k) * (r * k));
    CongTrans((l * k) * (l * k), d * ((r * k) * (r * k)), d, m);
  }

  /** For two affine points of the curve, (d x1 y1 x2 y2)^2 is never 1. */
  lemma NoExceptionalCase(x1: int, y1: int, x2: int, y2: int, d: int, i: int, m: int)
    requires CurveField(d, i, m)
    requires AffineCurve(x1, y1, d, m) && AffineCurve(x2, y2, d, m)
    ensures var e := d * ((x1 * y1) * (x2 * y2)); !Cong(e * e, 1, m)
  {
    hide Cong;
    var w, e := x1 * y1, d * ((x1 * y1) * (x2 * y2));
    if Cong(e * e, 1, m) {
      ExceptionalSquare(x1, y1, x2, y2, e, 1, d, i, m);
      ExceptionalSquare(x1, y1, x2, y2, e, -1, d, i, m);
      var r, r' := w * (i * x2 + 1 * y2), w * (i * x2 + -1 * y2);
      RootlessZero(i * x1 + 1 * (e * y1), r, d, i, m);
      RootlessZero(i * x1 + -1 * (e * y1), r', d, i, m);
      // r + r' = 2 i w x2, so 2 i e = 0, and squaring gives -4 = 0.
      CongAdd(r, 0, r', 0, m);
      CongScale(d * y2, r + r', 0, m);
      assert d * y2 * (r + r') == 2 * i * e;
      CongSquare(2 * i * e, 0, m);
      CongScale(-1, (2 * i * e) * (2 * i * e), 0, m);
      MinusFour(i, e, m);
      CongTrans(4, -1 * ((2 * i * e) * (2 * i * e)), 0, m);
    }
  }

  lemma MinusFour(i: int, e: int, m: int)
    requires Cong(i * i, -1, m) && Cong(e * e, 1, m)
    ensures Cong(4, -1 * ((2 * i * e) * (2 * i * e)), m)
  {
    hide Cong;
    CongMul(i * i, -1, e * e, 1, m);
    CongScale(-4, (i * i) * (e * e), -1 * 1, m);
    assert -4 * ((i * i) * (e * e)) == -1 * ((2 * i * e) * (2 * i * e));
    CongSym(-4 * ((i * i) * (e * e)), 4, m);
  }

  /** (i x + s y)^2 for s^2 = 1. */
  lemma SquareParts(i: int, x: int, s: int, y: int)
    requires s * s == 1
    ensures (i * x + s * y) * (i * x + s * y) == (i * i) * (x * x) + y * y + 2 * s * i * (x * y)
  {
    assert (s * y) * (s * y) == (s * s) * (y * y);
  }

  // ---------------------------------------------------------------- affine points

  /** An affine point, as a pair of residues. */
  datatype Affine = Affine(x: int, y: int)

  /** (X / Z, Y / Z). */
  ghost function ToAffine(p: Extended, m: int): Affine
    requires m > 1 && Invertible(p.z, m)
  {
    var k := Inverse(p.z, m);
    Affine(p.x * k % m, p.y * k % m)
  }

  /** The complete affine addition law of the curve. */
  ghost function AffineSum(p: Affine, q: Affine, d: int, m: int): Affine
    requires m > 1
  {
    var e := d * ((p.x * p.y) * (q.x * q.y));
    if Invertible(1 + e, m) && Invertible(1 - e, m) then
      Affine((p.x * q.y + p.y * q.x) * Inverse(1 + e, m) % m, (p.y * q.y + p.x * q.x) * Inverse(1 - e, m) % m)
    else p
  }

  /** Points this model computes with: on the curve, with an invertible Z. */
  ghost predicate Proper(p: Extended, d: int, m: int) {
    p.OnCurve(d, m) && !Cong(p.z, 0, m)
  }

  /** A quotient modulo m does not depend on which inverse is used. */
  lemma QuotientUnique(x: int, z: int, k: int, x': int, z': int, k': int, m: int)
    requires m > 0 && Cong(z * k, 1, m) && Cong(z' * k', 1, m) && Cong(x * z', x' * z, m)
    ensures x * k % m == x' * k' % m
  {
    hide Cong;
    // x k = x k (z' k') = (x z') k k' = (x' z) k k' = x' k' (z k) = x' k'.
    CongRight(x * z', x' * z, k * k', m);
    CongScale(x * k, z' * k', 1, m);
    CongScale(x' * k', z * k, 1, m);
    assert (x * z') * (k * k') == (x * k) * (z' * k');
    assert (x' * z) * (k * k') == (x' * k') * (z * k);
    CongSym((x * k) * (z' * k'), x * k, m);
    CongTrans(x * k, (x * k) * (z' * k'), (x' * k') * (z * k), m);
    CongTrans(x * k, (x' * k') * (z * k), x' * k', m);
    CongIffMod(x * k, x' * k', m);
  }

  /** Scaling all coordinates, modulo m, does not move the affine point. */
  lemma ScaledAffine(p: Extended, q: Extended, c: int, m: int)
    requires m > 1 && Invertible(p.z, m) && Invertible(q.z, m)
    requires Cong(p.x, c * q.x, m) && Cong(p.y, c * q.y, m) && Cong(p.z, c * q.z, m)
    ensures ToAffine(p, m) == ToAffine(q, m)
  {
    hide Cong;
    var k, l := Inverse(p.z, m), Inverse(q.z, m);
    ScaledCross(p.x, p.z, q.x, q.z, c, m);
    ScaledCross(p.y, p.z, q.y, q.z, c, m);
    QuotientUnique(p.x, p.z, k, q.x, q.z, l, m);
    QuotientUnique(p.y, p.z, k, q.y, q.z, l, m);
  }

  lemma ScaledCross(x: int, z: int, x': int, z': int, c: int, m: int)
    requires Cong(x, c * x', m) && Cong(z, c * z', m)
    ensures Cong(x * z', x' * z, m)
  {
    hide Cong;
    CongRight(x, c * x', z', m);
    CongScale(x', z, c * z', m);
    assert (c * x') * z' == x' * (c * z');
    CongSym(x' * z, x' * (c * z'), m);
    CongTrans(x * z', x' * (c * z'), x' * z, m);
  }

  /** xy = (XY) k k = (ZT) k k = T k for an inverse k of Z. */
  lemma AffineProduct(p: Extended, k: int, d: int, m: int)
    requires p.OnCurve(d, m) && Cong(p.z * k, 1, m)
    ensures Cong((p.x * k) * (p.y * k), p.t * k, m)
  {
    hide Cong;
    CongRight(p.x * p.y, p.z * p.t, k * k, m);
    CongRight(p.z * k, 1, p.t * k, m);
    assert (p.x * k) * (p.y * k) == (p.x * p.y) * (k * k);
    assert (p.z * p.t) * (k * k) == (p.z * k) * (p.t * k);
    CongTrans((p.x * k) * (p.y * k), (p.z * k) * (p.t * k), p.t * k, m);
  }

  lemma ScaleSquares(y: int, x: int, z: int, t: int, k: int, d: int)
    ensures (y * y - x * x) * (k * k) == (y * k) * (y * k) - (x * k) * (x * k)
    ensures (z * z + d * (t * t)) * (k * k) == (z * k) * (z * k) + d * ((t * k) * (t * k))
  {
  }

  /** A point of the curve, divided by Z, satisfies the affine equation. */
  lemma ToAffineOnCurve(p: Extended, k: int, d: int, m: int)
    requires p.OnCurve(d, m) && Cong(p.z * k, 1, m)
    ensures AffineCurve(p.x * k, p.y * k, d, m)
    ensures Cong((p.x * k) * (p.y * k), p.t * k, m)
  {
    hide Cong;
    var x, y, t := p.x * k, p.y * k, p.t * k;
    AffineProduct(p, k, d, m);
    CongRight(p.y * p.y - p.x * p.x, p.z * p.z + d * (p.t * p.t), k * k, m);
    ScaleSquares(p.y, p.x, p.z, p.t, k, d);
    CongSquare(p.z * k, 1, m);
    CongSquare(x * y, t, m);
    CongScale(d, (x * y) * (x * y), t * t, m);
    CongSym(d * ((x * y) * (x * y)), d * (t * t), m);
    CongAdd((p.z * k) * (p.z * k), 1, d * (t * t), d * ((x * y) * (x * y)), m);
    CongTrans(y * y - x * x, (p.z * k) * (p.z * k) + d * (t * t), 1 + d * ((x * y) * (x * y)), m);
  }

  // ---------------------------------------------------------------- the sum formula, affinely

  /**
   The denominators 1 + e and 1 - e of the affine law, for e = d x1 y1 x2 y2, are the
   factors g and f of the sum formula up to inverses of Z1 and Z2.
   */
  lemma Denominators(p: Extended, q: Extended, k: int, l: int, d: int, m: int)
    requires p.OnCurve(d, m) && q.OnCurve(d, m) && Cong(p.z * k, 1, m) && Cong(q.z * l, 1, m)
    ensures var e := d * (((p.x * k) * (p.y * k)) * ((q.x * l) * (q.y * l)));
      var z, w := p.z * q.z, d * (p.t * q.t);
      Cong((z + w) * (k * l), 1 + e, m) && Cong((z - w) * (k * l), 1 - e, m)
  {
    hide Cong;
    var e := d * (((p.x * k) * (p.y * k)) * ((q.x * l) * (q.y * l)));
    var z, w := p.z * q.z, d * (p.t * q.t);
    AffineProduct(p, k, d, m);
    AffineProduct(q, l, d, m);
    CongMul((p.x * k) * (p.y * k), p.t * k, (q.x * l) * (q.y * l), q.t * l, m);
    CongScale(d, ((p.x * k) * (p.y * k)) * ((q.x * l) * (q.y * l)), (p.t * k) * (q.t * l), m);
    CongSym(e, d * ((p.t * k) * (q.t * l)), m);
    CongMul(p.z * k, 1, q.z * l, 1, m);
    CongAdd((p.z * k) * (q.z * l), 1, d * ((p.t * k) * (q.t * l)), e, m);
    CongSub((p.z * k) * (q.z * l), 1, d * ((p.t * k) * (q.t * l)), e, m);
    Swap(p.z, k, q.z, l);
    Swap(p.t, k, q.t, l);
    Distribute(z, w, d, p.t * q.t, k * l);
  }

  lemma Swap(a: int, k: int, b: int, l: int)
    ensures (a * k) * (b * l) == (a * b) * (k * l)
  {
  }

  lemma Distribute(z: int, w: int, d: int, t: int, c: int)
    requires w == d * t
    ensures d * (t * c) == w * c
    ensures (z + w) * c == z * c + w * c && (z - w) * c == z * c - w * c
  {
  }

  lemma FourFactors(z: int, w: int, c: int)
    ensures ((2 * (z - w)) * (2 * (z + w))) * (c * c) == 4 * (((z + w) * c) * ((z - w) * c))
  {
  }

  /** The sum of two proper points is proper: Z never becomes zero. */
  lemma SumProper(p: Extended, q: Extended, d: int, i: int, m: int)
    requires CurveField(d, i, m) && Proper(p, d, m) && Proper(q, d, m)
    ensures Proper(Sum(p, q, d), d, m)
  {
    hide Cong;
    SumOnCurve(p, q, d, m);
    assert Invertible(p.z, m) && Invertible(q.z, m);
    var k, l := Inverse(p.z, m), Inverse(q.z, m);
    var e := d * (((p.x * k) * (p.y * k)) * ((q.x * l) * (q.y * l)));
    var z, w := p.z * q.z, d * (p.t * q.t);
    Denominators(p, q, k, l, d, m);
    ToAffineOnCurve(p, k, d, m);
    ToAffineOnCurve(q, l, d, m);
    NoExceptionalCase(p.x * k, p.y * k, q.x * l, q.y * l, d, i, m);
    if Cong(Sum(p, q, d).z, 0, m) {
      SumFactors(p, q, d);
      CongRight(Sum(p, q, d).z, 0, (k * l) * (k * l), m);
      FourFactors(z, w, k * l);
      CongMul((z + w) * (k * l), 1 + e, (z - w) * (k * l), 1 - e, m);
      UnitSquare(((z + w) * (k * l)) * ((z - w) * (k * l)), e, m);
      assert false;
    }
  }

  /** 4 (1 + e)(1 - e) = 0 only if e^2 = 1. */
  lemma UnitSquare(a: int, e: int, m: int)
    requires m > 1 && Invertible(4, m)
    requires Cong(a, (1 + e) * (1 - e), m) && Cong(4 * a, 0, m)
    ensures Cong(e * e, 1, m)
  {
    hide Cong;
    assert (1 + e) * (1 - e) == 1 - e * e;
    assert 4 * a == a * 4;
    Cancel(a, 0, 4, Inverse(4, m), m);
    CongSym(a, 1 - e * e, m);
    CongTrans(1 - e * e, a, 0, m);
    CongRefl(e * e, m);
    CongAdd(1 - e * e, 0, e * e, e * e, m);
    CongSym(1, e * e, m);
  }

  lemma Residue(a: int, m: int)
    requires m > 0
    ensures Cong(a % m, a, m)
  {
    CongIntro(a % m, a, -(a / m), m);
  }

  /** 1 + e and 1 - e are invertible once e^2 is not 1. */
  lemma DenominatorsInvertible(e: int, d: int, i: int, m: int)
    requires CurveField(d, i, m) && !Cong(e * e, 1, m)
    ensures Invertible(1 + e, m) && Invertible(1 - e, m)
  {
    hide Cong;
    if Cong(1 + e, 0, m) {
      CongScale(e - 1, 1 + e, 0, m);
      assert (e - 1) * (1 + e) == e * e - 1;
      AddOne(e * e, m);
    }
    if Cong(1 - e, 0, m) {
      CongScale(-1 - e, 1 - e, 0, m);
      assert (-1 - e) * (1 - e) == e * e - 1;
      AddOne(e * e, m);
    }
  }

  lemma AddOne(a: int, m: int)
    requires Cong(a - 1, 0, m)
    ensures Cong(a, 1, m)
  {
    CongRefl(1, m);
    CongAdd(a - 1, 0, 1, 1, m);
  }

  /** Numerators and e of the affine law on residues agree with those on the quotients. */
  lemma ResidueForms(x1: int, y1: int, x2: int, y2: int, d: int, m: int)
    requires m > 0
    ensures Cong((x1 % m) * (y2 % m) + (y1 % m) * (x2 % m), x1 * y2 + y1 * x2, m)
    ensures Cong((y1 % m) * (y2 % m) + (x1 % m) * (x2 % m), y1 * y2 + x1 * x2, m)
    ensures Cong(d * (((x1 % m) * (y1 % m)) * ((x2 % m) * (y2 % m))), d * ((x1 * y1) * (x2 * y2)), m)
  {
    hide Cong;
    var a, b, c, e := x1 % m, y1 % m, x2 % m, y2 % m;
    Residue(x1, m);
    Residue(y1, m);
    Residue(x2, m);
    Residue(y2, m);
    CongMul(a, x1, e, y2, m);
    CongMul(b, y1, c, x2, m);
    CongAdd(a * e, x1 * y2, b * c, y1 * x2, m);
    CongMul(b, y1, e, y2, m);
    CongMul(a, x1, c, x2, m);
    CongAdd(b * e, y1 * y2, a * c, x1 * x2, m);
    CongMul(a, x1, b, y1, m);
    CongMul(c, x2, e, y2, m);
    CongMul(a * b, x1 * y1, c * e, x2 * y2, m);
    CongScale(d, (a * b) * (c * e), (x1 * y1) * (x2 * y2), m);
  }

  /** x3 den = num z3 when x3 = 4 n f, z3 = 4 f g, num = n c and den = g c. */
  lemma CrossQuotient(n: int, f: int, g: int, c: int, num: int, den: int, m: int)
    requires Cong(num, n * c, m) && Cong(den, g * c, m)
    ensures Cong(((2 * n) * (2 * f)) * den, num * ((2 * f) * (2 * g)), m)
  {
    hide Cong;
    CongScale((2 * n) * (2 * f), den, g * c, m);
    CongRight(num, n * c, (2 * f) * (2 * g), m);
    CrossShape(n, f, g, c);
    CongSym(num * ((2 * f) * (2 * g)), (n * c) * ((2 * f) * (2 * g)), m);
    CongTrans(((2 * n) * (2 * f)) * den, (n * c) * ((2 * f) * (2 * g)), num * ((2 * f) * (2 * g)), m);
  }

  lemma CrossShape(n: int, f: int, g: int, c: int)
    ensures ((2 * n) * (2 * f)) * (g * c) == (n * c) * ((2 * f) * (2 * g))
    ensures (2 * g) * (2 * n) == (2 * n) * (2 * g)
  {
  }

  /** The numerators and denominators of the affine law, in the terms of the sum formula. */
  lemma AffineForms(p: Extended, q: Extended, c: int, d: int, m: int)
    requires m > 1 && p.OnCurve(d, m) && q.OnCurve(d, m)
    requires Invertible(p.z, m) && Invertible(q.z, m) && c == Inverse(p.z, m) * Inverse(q.z, m)
    ensures var a, b := ToAffine(p, m), ToAffine(q, m);
      && var e := d * ((a.x * a.y) * (b.x * b.y));
      && var z, w := p.z * q.z, d * (p.t * q.t);
      && Cong(a.x * b.y + a.y * b.x, (p.x * q.y + p.y * q.x) * c, m)
      && Cong(a.y * b.y + a.x * b.x, (p.y * q.y + p.x * q.x) * c, m)
      && Cong(1 + e, (z + w) * c, m) && Cong(1 - e, (z - w) * c, m)
  {
    hide Cong;
    var k, l := Inverse(p.z, m), Inverse(q.z, m);
    var x1, y1, x2, y2 := p.x * k, p.y * k, q.x * l, q.y * l;
    var a, b := ToAffine(p, m), ToAffine(q, m);
    var e, e' := d * ((x1 * y1) * (x2 * y2)), d * ((a.x * a.y) * (b.x * b.y));
    var z, w := p.z * q.z, d * (p.t * q.t);
    ResidueForms(x1, y1, x2, y2, d, m);
    Numerators(p, q, k, l);
    Denominators(p, q, k, l, d, m);
    CongRefl(1, m);
    CongAdd(1, 1, e', e, m);
    CongSub(1, 1, e', e, m);
    CongSym((z + w) * c, 1 + e, m);
    CongSym((z - w) * c, 1 - e, m);
    CongTrans(1 + e', 1 + e, (z + w) * c, m);
    CongTrans(1 - e', 1 - e, (z - w) * c, m);
  }

  /** Adding in extended coordinates is adding on the affine curve. */
  lemma SumIsAffine(p: Extended, q: Extended, d: int, i: int, m: int)
    requires CurveField(d, i, m) && Proper(p, d, m) && Proper(q, d, m)
    ensures Invertible(p.z, m) && Invertible(q.z, m) && Invertible(Sum(p, q, d).z, m)
    ensures ToAffine(Sum(p, q, d), m) == AffineSum(ToAffine(p, m), ToAffine(q, m), d, m)
  {
    hide Cong;
    SumProper(p, q, d, i, m);
    var r := Sum(p, q, d);
    assert Invertible(p.z, m) && Invertible(q.z, m) && Invertible(r.z, m);
    AffineDenominators(p, q, d, i, m);
    var c := Inverse(p.z, m) * Inverse(q.z, m);
    AffineForms(p, q, c, d, m);
    var a, b := ToAffine(p, m), ToAffine(q, m);
    var e := d * ((a.x * a.y) * (b.x * b.y));
    var z, w, n, h := p.z * q.z, d * (p.t * q.t), p.x * q.y + p.y * q.x, p.y * q.y + p.x * q.x;
    var s := Extended((2 * n) * (2 * (z - w)), (2 * (z + w)) * (2 * h), (2 * (z - w)) * (2 * (z + w)),
        (2 * n) * (2 * h));
    assert r == s by { SumFactors(p, q, d); }
    SumQuotients(s, n, h, z - w, z + w, c, a.x * b.y + a.y * b.x, a.y * b.y + a.x * b.x, 1 + e, 1 - e, Inverse(r.z, m),
        m);
  }

  lemma SumQuotients(s: Extended, n: int, h: int, f: int, g: int, c: int,
                     numx: int, numy: int, denx: int, deny: int, k: int, m: int)
    requires m > 1 && Invertible(denx, m) && Invertible(deny, m) && Cong(s.z * k, 1, m)
    requires s.x == (2 * n) * (2 * f) && s.y == (2 * g) * (2 * h) && s.z == (2 * f) * (2 * g)
    requires Cong(numx, n * c, m) && Cong(numy, h * c, m) && Cong(denx, g * c, m) && Cong(deny, f * c, m)
    ensures s.x * k % m == numx * Inverse(denx, m) % m
    ensures s.y * k % m == numy * Inverse(deny, m) % m
  {
    hide Cong;
    CrossQuotient(n, f, g, c, numx, denx, m);
    CrossQuotient(h, g, f, c, numy, deny, m);
    assert s.y == (2 * h) * (2 * g) && s.z == (2 * g) * (2 * f);
    QuotientUnique(s.x, s.z, k, numx, denx, Inverse(denx, m), m);
    QuotientUnique(s.y, s.z, k, numy, deny, Inverse(deny, m), m);
  }

  lemma Numerators(p: Extended, q: Extended, k: int, l: int)
    ensures (p.x * k) * (q.y * l) + (p.y * k) * (q.x * l) == (p.x * q.y + p.y * q.x) * (k * l)
    ensures (p.y * k) * (q.y * l) + (p.x * k) * (q.x * l) == (p.y * q.y + p.x * q.x) * (k * l)
  {
    Swap(p.x, k, q.y, l);
    Swap(p.y, k, q.x, l);
    Swap(p.y, k, q.y, l);
    Swap(p.x, k, q.x, l);
  }

  /** The affine law applies to the affine images of proper points. */
  lemma AffineDenominators(p: Extended, q: Extended, d: int, i: int, m: int)
    requires CurveField(d, i, m) && Proper(p, d, m) && Proper(q, d, m)
    requires Invertible(p.z, m) && Invertible(q.z, m)
    ensures var a, b := ToAffine(p, m), ToAffine(q, m);
      var e := d * ((a.x * a.y) * (b.x * b.y));
      Invertible(1 + e, m) && Invertible(1 - e, m)
  {
    hide Cong;
    var k, l := Inverse(p.z, m), Inverse(q.z, m);
    var a, b := ToAffine(p, m), ToAffine(q, m);
    var e, e' := d * (((p.x * k) * (p.y * k)) * ((q.x * l) * (q.y * l))), d * ((a.x * a.y) * (b.x * b.y));
    ResidueForms(p.x * k, p.y * k, q.x * l, q.y * l, d, m);
    ToAffineOnCurve(p, k, d, m);
    ToAffineOnCurve(q, l, d, m);
    NoExceptionalCase(p.x * k, p.y * k, q.x * l, q.y * l, d, i, m);
    if Cong(e' * e', 1, m) {
      CongSquare(e', e, m);
      CongSym(e' * e', e * e, m);
      CongTrans(e * e, e' * e', 1, m);
    }
    DenominatorsInvertible(e', d, i, m);
  }

  // ---------------------------------------------------------------- doubling and congruent copies

  lemma CopyOnCurve(p: Extended, q: Extended, d: int, m: int)
    requires p.CongruentTo(q, m) && q.OnCurve(d, m)
    ensures p.OnCurve(d, m)
  {
    hide Cong;
    CongMul(p.x, q.x, p.y, q.y, m);
    CongMul(p.z, q.z, p.t, q.t, m);
    CongSym(p.z * p.t, q.z * q.t, m);
    CongTrans(p.x * p.y, q.x * q.y, q.z * q.t, m);
    CongTrans(p.x * p.y, q.z * q.t, p.z * p.t, m);
    CongSquare(p.x, q.x, m);
    CongSquare(p.y, q.y, m);
    CongSub(p.y * p.y, q.y * q.y, p.x * p.x, q.x * q.x, m);
    CongSquare(p.z, q.z, m);
    CongSquare(p.t, q.t, m);
    CongScale(d, p.t * p.t, q.t * q.t, m);
    CongAdd(p.z * p.z, q.z * q.z, d * (p.t * p.t), d * (q.t * q.t), m);
    CongSym(p.z * p.z + d * (p.t * p.t), q.z * q.z + d * (q.t * q.t), m);
    CongTrans(p.y * p.y - p.x * p.x, q.y * q.y - q.x * q.x, q.z * q.z + d * (q.t * q.t), m);
    CongTrans(p.y * p.y - p.x * p.x, q.z * q.z + d * (q.t * q.t), p.z * p.z + d * (p.t * p.t), m);
  }

  /** A congruent copy of a proper point is proper and stands for the same affine point. */
  lemma CopyProper(p: Extended, q: Extended, d: int, i: int, m: int)
    requires CurveField(d, i, m) && p.CongruentTo(q, m) && Proper(q, d, m)
    ensures Proper(p, d, m) && Invertible(p.z, m) && Invertible(q.z, m)
    ensures ToAffine(p, m) == ToAffine(q, m)
  {
    hide Cong;
    CopyOnCurve(p, q, d, m);
    if Cong(p.z, 0, m) {
      CongSym(p.z, q.z, m);
      CongTrans(q.z, p.z, 0, m);
    }
    ScaledAffine(p, q, 1, m);
  }

  /** Doubling a proper point adds it to itself on the affine curve. */
  lemma TwiceIsAffine(p: Extended, d: int, i: int, m: int)
    requires CurveField(d, i, m) && Proper(p, d, m)
    ensures Proper(Twice(p), d, m) && Invertible(p.z, m) && Invertible(Twice(p).z, m)
    ensures ToAffine(Twice(p), m) == AffineSum(ToAffine(p, m), ToAffine(p, m), d, m)
  {
    hide Cong;
    TwiceOnCurve(p, d, m);
    TwiceIsSum(p, d, m);
    SumProper(p, p, d, i, m);
    SumIsAffine(p, p, d, i, m);
    var r, s := Twice(p), Sum(p, p, d);
    if Cong(r.z, 0, m) {
      CongScale(4, r.z, 0, m);
      CongTrans(s.z, 4 * r.z, 0, m);
    }
    ScaledAffine(s, r, 4, m);
  }

  // ---------------------------------------------------------------- the affine group

  ghost const ORIGIN := Affine(0, 1)

  /**
   The residues that are points of the curve. The equation is said of a name for the point, so that it only
   comes up where it is asked for.
   */
  ghost predicate OnAffine(a: Affine, d: int, m: int) {
    && 0 <= a.x < m && 0 <= a.y < m
    && forall b: Affine {:trigger SolvedCurve(b.x, b.y, d, m)} | b == a :: SolvedCurve(b.x, b.y, d, m)
  }

  ghost predicate AssociatesAt(a: Affine, b: Affine, c: Affine, d: int, m: int)
    requires m > 1
  {
    AffineSum(AffineSum(a, b, d, m), c, d, m) == AffineSum(a, AffineSum(b, c, d, m), d, m)
  }

  /** The one group law that is assumed rather than proved here. */
  ghost predicate Associative(d: int, m: int) {
    m > 1 && forall a, b, c {:trigger AssociatesAt(a, b, c, d, m)} |
      OnAffine(a, d, m) && OnAffine(b, d, m) && OnAffine(c, d, m) :: AssociatesAt(a, b, c, d, m)
  }

  lemma ImageOnAffine(p: Extended, d: int, m: int)
    requires m > 1 && p.OnCurve(d, m) && Invertible(p.z, m)
    ensures OnAffine(ToAffine(p, m), d, m)
  {
    hide Cong, AffineCurve, SolvedCurve;
    var k := Inverse(p.z, m);
    ToAffineOnCurve(p, k, d, m);
    CurveForms(p.x * k, p.y * k, d, m);
    Residue(p.x * k, m);
    Residue(p.y * k, m);
    SameCurve(p.x * k, p.x * k % m, p.y * k, p.y * k % m, d, m);
  }

  /** Every affine point is the image of a proper one. */
  lemma Lift(a: Affine, d: int, m: int) returns (p: Extended)
    requires m > 1 && OnAffine(a, d, m)
    ensures Proper(p, d, m) && Invertible(p.z, m) && ToAffine(p, m) == a
    ensures p == Extended(a.x, a.y, 1, a.x * a.y)
  {
    hide Cong;
    p := Extended(a.x, a.y, 1, a.x * a.y);
    CurveForms(a.x, a.y, d, m);
    CongRefl(a.x * a.y, m);
    CongRefl(1, m);
    assert InverseOf(1, 1, m);
    InvertibleNonzero(1, 1, m);
    var k := Inverse(1, m);
    UnitQuotient(a.x, k, m);
    UnitQuotient(a.y, k, m);
  }

  lemma UnitQuotient(x: int, k: int, m: int)
    requires 0 <= x < m && Cong(1 * k, 1, m)
    ensures x * k % m == x
  {
    hide Cong;
    CongScale(x, 1 * k, 1, m);
    CongIffMod(x * k, x, m);
    DivModUnique(x, 0, x, m);
  }

  lemma AffineClosed(a: Affine, b: Affine, d: int, i: int, m: int)
    requires CurveField(d, i, m) && OnAffine(a, d, m) && OnAffine(b, d, m)
    ensures OnAffine(AffineSum(a, b, d, m), d, m)
  {
    hide Cong;
    var p := Lift(a, d, m);
    var q := Lift(b, d, m);
    SumProper(p, q, d, i, m);
    SumIsAffine(p, q, d, i, m);
    ImageOnAffine(Sum(p, q, d), d, m);
  }

  lemma OriginOnAffine(d: int, m: int)
    requires m > 1
    ensures OnAffine(ORIGIN, d, m)
  {
    CongRefl(0, m);
  }

  lemma OriginNeutral(a: Affine, d: int, m: int)
    requires m > 1 && OnAffine(a, d, m)
    ensures OnAffine(ORIGIN, d, m)
    ensures AffineSum(ORIGIN, a, d, m) == a && AffineSum(a, ORIGIN, d, m) == a
  {
    OriginOnAffine(d, m);
    CongRefl(1, m);
    assert InverseOf(1, 1, m);
    var p := Lift(a, d, m);
    var k := Inverse(1, m);
    assert d * ((0 * 1) * (a.x * a.y)) == 0 && d * ((a.x * a.y) * (0 * 1)) == 0;
    assert a == Affine(a.x * k % m, a.y * k % m);
  }

  /** n copies of a added up. */
  ghost function Multiple(n: nat, a: Affine, d: int, m: int): Affine
    requires m > 1
    decreases n, a
  {
    if n == 0 then ORIGIN else AffineSum(Multiple(n - 1, a, d, m), a, d, m)
  }

  lemma {:induction false} MultipleOnAffine(n: nat, a: Affine, d: int, i: int, m: int)
    requires CurveField(d, i, m) && OnAffine(a, d, m)
    ensures OnAffine(Multiple(n, a, d, m), d, m)
  {
    OriginNeutral(a, d, m);
    if n > 0 {
      MultipleOnAffine(n - 1, a, d, i, m);
      AffineClosed(Multiple(n - 1, a, d, m), a, d, i, m);
    }
  }

  /** [n + k]a = [n]a + [k]a. */
  lemma {:induction false} MultipleAdd(n: nat, k: nat, a: Affine, d: int, i: int, m: int)
    requires CurveField(d, i, m) && Associative(d, m) && OnAffine(a, d, m)
    ensures Multiple(n + k, a, d, m) == AffineSum(Multiple(n, a, d, m), Multiple(k, a, d, m), d, m)
    decreases k
  {
    MultipleOnAffine(n, a, d, i, m);
    if k == 0 {
      OriginNeutral(Multiple(n, a, d, m), d, m);
    } else {
      MultipleOnAffine(k - 1, a, d, i, m);
      MultipleAdd(n, k - 1, a, d, i, m);
      assert AssociatesAt(Multiple(n, a, d, m), Multiple(k - 1, a, d, m), a, d, m);
    }
  }

  /** [n k]a = [n]([k]a). */
  lemma {:induction false} MultipleMul(n: nat, k: nat, a: Affine, d: int, i: int, m: int)
    requires CurveField(d, i, m) && Associative(d, m) && OnAffine(a, d, m)
    ensures n * k >= 0 && Multiple(n * k, a, d, m) == Multiple(n, Multiple(k, a, d, m), d, m)
    decreases n
  {
    MulNonneg(n, k);
    if n > 0 {
      MulNonneg(n - 1, k);
      assert n * k == (n - 1) * k + k;
      MultipleMul(n - 1, k, a, d, i, m);
      MultipleAdd((n - 1) * k, k, a, d, i, m);
    }
  }

  lemma FieldModulus(d: int, i: int, m: int)
    requires CurveField(d, i, m)
    ensures m > 1
  {
  }

  /** Multiples of a point of order l depend on the multiplier modulo l only. */
  lemma MultipleMod(n: nat, l: nat, a: Affine, d: int, i: int, m: int)
    requires CurveField(d, i, m) && Associative(d, m) && OnAffine(a, d, m)
    requires l > 0 && Multiple(l, a, d, m) == ORIGIN
    ensures Multiple(n % l, a, d, m) == Multiple(n, a, d, m)
  {
    hide Cong, Multiple, AffineSum, CurveField, Associative, OnAffine;
    var q := n / l;
    MulNonneg(q, l);
    assert n == q * l + n % l;
    FieldModulus(d, i, m);
    MultipleAdd(q * l, n % l, a, d, i, m);
    MultipleMul(q, l, a, d, i, m);
    OriginNeutral(a, d, m);
    OriginMultiple(q, d, m);
    MultipleOnAffine(n % l, a, d, i, m);
    OriginNeutral(Multiple(n % l, a, d, m), d, m);
  }

  lemma {:induction false} OriginMultiple(n: nat, d: int, m: int)
    requires m > 1 && OnAffine(ORIGIN, d, m)
    ensures Multiple(n, ORIGIN, d, m) == ORIGIN
  {
    if n > 0 {
      OriginMultiple(n - 1, d, m);
      OriginNeutral(ORIGIN, d, m);
    }
  }

  /** [s]b = [r]b + [k]([a]b) for s = k a + r modulo l, when [l]b is the neutral element. */
  lemma ResponseMultiple(k: nat, a: nat, r: nat, n: nat, l: nat, b: Affine, d: int, i: int, m: int)
    requires CurveField(d, i, m) && Associative(d, m) && OnAffine(b, d, m)
    requires l > 0 && Multiple(l, b, d, m) == ORIGIN && n == r + k * a
    ensures Multiple(n % l, b, d, m)
         == AffineSum(Multiple(r, b, d, m), Multiple(k, Multiple(a, b, d, m), d, m), d, m)
  {
    hide Cong, Multiple, AffineSum, CurveField, Associative, OnAffine;
    MulNonneg(k, a);
    var ka: nat := k * a;
    MultipleMod(n, l, b, d, i, m);
    MultipleAdd(r, ka, b, d, i, m);
    MultipleMul(k, a, b, d, i, m);
  }
}

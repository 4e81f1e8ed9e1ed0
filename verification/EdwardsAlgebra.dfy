/**
 The polynomial identities behind the extended-coordinate formulas of section
 5.1.4 of RFC 8032, over the integers modulo any m, for any d.
 */
module EdwardsAlgebra {
  import opened Arith

  /** Extended coordinates as plain integers. */
  datatype Extended = Extended(x: int, y: int, z: int, t: int) {

    /** XY = ZT and -X^2 + Y^2 = Z^2 + d T^2, modulo m. */
    ghost predicate OnCurve(d: int, m: int) {
      Cong(x * y, z * t, m) && Cong(y * y - x * x, z * z + d * (t * t), m)
    }

    ghost predicate CongruentTo(q: Extended, m: int) {
      Cong(x, q.x, m) && Cong(y, q.y, m) && Cong(z, q.z, m) && Cong(t, q.t, m)
    }
  }

  /** The unified addition formula. */
  ghost function Sum(p: Extended, q: Extended, d: int): Extended {
    var a := (p.y - p.x) * (q.y - q.x);
    var b := (p.y + p.x) * (q.y + q.x);
    var c := (2 * d) * p.t * q.t;
    var dd := 2 * p.z * q.z;
    var e, f, g, h := b - a, dd - c, dd + c, b + a;
    Extended(e * f, g * h, f * g, e * h)
  }

  /** The doubling formula, which does not look at t. */
  ghost function Twice(p: Extended): Extended {
    var a, b, c := p.x * p.x, p.y * p.y, 2 * (p.z * p.z);
    var h := a + b;
    var e := (p.x + p.y) * (p.x + p.y) - h;
    var g := b - a;
    var f := c - g;
    Extended(e * f, g * h, f * g, e * h)
  }

  lemma CongScale(c: int, a: int, b: int, m: int)
    requires Cong(a, b, m)
    ensures Cong(c * a, c * b, m)
  {
    CongRefl(c, m);
    CongMul(c, c, a, b, m);
  }

  /** Both sides of the curve equation of a sum, over 16, in the invariants of the summands. */
  ghost function SumLeft(u1: int, u2: int, n1: int, n2: int, s12: int, z: int, t: int, d: int): int {
    (z * z + (d * t) * (d * t)) * (n1 * n2) + (d * t * z) * (2 * s12 + 8 * (u1 * u2))
  }

  ghost function SumRight(u1: int, u2: int, n1: int, n2: int, s12: int, z: int, t: int, d: int): int {
    var f := z * z - (d * t) * (d * t);
    f * f + d * ((u1 * n2) * (u1 * n2)) + d * ((u2 * n1) * (u2 * n1))
    + d * (8 * ((u1 * u2) * (u1 * u2)) + 2 * ((u1 * u2) * s12))
  }

  lemma Quartic(a: int, b: int, c: int, e: int)
    ensures (a * c + b * e) * ((a + b) * (c + e))
         == (a * c - b * e) * (a * c - b * e) + (a * b) * ((c + e) * (c + e)) + (c * e) * ((a + b) * (a + b))
  {
  }

  lemma PullOut(d: int, z: int, t: int, n: int)
    ensures d * ((z * t * n) * (z * t * n)) == ((z * z) * (d * (t * t))) * (n * n)
  {
  }

  lemma SquareProducts(d: int, z1: int, t1: int, z2: int, t2: int)
    ensures (z1 * z2) * (z1 * z2) == (z1 * z1) * (z2 * z2)
    ensures (d * (t1 * t2)) * (d * (t1 * t2)) == (d * (t1 * t1)) * (d * (t2 * t2))
  {
  }

  lemma CrossTerm(d: int, z: int, t: int, s12: int)
    ensures (d * t * z) * (2 * s12 + 8 * (z * t)) == d * (8 * ((z * t) * (z * t)) + 2 * ((z * t) * s12))
  {
  }

  /** The identity the sum formula rests on, with u = zt and n = z^2 + d t^2 put in. */
  lemma SumCore(z1: int, t1: int, z2: int, t2: int, s12: int, d: int)
    ensures SumLeft(z1 * t1, z2 * t2, z1 * z1 + d * (t1 * t1), z2 * z2 + d * (t2 * t2), s12, z1 * z2, t1 * t2, d)
         == SumRight(z1 * t1, z2 * t2, z1 * z1 + d * (t1 * t1), z2 * z2 + d * (t2 * t2), s12, z1 * z2, t1 * t2, d)
  {
    var a, b, c, e := z1 * z1, d * (t1 * t1), z2 * z2, d * (t2 * t2);
    var n1, n2, z, t := a + b, c + e, z1 * z2, t1 * t2;
    var u1, u2 := z1 * t1, z2 * t2;
    assert z * z == a * c && (d * t) * (d * t) == b * e by { SquareProducts(d, z1, t1, z2, t2); }
    assert d * ((u1 * n2) * (u1 * n2)) == (a * b) * (n2 * n2) by { PullOut(d, z1, t1, n2); }
    assert d * ((u2 * n1) * (u2 * n1)) == (c * e) * (n1 * n1) by { PullOut(d, z2, t2, n1); }
    assert u1 * u2 == z * t;
    assert (d * t * z) * (2 * s12 + 8 * (u1 * u2)) == d * (8 * ((u1 * u2) * (u1 * u2)) + 2 * ((u1 * u2) * s12)) by {
      CrossTerm(d, z, t, s12);
    }
    Quartic(a, b, c, e);
  }

  lemma SumLeftCong(u1: int, v1: int, u2: int, v2: int, n1: int, k1: int, n2: int, k2: int,
                    s12: int, z: int, t: int, d: int, m: int)
    requires Cong(u1, v1, m) && Cong(u2, v2, m) && Cong(n1, k1, m) && Cong(n2, k2, m)
    ensures Cong(SumLeft(u1, u2, n1, n2, s12, z, t, d), SumLeft(v1, v2, k1, k2, s12, z, t, d), m)
  {
    hide Cong;
    var w := z * z + (d * t) * (d * t);
    CongMul(n1, k1, n2, k2, m);
    CongScale(w, n1 * n2, k1 * k2, m);
    CongMul(u1, v1, u2, v2, m);
    CongScale(8, u1 * u2, v1 * v2, m);
    CongRefl(2 * s12, m);
    CongAdd(2 * s12, 2 * s12, 8 * (u1 * u2), 8 * (v1 * v2), m);
    CongScale(d * t * z, 2 * s12 + 8 * (u1 * u2), 2 * s12 + 8 * (v1 * v2), m);
    CongAdd(w * (n1 * n2), w * (k1 * k2),
            (d * t * z) * (2 * s12 + 8 * (u1 * u2)), (d * t * z) * (2 * s12 + 8 * (v1 * v2)), m);
  }

  lemma CongSquare(a: int, b: int, m: int)
    requires Cong(a, b, m)
    ensures Cong(a * a, b * b, m)
  {
    CongMul(a, b, a, b, m);
  }

  lemma SumRightCong(u1: int, v1: int, u2: int, v2: int, n1: int, k1: int, n2: int, k2: int,
                     s12: int, z: int, t: int, d: int, m: int)
    requires Cong(u1, v1, m) && Cong(u2, v2, m) && Cong(n1, k1, m) && Cong(n2, k2, m)
    ensures Cong(SumRight(u1, u2, n1, n2, s12, z, t, d), SumRight(v1, v2, k1, k2, s12, z, t, d), m)
  {
    hide Cong;
    var f := z * z - (d * t) * (d * t);
    CongRefl(f * f, m);
    CongMul(u1, v1, n2, k2, m);
    CongSquare(u1 * n2, v1 * k2, m);
    CongScale(d, (u1 * n2) * (u1 * n2), (v1 * k2) * (v1 * k2), m);
    CongMul(u2, v2, n1, k1, m);
    CongSquare(u2 * n1, v2 * k1, m);
    CongScale(d, (u2 * n1) * (u2 * n1), (v2 * k1) * (v2 * k1), m);
    CongMul(u1, v1, u2, v2, m);
    CongSquare(u1 * u2, v1 * v2, m);
    CongScale(8, (u1 * u2) * (u1 * u2), (v1 * v2) * (v1 * v2), m);
    CongRefl(s12, m);
    CongMul(u1 * u2, v1 * v2, s12, s12, m);
    CongScale(2, (u1 * u2) * s12, (v1 * v2) * s12, m);
    var r, r' := 8 * ((u1 * u2) * (u1 * u2)) + 2 * ((u1 * u2) * s12),
        8 * ((v1 * v2) * (v1 * v2)) + 2 * ((v1 * v2) * s12);
    CongAdd(8 * ((u1 * u2) * (u1 * u2)), 8 * ((v1 * v2) * (v1 * v2)), 2 * ((u1 * u2) * s12), 2 * ((v1 * v2) * s12), m);
    CongScale(d, r, r', m);
    CongAdd(f * f, f * f, d * ((u1 * n2) * (u1 * n2)), d * ((v1 * k2) * (v1 * k2)), m);
    CongAdd(f * f + d * ((u1 * n2) * (u1 * n2)), f * f + d * ((v1 * k2) * (v1 * k2)),
            d * ((u2 * n1) * (u2 * n1)), d * ((v2 * k1) * (v2 * k1)), m);
    CongAdd(f * f + d * ((u1 * n2) * (u1 * n2)) + d * ((u2 * n1) * (u2 * n1)),
            f * f + d * ((v1 * k2) * (v1 * k2)) + d * ((v2 * k1) * (v2 * k1)), d * r, d * r', m);
  }

  /** Half of e and h of the sum formula: x1 y2 + y1 x2 and y1 y2 + x1 x2. */
  lemma HalfSums(x1: int, y1: int, x2: int, y2: int)
    ensures (y1 + x1) * (y2 + x2) - (y1 - x1) * (y2 - x2) == 2 * (x1 * y2 + y1 * x2)
    ensures (y1 + x1) * (y2 + x2) + (y1 - x1) * (y2 - x2) == 2 * (y1 * y2 + x1 * x2)
  {
  }

  lemma HalfProducts(x1: int, y1: int, x2: int, y2: int)
    ensures var e, h := x1 * y2 + y1 * x2, y1 * y2 + x1 * x2;
      && h * h - e * e == (y1 * y1 - x1 * x1) * (y2 * y2 - x2 * x2)
      && h * h + e * e == (x1 * x1 + y1 * y1) * (x2 * x2 + y2 * y2) + 4 * ((x1 * y1) * (x2 * y2))
      && e * h == (x1 * y1) * (x2 * x2 + y2 * y2) + (x2 * y2) * (x1 * x1 + y1 * y1)
  {
  }

  lemma SumOfSquares(x: int, y: int)
    ensures (x * x + y * y) * (x * x + y * y) == (y * y - x * x) * (y * y - x * x) + 4 * ((x * y) * (x * y))
  {
  }

  lemma SquareOfSum(u1: int, s2: int, u2: int, s1: int)
    ensures (u1 * s2 + u2 * s1) * (u1 * s2 + u2 * s1)
         == (u1 * u1) * (s2 * s2) + (u2 * u2) * (s1 * s1) + 2 * ((u1 * u2) * (s1 * s2))
  {
  }

  lemma LeftShape(e: int, h: int, z: int, w: int)
    ensures ((2 * (z + w)) * (2 * h)) * ((2 * (z + w)) * (2 * h))
            - ((2 * e) * (2 * (z - w))) * ((2 * e) * (2 * (z - w)))
         == 16 * ((z * z + w * w) * (h * h - e * e) + (w * z) * (2 * (h * h + e * e)))
  {
  }

  lemma RightShape(e: int, h: int, z: int, w: int)
    ensures ((2 * (z - w)) * (2 * (z + w))) * ((2 * (z - w)) * (2 * (z + w)))
        == 16 * ((z * z - w * w) * (z * z - w * w))
    ensures ((2 * e) * (2 * h)) * ((2 * e) * (2 * h)) == 16 * ((e * h) * (e * h))
  {
  }

  /** The four factors of a sum, each twice a simpler expression. */
  lemma SumFactors(p: Extended, q: Extended, d: int)
    ensures var e, h := p.x * q.y + p.y * q.x, p.y * q.y + p.x * q.x;
      var z, w := p.z * q.z, d * (p.t * q.t);
      Sum(p, q, d)
        == Extended((2 * e) * (2 * (z - w)), (2 * (z + w)) * (2 * h), (2 * (z - w)) * (2 * (z + w)), (2 * e) * (2 * h))
  {
    HalfSums(p.x, p.y, q.x, q.y);
    assert (2 * d) * p.t * q.t == 2 * (d * (p.t * q.t));
    assert 2 * p.z * q.z == 2 * (p.z * q.z);
  }

  lemma SumLeftExact(p: Extended, q: Extended, d: int)
    ensures var r := Sum(p, q, d);
      r.y * r.y - r.x * r.x == 16 * SumLeft(p.x * p.y, q.x * q.y, p.y * p.y - p.x * p.x, q.y * q.y - q.x * q.x,
        (p.x * p.x + p.y * p.y) * (q.x * q.x + q.y * q.y), p.z * q.z, p.t * q.t, d)
  {
    var e, h := p.x * q.y + p.y * q.x, p.y * q.y + p.x * q.x;
    SumFactors(p, q, d);
    LeftShape(e, h, p.z * q.z, d * (p.t * q.t));
    HalfProducts(p.x, p.y, q.x, q.y);
  }

  lemma SumRightExact(p: Extended, q: Extended, d: int)
    ensures var r := Sum(p, q, d);
      r.z * r.z + d * (r.t * r.t) == 16 * SumRight(p.x * p.y, q.x * q.y, p.y * p.y - p.x * p.x, q.y * q.y - q.x * q.x,
        (p.x * p.x + p.y * p.y) * (q.x * q.x + q.y * q.y), p.z * q.z, p.t * q.t, d)
  {
    var e, h := p.x * q.y + p.y * q.x, p.y * q.y + p.x * q.x;
    var u1, u2, n1, n2 := p.x * p.y, q.x * q.y, p.y * p.y - p.x * p.x, q.y * q.y - q.x * q.x;
    var s1, s2 := p.x * p.x + p.y * p.y, q.x * q.x + q.y * q.y;
    SumFactors(p, q, d);
    RightShape(e, h, p.z * q.z, d * (p.t * q.t));
    assert e * h == u1 * s2 + u2 * s1 by { HalfProducts(p.x, p.y, q.x, q.y); }
    SumOfSquares(p.x, p.y);
    SumOfSquares(q.x, q.y);
    EhSquare(u1, n1, s1, u2, n2, s2, d);
  }

  lemma EhSquare(u1: int, n1: int, s1: int, u2: int, n2: int, s2: int, d: int)
    requires s1 * s1 == n1 * n1 + 4 * (u1 * u1) && s2 * s2 == n2 * n2 + 4 * (u2 * u2)
    ensures d * ((u1 * s2 + u2 * s1) * (u1 * s2 + u2 * s1)) == d * ((u1 * n2) * (u1 * n2)) + d * ((u2 * n1) * (u2 * n1))
      + d * (8 * ((u1 * u2) * (u1 * u2)) + 2 * ((u1 * u2) * (s1 * s2)))
  {
    SquareOfSum(u1, s2, u2, s1);
    assert (u1 * u1) * (s2 * s2) == (u1 * n2) * (u1 * n2) + 4 * ((u1 * u2) * (u1 * u2));
    assert (u2 * u2) * (s1 * s1) == (u2 * n1) * (u2 * n1) + 4 * ((u1 * u2) * (u1 * u2));
  }

  /** The sum of two points of the curve is on the curve. */
  lemma SumOnCurve(p: Extended, q: Extended, d: int, m: int)
    requires p.OnCurve(d, m) && q.OnCurve(d, m)
    ensures Sum(p, q, d).OnCurve(d, m)
  {
    hide Cong;
    var r := Sum(p, q, d);
    SumSegre(p, q, d);
    CongRefl(r.x * r.y, m);
    var u1, u2, n1, n2 := p.x * p.y, q.x * q.y, p.y * p.y - p.x * p.x, q.y * q.y - q.x * q.x;
    var v1, v2, k1, k2 := p.z * p.t, q.z * q.t, p.z * p.z + d * (p.t * p.t), q.z * q.z + d * (q.t * q.t);
    var s12 := (p.x * p.x + p.y * p.y) * (q.x * q.x + q.y * q.y);
    var z, t := p.z * q.z, p.t * q.t;
    var l, l' := SumLeft(u1, u2, n1, n2, s12, z, t, d), SumLeft(v1, v2, k1, k2, s12, z, t, d);
    var r1, r2 := SumRight(u1, u2, n1, n2, s12, z, t, d), SumRight(v1, v2, k1, k2, s12, z, t, d);
    assert Cong(l, l', m) by { SumLeftCong(u1, v1, u2, v2, n1, k1, n2, k2, s12, z, t, d, m); }
    assert Cong(r1, r2, m) by { SumRightCong(u1, v1, u2, v2, n1, k1, n2, k2, s12, z, t, d, m); }
    assert l' == r2 by { SumCore(p.z, p.t, q.z, q.t, s12, d); }
    CongSym(r1, r2, m);
    CongTrans(l, l', r1, m);
    CongScale(16, l, r1, m);
    SumLeftExact(p, q, d);
    SumRightExact(p, q, d);
  }

  lemma SumSegre(p: Extended, q: Extended, d: int)
    ensures Sum(p, q, d).x * Sum(p, q, d).y == Sum(p, q, d).z * Sum(p, q, d).t
    ensures Twice(p).x * Twice(p).y == Twice(p).z * Twice(p).t
  {
    var a, b, c, dd := (p.y - p.x) * (q.y - q.x), (p.y + p.x) * (q.y + q.x), (2 * d) * p.t * q.t, 2 * p.z * q.z;
    Regroup(b - a, dd - c, dd + c, b + a);
    var h, g := p.x * p.x + p.y * p.y, p.y * p.y - p.x * p.x;
    Regroup((p.x + p.y) * (p.x + p.y) - h, 2 * (p.z * p.z) - g, g, h);
  }

  lemma Regroup(e: int, f: int, g: int, h: int)
    ensures (e * f) * (g * h) == (f * g) * (e * h)
  {
  }

  /**
   Doubling is addition of a point to itself, but for a common factor of 4 in all
   four coordinates, so it stands for the same point of the curve.
   */
  lemma TwiceIsSum(p: Extended, d: int, m: int)
    requires p.OnCurve(d, m)
    ensures var r := Twice(p); Sum(p, p, d).CongruentTo(Extended(4 * r.x, 4 * r.y, 4 * r.z, 4 * r.t), m)
  {
    hide Cong;
    var n, k := p.y * p.y - p.x * p.x, p.z * p.z + d * (p.t * p.t);
    var h, zz, w := p.x * p.x + p.y * p.y, p.z * p.z, d * (p.t * p.t);
    var e := (p.x + p.y) * (p.x + p.y) - h;
    var f := 2 * zz - n;
    SumFactors(p, p, d);
    assert e == 2 * (p.x * p.y);
    // 2 (z^2 - w) is congruent to 2 f, and 2 (z^2 + w) to 2 n.
    CongSym(n, k, m);
    CongScale(2, k, n, m);
    CongRefl(4 * zz, m);
    CongSub(4 * zz, 4 * zz, 2 * k, 2 * n, m);
    assert 4 * zz - 2 * k == 2 * (zz - w) && 4 * zz - 2 * n == 2 * f;
    CongRefl(2 * e, m);
    CongRefl(2 * h, m);
    CongMul(2 * e, 2 * e, 2 * (zz - w), 2 * f, m);
    CongMul(2 * (zz + w), 2 * n, 2 * h, 2 * h, m);
    CongMul(2 * (zz - w), 2 * f, 2 * (zz + w), 2 * n, m);
    CongMul(2 * e, 2 * e, 2 * h, 2 * h, m);
    Fours(e, f, n, h);
  }

  lemma Fours(e: int, f: int, g: int, h: int)
    ensures (2 * e) * (2 * f) == 4 * (e * f) && (2 * g) * (2 * h) == 4 * (g * h)
    ensures (2 * f) * (2 * g) == 4 * (f * g) && (2 * e) * (2 * h) == 4 * (e * h)
  {
  }

  /** Doubling a point of the curve stays on the curve. */
  lemma TwiceOnCurve(p: Extended, d: int, m: int)
    requires p.OnCurve(d, m)
    ensures Twice(p).OnCurve(d, m)
  {
    hide Cong;
    var n, k := p.y * p.y - p.x * p.x, p.z * p.z + d * (p.t * p.t);
    var h := p.x * p.x + p.y * p.y;
    var e := (p.x + p.y) * (p.x + p.y) - h;
    var f := 2 * (p.z * p.z) - n;
    var r := Twice(p);
    SumSegre(p, p, d);
    CongRefl(r.x * r.y, m);
    assert e == 2 * (p.x * p.y);
    // f^2 + d e^2 - n^2 = 4 (z^2 (z^2 - n) + d (xy)^2), and z^2 - n = -d t^2.
    CongSquare(p.x * p.y, p.z * p.t, m);
    CongScale(d, (p.x * p.y) * (p.x * p.y), (p.z * p.t) * (p.z * p.t), m);
    CongRefl(p.z * p.z, m);
    CongSub(p.z * p.z, p.z * p.z, n, k, m);
    CongScale(p.z * p.z, p.z * p.z - n, p.z * p.z - k, m);
    var c := (p.z * p.z) * (p.z * p.z - n) + d * ((p.x * p.y) * (p.x * p.y));
    var c' := (p.z * p.z) * (p.z * p.z - k) + d * ((p.z * p.t) * (p.z * p.t));
    CongAdd((p.z * p.z) * (p.z * p.z - n), (p.z * p.z) * (p.z * p.z - k),
            d * ((p.x * p.y) * (p.x * p.y)), d * ((p.z * p.t) * (p.z * p.t)), m);
    assert c' == 0 by { ZeroTerm(p.z, p.t, d); }
    CongScale(4 * (h * h), c, 0, m);
    SumOfSquares(p.x, p.y);
    TwiceDifference(p.x * p.y, n, h, p.z * p.z, d);
    CongRefl(r.y * r.y - r.x * r.x, m);
    CongAdd(r.y * r.y - r.x * r.x, r.y * r.y - r.x * r.x, 4 * (h * h) * c, 0, m);
    CongSym(r.z * r.z + d * (r.t * r.t), r.y * r.y - r.x * r.x, m);
  }

  lemma ZeroTerm(z: int, t: int, d: int)
    ensures (z * z) * (z * z - (z * z + d * (t * t))) + d * ((z * t) * (z * t)) == 0
  {
    assert (z * z) * (d * (t * t)) == d * ((z * t) * (z * t));
  }

  /** By how much z^2 + d t^2 and y^2 - x^2 of a doubled point differ, for any h^2 = n^2 + 4 u^2. */
  lemma TwiceDifference(u: int, n: int, h: int, s: int, d: int)
    requires h * h == n * n + 4 * (u * u)
    ensures var e, f := 2 * u, 2 * s - n;
      (f * n) * (f * n) + d * ((e * h) * (e * h))
          == ((n * h) * (n * h) - (e * f) * (e * f)) + 4 * (h * h) * (s * (s - n) + d * (u * u))
  {
    var f, hh := 2 * s - n, h * h;
    assert (f * n) * (f * n) + (2 * u * f) * (2 * u * f) == (f * f) * hh;
    assert f * f - n * n == 4 * (s * (s - n));
    assert (f * f) * hh - (n * n) * hh == 4 * hh * (s * (s - n)) by {
      assert (f * f - n * n) * hh == (f * f) * hh - (n * n) * hh;
    }
    assert (n * h) * (n * h) == (n * n) * hh;
    assert d * ((2 * u * h) * (2 * u * h)) == 4 * hh * (d * (u * u));
  }
}

/** Integer arithmetic shared by the models: division, congruence and powers. */
module Arith {

  lemma MulNonneg(x: int, y: int)
    requires x >= 0 && y >= 0
    ensures x * y >= 0
  {
  }

  /** Quotient and remainder are unique. */
  lemma DivModUnique(x: int, q: int, r: int, m: int)
    requires 0 <= r < m
    requires x == q * m + r
    ensures x / m == q && x % m == r
  {
    var d := x / m - q;
    assert x == m * (x / m) + x % m;
    assert d * m == r - x % m by {
      assert d * m == (x / m) * m - q * m;
    }
    assert d >= 1 ==> d * m >= m;
    assert d <= -1 ==> d * m <= -m;
  }

  /** Dividing by a product is dividing twice. */
  lemma DivDiv(x: int, a: int, b: int)
    requires a > 0 && b > 0
    ensures a * b > 0 && x / (a * b) == (x / a) / b
  {
    var y := x / a;
    DivDivParts(a, b, y / b, y % b, x % a);
    assert x == y * a + x % a;
    DivModUnique(x, y / b, (y % b) * a + x % a, a * b);
  }

  lemma DivDivParts(a: int, b: int, q: int, r: int, s: int)
    requires a > 0 && b > 0 && 0 <= r < b && 0 <= s < a
    ensures a * b > 0
    ensures (q * b + r) * a + s == q * (a * b) + (r * a + s)
    ensures 0 <= r * a + s < a * b
  {
    assert (q * b) * a == q * (a * b);
    assert (q * b + r) * a == (q * b) * a + r * a;
    MulNonneg(b - 1 - r, a);
    MulNonneg(r, a);
    assert (b - 1 - r) * a == a * b - a - r * a;
  }

  /** A remainder survives reduction modulo a multiple of the modulus. */
  lemma ModMod(x: int, m: int, k: int)
    requires m > 0 && k > 0
    ensures m * k > 0 && (x % (m * k)) % m == x % m
  {
    var y := x % (m * k);
    var q := x / (m * k);
    assert x == q * (m * k) + y;
    assert x == (q * k + y / m) * m + y % m by {
      assert q * (m * k) == (q * k) * m;
      assert y == (y / m) * m + y % m;
      assert (q * k + y / m) * m == (q * k) * m + (y / m) * m;
    }
    DivModUnique(x, q * k + y / m, y % m, m);
  }

  /** Dividing a remainder is the remainder of the quotient. */
  lemma ModDiv(x: int, s: int, m: int)
    requires s > 0 && m > 0
    ensures s * m > 0 && (x % (s * m)) / s == (x / s) % m
  {
    var q, t, r := (x / s) / m, (x / s) % m, x % s;
    DivDivParts(s, m, q, t, r);
    assert x == q * (s * m) + (t * s + r);
    DivModUnique(x, q, t * s + r, s * m);
    DivModUnique(t * s + r, t, r, s);
  }

  // ---------------------------------------------------------------- congruence

  function Times(k: int, m: int): int {
    k * m
  }

  /** a and b differ by a multiple of m. */
  ghost predicate Cong(a: int, b: int, m: int) {
    exists k :: a == b + Times(k, m)
  }

  lemma CongIntro(a: int, b: int, k: int, m: int)
    requires a == b + k * m
    ensures Cong(a, b, m)
  {
    assert a == b + Times(k, m);
  }

  /** The number of multiples of m between two congruent numbers. */
  lemma CongElim(a: int, b: int, m: int) returns (k: int)
    requires Cong(a, b, m)
    ensures a == b + k * m
  {
    k :| a == b + Times(k, m);
  }

  lemma CongRefl(a: int, m: int)
    ensures Cong(a, a, m)
  {
    CongIntro(a, a, 0, m);
  }

  lemma CongSym(a: int, b: int, m: int)
    requires Cong(a, b, m)
    ensures Cong(b, a, m)
  {
    var k := CongElim(a, b, m);
    assert (-k) * m == -(k * m);
    CongIntro(b, a, -k, m);
  }

  lemma CongTrans(a: int, b: int, c: int, m: int)
    requires Cong(a, b, m) && Cong(b, c, m)
    ensures Cong(a, c, m)
  {
    var k := CongElim(a, b, m);
    var l := CongElim(b, c, m);
    assert (k + l) * m == k * m + l * m;
    CongIntro(a, c, k + l, m);
  }

  lemma CongAdd(a: int, a': int, b: int, b': int, m: int)
    requires Cong(a, a', m) && Cong(b, b', m)
    ensures Cong(a + b, a' + b', m)
  {
    var k := CongElim(a, a', m);
    var l := CongElim(b, b', m);
    assert (k + l) * m == k * m + l * m;
    CongIntro(a + b, a' + b', k + l, m);
  }

  lemma CongSub(a: int, a': int, b: int, b': int, m: int)
    requires Cong(a, a', m) && Cong(b, b', m)
    ensures Cong(a - b, a' - b', m)
  {
    var k := CongElim(a, a', m);
    var l := CongElim(b, b', m);
    assert (k - l) * m == k * m - l * m;
    CongIntro(a - b, a' - b', k - l, m);
  }

  lemma CongMul(a: int, a': int, b: int, b': int, m: int)
    requires Cong(a, a', m) && Cong(b, b', m)
    ensures Cong(a * b, a' * b', m)
  {
    var k := CongElim(a, a', m);
    var l := CongElim(b, b', m);
    calc {
      a * b;
      (a' + k * m) * b;
      a' * b + (k * m) * b;
      a' * (b' + l * m) + (k * m) * b;
      a' * b' + a' * (l * m) + (k * m) * b;
      a' * b' + (a' * l + k * b) * m;
    }
    CongIntro(a * b, a' * b', a' * l + k * b, m);
  }

  /** Congruent numbers have equal residues, and equal residues mean congruent. */
  lemma CongIffMod(a: int, b: int, m: int)
    requires m > 0
    ensures Cong(a, b, m) <==> a % m == b % m
  {
    if Cong(a, b, m) {
      var k := CongElim(a, b, m);
      assert a == (b / m + k) * m + b % m by {
        assert (b / m + k) * m == (b / m) * m + k * m;
      }
      DivModUnique(a, b / m + k, b % m, m);
    }
    if a % m == b % m {
      assert (a / m - b / m) * m == (a / m) * m - (b / m) * m;
      CongIntro(a, b, a / m - b / m, m);
    }
  }

  // ---------------------------------------------------------------- powers

  function Pow(b: int, e: nat): (r: int)
    ensures b > 0 ==> r > 0
    decreases e, b
  {
    if e == 0 then 1 else
      var r := Pow(b, e - 1);
      assert b > 0 ==> b * r > 0;
      b * r
  }

  lemma {:induction false} PowAdd(b: int, e: nat, f: nat)
    ensures Pow(b, e + f) == Pow(b, e) * Pow(b, f)
  {
    if e == 0 {
    } else {
      PowAdd(b, e - 1, f);
      assert e - 1 + f == e + f - 1;
    }
  }

  lemma {:induction false} PowMul(b: int, e: nat, f: nat)
    ensures e * f >= 0 && Pow(Pow(b, e), f) == Pow(b, e * f)
  {
    if f == 0 {
      assert e * f == 0;
    } else {
      PowMul(b, e, f - 1);
      assert e * f == e + e * (f - 1);
      PowAdd(b, e, e * (f - 1));
    }
  }

  lemma {:induction false} CongPow(a: int, b: int, e: nat, m: int)
    requires Cong(a, b, m)
    ensures Cong(Pow(a, e), Pow(b, e), m)
  {
    if e == 0 {
      CongRefl(1, m);
    } else {
      CongPow(a, b, e - 1, m);
      CongMul(a, b, Pow(a, e - 1), Pow(b, e - 1), m);
    }
  }
}

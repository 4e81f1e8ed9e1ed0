/** Exponentiation by fixed addition chains (crates/webgate-core/src/ed25519.rs:465-519). */
module FieldPower {
  import opened Words
  import opened Arith
  import opened FieldElements

  /** r stands for x to the power e, and may be multiplied. */
  ghost predicate IsPower(r: FieldElement, x: int, e: nat) {
    r.Below(0x40_0000_0000_0000) && Cong(r.Value(), Pow(x, e), P)
  }

  lemma MulPower(r: FieldElement, s: FieldElement, x: int, e: nat, f: nat)
    requires IsPower(r, x, e) && IsPower(s, x, f)
    ensures IsPower(r.Mul(s), x, e + f)
  {
    hide Cong, FieldElement.Mul, FieldElement.Value, Pow;
    MulExact(r, s);
    CongMul(r.Value(), Pow(x, e), s.Value(), Pow(x, f), P);
    PowAdd(x, e, f);
    CongTrans(r.Mul(s).Value(), r.Value() * s.Value(), Pow(x, e + f), P);
  }

  lemma SquarePower(r: FieldElement, x: int, e: nat, g: nat)
    requires IsPower(r, x, e) && g == e + e
    ensures IsPower(r.Square(), x, g)
  {
    hide Cong, FieldElement.Mul, FieldElement.Value, Pow;
    MulPower(r, r, x, e, e);
  }

  /** t squared n times. */
  function SquareTimes(t: FieldElement, n: nat): (r: FieldElement)
    requires t.Below(0x40_0000_0000_0000)
    ensures r.Below(0x40_0000_0000_0000)
    decreases n
  {
    if n == 0 then t else
      MulExact(t, t);
      SquareTimes(t.Square(), n - 1)
  }

  /** Squaring n times multiplies the exponent by w = 2^n. */
  lemma {:induction false} SquareTimesPower(t: FieldElement, x: int, e: nat, n: nat, w: nat)
    requires IsPower(t, x, e) && w == Pow(2, n)
    ensures e * w >= 0 && IsPower(SquareTimes(t, n), x, e * w)
    decreases n
  {
    hide Cong;
    if n > 0 {
      var half := Pow(2, n - 1);
      Doubling(e, half);
      MulPower(t, t, x, e, e);
      SquareTimesPower(t.Square(), x, e + e, n - 1, half);
    } else {
      assert e * w == e;
    }
  }

  lemma Doubling(e: nat, half: nat)
    ensures (e + e) * half == e * (2 * half) >= 0
  {
    MulNonneg(e, 2 * half);
  }

  /** The chain of pow22523, step for step. */
  function Pow22523(a: FieldElement): (r: FieldElement)
    requires a.Below(0x40_0000_0000_0000)
    ensures r.Below(0x40_0000_0000_0000)
  {
    MulBounds();
    var x := a.Square();
    var t2 := x.Mul(a);
    var t4 := t2.Square().Square().Mul(t2);
    var t5 := t4.Square().Mul(a);
    var t10 := SquareTimes(t5, 5).Mul(t5);
    var t20 := SquareTimes(t10, 10).Mul(t10);
    var t40 := SquareTimes(t20, 20).Mul(t20);
    var t50 := SquareTimes(t40, 10).Mul(t10);
    var t100 := SquareTimes(t50, 50).Mul(t50);
    var t200 := SquareTimes(t100, 100).Mul(t100);
    var t250 := SquareTimes(t200, 50).Mul(t50);
    t250.Square().Square().Mul(a)
  }

  lemma MulBounds()
    ensures forall r: FieldElement, s: FieldElement {:trigger r.Mul(s)} |
      r.Below(0x40_0000_0000_0000) && s.Below(0x40_0000_0000_0000) :: r.Mul(s).Below(0x40_0000_0000_0000)
  {
    forall r: FieldElement, s: FieldElement {:trigger r.Mul(s)} |
      r.Below(0x40_0000_0000_0000) && s.Below(0x40_0000_0000_0000)
      ensures r.Mul(s).Below(0x40_0000_0000_0000)
    {
      MulExact(r, s);
    }
  }

  /** n squarings of r, then a product with s. */
  lemma ChainStep(r: FieldElement, s: FieldElement, x: int, e: nat, f: nat, n: nat, w: nat, g: nat)
    requires IsPower(r, x, e) && IsPower(s, x, f) && w == Pow(2, n) && g == e * w + f
    ensures IsPower(SquareTimes(r, n).Mul(s), x, g)
  {
    hide Cong, FieldElement.Mul, FieldElement.Value, SquareTimes, Pow;
    SquareTimesPower(r, x, e, n, w);
    MulPower(SquareTimes(r, n), s, x, e * w, f);
  }

  /** pow22523 raises to 2^252 - 3. */
  lemma Pow22523Power(a: FieldElement, e: nat)
    requires a.Below(0x40_0000_0000_0000)
    requires e + 3 == 0x1000000000000000000000000000000000000000000000000000000000000000
    ensures IsPower(Pow22523(a), a.Value(), e)
  {
    MulBounds();
    TwoPowers();
    hide FieldElement.Mul, FieldElement.Value, Cong, Pow, SquareTimes;
    var v := a.Value();
    One(a);
    var x := a.Square();
    MulPower(a, a, v, 1, 1);
    var t2 := x.Mul(a);
    MulPower(x, a, v, 2, 1);
    MulPower(t2, t2, v, 3, 3);
    MulPower(t2.Square(), t2.Square(), v, 6, 6);
    var t4 := t2.Square().Square().Mul(t2);
    MulPower(t2.Square().Square(), t2, v, 12, 3);
    MulPower(t4, t4, v, 15, 15);
    var t5 := t4.Square().Mul(a);
    MulPower(t4.Square(), a, v, 30, 1);
    var e5: nat :| e5 == 31;
    var t10 := SquareTimes(t5, 5).Mul(t5);
    var e10 := e5 * 0x20 + e5;
    ChainStep(t5, t5, v, e5, e5, 5, 0x20, e10);
    var t20 := SquareTimes(t10, 10).Mul(t10);
    var e20 := e10 * 0x400 + e10;
    ChainStep(t10, t10, v, e10, e10, 10, 0x400, e20);
    var t40 := SquareTimes(t20, 20).Mul(t20);
    var e40 := e20 * 0x10_0000 + e20;
    ChainStep(t20, t20, v, e20, e20, 20, 0x10_0000, e40);
    var t50 := SquareTimes(t40, 10).Mul(t10);
    var e50 := e40 * 0x400 + e10;
    ChainStep(t40, t10, v, e40, e10, 10, 0x400, e50);
    var t100 := SquareTimes(t50, 50).Mul(t50);
    var e100 := e50 * 0x4_0000_0000_0000 + e50;
    ChainStep(t50, t50, v, e50, e50, 50, 0x4_0000_0000_0000, e100);
    var t200 := SquareTimes(t100, 100).Mul(t100);
    var e200 := e100 * 0x10_0000_0000_0000_0000_0000_0000 + e100;
    ChainStep(t100, t100, v, e100, e100, 100, 0x10_0000_0000_0000_0000_0000_0000, e200);
    var t250 := SquareTimes(t200, 50).Mul(t50);
    var e250 := e200 * 0x4_0000_0000_0000 + e50;
    ChainStep(t200, t50, v, e200, e50, 50, 0x4_0000_0000_0000, e250);
    MulPower(t250, t250, v, e250, e250);
    MulPower(t250.Square(), t250.Square(), v, e250 + e250, e250 + e250);
    MulPower(t250.Square().Square(), a, v, e250 + e250 + (e250 + e250), 1);
  }

  lemma One(a: FieldElement)
    requires a.Below(0x40_0000_0000_0000)
    ensures IsPower(a, a.Value(), 1)
  {
    assert Pow(a.Value(), 1) == a.Value();
    CongRefl(a.Value(), P);
  }

  lemma FifthPower()
    ensures Pow(2, 5) == 0x20
  {
    assert Pow(2, 2) == 2 * Pow(2, 1) == 4;
    assert Pow(2, 5) == 2 * Pow(2, 4) == 4 * Pow(2, 3);
  }

  lemma TwoPowers()
    ensures Pow(2, 5) == 0x20 && Pow(2, 10) == 0x400 && Pow(2, 20) == 0x10_0000
    ensures Pow(2, 50) == 0x4_0000_0000_0000
    ensures Pow(2, 100) == 0x10_0000_0000_0000_0000_0000_0000
  {
    FifthPower();
    hide Pow;
    PowAdd(2, 5, 5);
    PowAdd(2, 10, 10);
    PowAdd(2, 20, 20);
    PowAdd(2, 40, 10);
    PowAdd(2, 50, 50);
  }

  /** The loop `for _ in 0..n { t = t.square(); }` that pow22523 runs seven times. */
  method SquareLoop(start: FieldElement, n: nat) returns (t: FieldElement)
    requires start.Below(0x40_0000_0000_0000)
    ensures t == SquareTimes(start, n)
  {
    MulBounds();
    t := start;
    for i := 0 to n
      invariant t.Below(0x40_0000_0000_0000) && SquareTimes(t, n - i) == SquareTimes(start, n)
    {
      t := t.Square();
    }
  }

  /** pow22523 with its squaring loops computes the chain. */
  method ComputePow22523(a: FieldElement) returns (r: FieldElement)
    requires a.Below(0x40_0000_0000_0000)
    ensures r == Pow22523(a)
  {
    MulBounds();
    var x := a.Square();
    var t2 := x.Mul(a);
    var t := t2.Square();
    t := t.Square();
    var t4 := t.Mul(t2);
    t := t4.Square();
    var t5 := t.Mul(a);
    t := SquareLoop(t5, 5);
    var t10 := t.Mul(t5);
    t := SquareLoop(t10, 10);
    var t20 := t.Mul(t10);
    t := SquareLoop(t20, 20);
    var t40 := t.Mul(t20);
    t := SquareLoop(t40, 10);
    var t50 := t.Mul(t10);
    t := SquareLoop(t50, 50);
    var t100 := t.Mul(t50);
    t := SquareLoop(t100, 100);
    var t200 := t.Mul(t100);
    t := SquareLoop(t200, 50);
    var t250 := t.Mul(t50);
    t := t250.Square().Square();
    r := t.Mul(a);
  }

  function Invert(a: FieldElement): (r: FieldElement)
    requires a.Below(0x40_0000_0000_0000)
    ensures r.Below(0x40_0000_0000_0000)
  {
    MulBounds();
    var p22523 := Pow22523(a);
    p22523.Square().Square().Square().Mul(a.Square().Mul(a))
  }

  /** invert raises to p - 2. */
  lemma InvertPower(a: FieldElement, e: nat)
    requires a.Below(0x40_0000_0000_0000)
    requires e + 2 == P
    ensures IsPower(Invert(a), a.Value(), e)
  {
    var f: nat :| f + 3 == 0x1000000000000000000000000000000000000000000000000000000000000000;
    Pow22523Power(a, f);
    EighthPower(Pow22523(a), a.Value(), f);
    ThirdPower(a);
    MulPower(Pow22523(a).Square().Square().Square(), a.Square().Mul(a), a.Value(), 8 * f, 3);
  }

  lemma EighthPower(r: FieldElement, x: int, e: nat)
    requires IsPower(r, x, e)
    ensures r.Square().Below(0x40_0000_0000_0000) && r.Square().Square().Below(0x40_0000_0000_0000)
    ensures IsPower(r.Square().Square().Square(), x, 8 * e)
  {
    SquarePower(r, x, e, 2 * e);
    SquarePower(r.Square(), x, 2 * e, 4 * e);
    SquarePower(r.Square().Square(), x, 4 * e, 8 * e);
  }

  lemma ThirdPower(a: FieldElement)
    requires a.Below(0x40_0000_0000_0000)
    ensures a.Square().Below(0x40_0000_0000_0000)
    ensures IsPower(a.Square().Mul(a), a.Value(), 3)
  {
    One(a);
    MulPower(a, a, a.Value(), 1, 1);
    MulPower(a.Square(), a, a.Value(), 2, 1);
  }

  /** Where Fermat's little theorem holds of a, invert is its inverse modulo p. */
  lemma InvertInverse(a: FieldElement, e: nat)
    requires a.Below(0x40_0000_0000_0000)
    requires e + 1 == P && Cong(Pow(a.Value(), e), 1, P)
    ensures Cong(Invert(a).Value() * a.Value(), 1, P)
  {
    var v := a.Value();
    InvertPower(a, e - 1);
    CongRefl(v, P);
    CongMul(Invert(a).Value(), Pow(v, e - 1), v, v, P);
    assert Pow(v, e) == v * Pow(v, e - 1);
    CongTrans(Invert(a).Value() * v, Pow(v, e), 1, P);
  }
}

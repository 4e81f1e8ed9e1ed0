/** Points in extended coordinates over limbs (crates/webgate-core/src/ed25519.rs:536-613). */
module EdwardsPoints {
  import opened Words
  import opened Arith
  import opened FieldElements
  import opened EdwardsAlgebra

  const ZERO := FieldElement(0, 0, 0, 0, 0)
  const ONE := FieldElement(1, 0, 0, 0, 0)
  const TWO := FieldElement(2, 0, 0, 0, 0)

  /** -121665/121666 modulo p. */
  const D := FieldElement(0x0003_4dca_1359_78a3, 0x0001_a828_3b15_6ebd, 0x0005_e7a2_6001_c029,
                          0x0007_39c6_63a0_3cbb, 0x0005_2036_cee2_b6ff)

  const TWO_D := FieldElement(0x0006_9b94_26b2_f159, 0x0003_5050_762a_dd7a, 0x0003_cf44_c003_8052,
                              0x0006_738c_c740_7977, 0x0002_406d_9dc5_6dff)

  /** A square root of -1 modulo p. */
  const SQRT_M1 := FieldElement(0x0006_1b27_4a0e_a0b0, 0x0000_d5a5_fc8f_189d, 0x0007_ef5e_9cbd_0c60,
                                0x0007_8595_a680_4c9e, 0x0002_b832_4804_fc1d)

  /** d as an integer. */
  ghost function CurveD(): int {
    D.Value()
  }

  datatype EdwardsPoint = EdwardsPoint(x: FieldElement, y: FieldElement, z: FieldElement, t: FieldElement) {

    ghost function Ints(): Extended {
      Extended(x.Value(), y.Value(), z.Value(), t.Value())
    }

    /** Limbs small enough that no step of add or double underflows or overflows. */
    ghost predicate Bounded() {
      x.Tight() && y.Tight() && z.Tight() && t.Tight()
    }

    function Add(q: EdwardsPoint): EdwardsPoint
      requires Bounded() && q.Bounded()
    {
      StepBounds();
      var a := y.Sub(x).Mul(q.y.Sub(q.x));
      var b := y.Add(x).Mul(q.y.Add(q.x));
      var c := t.Mul(TWO_D).Mul(q.t);
      var d := z.Mul(TWO).Mul(q.z);
      var e := b.Sub(a);
      var f := d.Sub(c);
      var g := d.Add(c);
      var h := b.Add(a);
      EdwardsPoint(e.Mul(f), g.Mul(h), f.Mul(g), e.Mul(h))
    }

    function Double(): EdwardsPoint
      requires Bounded()
    {
      StepBounds();
      var a := x.Square();
      var b := y.Square();
      var c := z.Square().Mul(TWO);
      var d := a.Add(b);
      var e := x.Add(y).Square().Sub(d);
      var g := b.Sub(a);
      var f := c.Sub(g);
      var h := d;
      EdwardsPoint(e.Mul(f), g.Mul(h), f.Mul(g), e.Mul(h))
    }
  }

  const IDENTITY := EdwardsPoint(ZERO, ONE, ONE, ZERO)

  /** The bounds that chain the steps of the point formulas together. */
  lemma StepBounds()
    ensures forall r: FieldElement, s: FieldElement {:trigger r.Mul(s)} |
      r.Below(0x40_0000_0000_0000) && s.Below(0x40_0000_0000_0000) :: r.Mul(s).Tight()
    ensures forall r: FieldElement, s: FieldElement {:trigger r.Sub(s)} |
      r.Below(0x40_0000_0000_0000) && s.Subtrahend() :: r.Sub(s).Tight()
    ensures forall r: FieldElement {:trigger r.Tight()} | r.Tight() :: r.Below(0x40_0000_0000_0000) && r.Subtrahend()
    ensures forall r: FieldElement, s: FieldElement {:trigger r.Add(s)} |
      r.Tight() && s.Tight() :: r.Add(s).Below(0x40_0000_0000_0000) && r.Add(s).Subtrahend()
  {
    forall r: FieldElement, s: FieldElement {:trigger r.Mul(s)} |
      r.Below(0x40_0000_0000_0000) && s.Below(0x40_0000_0000_0000)
      ensures r.Mul(s).Tight()
    {
      MulExact(r, s);
    }
    forall r: FieldElement, s: FieldElement {:trigger r.Sub(s)} | r.Below(0x40_0000_0000_0000) && s.Subtrahend()
      ensures r.Sub(s).Tight()
    {
      SubExact(r, s);
    }
  }

  // ---------------------------------------------------------------- exactness modulo p

  lemma MulRep(a: FieldElement, b: FieldElement, x: int, y: int)
    requires a.Below(0x40_0000_0000_0000) && b.Below(0x40_0000_0000_0000)
    requires Cong(a.Value(), x, P) && Cong(b.Value(), y, P)
    ensures Cong(a.Mul(b).Value(), x * y, P)
  {
    hide *;
    MulExact(a, b);
    CongMul(a.Value(), x, b.Value(), y, P);
    CongTrans(a.Mul(b).Value(), a.Value() * b.Value(), x * y, P);
  }

  lemma SubRep(a: FieldElement, b: FieldElement, x: int, y: int)
    requires a.Below(0x40_0000_0000_0000) && b.Subtrahend()
    requires Cong(a.Value(), x, P) && Cong(b.Value(), y, P)
    ensures Cong(a.Sub(b).Value(), x - y, P)
  {
    hide *;
    SubExact(a, b);
    CongSub(a.Value(), x, b.Value(), y, P);
    CongTrans(a.Sub(b).Value(), a.Value() - b.Value(), x - y, P);
  }

  lemma AddRep(a: FieldElement, b: FieldElement, x: int, y: int)
    requires a.Below(0x40_0000_0000_0000) && b.Below(0x40_0000_0000_0000)
    requires Cong(a.Value(), x, P) && Cong(b.Value(), y, P)
    ensures Cong(a.Add(b).Value(), x + y, P)
  {
    hide Cong, FieldElement.Value, FieldElement.Add;
    AddExact(a, b);
    CongAdd(a.Value(), x, b.Value(), y, P);
  }

  lemma Small(n: u64)
    ensures FieldElement(n, 0, 0, 0, 0).Value() == n as int
  {
  }

  lemma SmallConstants()
    ensures ZERO.Tight() && ONE.Tight() && TWO.Tight()
    ensures ZERO.Value() == 0 && ONE.Value() == 1 && TWO.Value() == 2
  {
    hide FieldElement.Value;
    Small(0);
    Small(1);
    Small(2);
  }

  /** The stored constants are what their names say, modulo p. */
  lemma Constants()
    ensures TWO_D.Tight()
    ensures Cong(TWO_D.Value(), 2 * CurveD(), P)
    ensures Cong(CurveD() * 121666, -121665, P)
    ensures Cong(SQRT_M1.Value() * SQRT_M1.Value(), -1, P)
  {
    CongIntro(TWO_D.Value(), 2 * CurveD(), -1, P);
    CongIntro(CurveD() * 121666, -121665, 77955, P);
    CongIntro(SQRT_M1.Value() * SQRT_M1.Value(), -1,
      6690407189080634018507799843845558368979872843924222843531373839242004886245, P);
  }

  /** The last four products of both formulas. */
  lemma Products(e: FieldElement, f: FieldElement, g: FieldElement, h: FieldElement, i: int, j: int, k: int, l: int)
    requires e.Below(0x40_0000_0000_0000) && f.Below(0x40_0000_0000_0000)
    requires g.Below(0x40_0000_0000_0000) && h.Below(0x40_0000_0000_0000)
    requires Cong(e.Value(), i, P) && Cong(f.Value(), j, P) && Cong(g.Value(), k, P) && Cong(h.Value(), l, P)
    ensures EdwardsPoint(e.Mul(f), g.Mul(h), f.Mul(g), e.Mul(h)).Ints()
            .CongruentTo(Extended(i * j, k * l, j * k, i * l), P)
  {
    hide Cong;
    MulRep(e, f, i, j);
    MulRep(g, h, k, l);
    MulRep(f, g, j, k);
    MulRep(e, h, i, l);
  }

  lemma DiffProduct(a: FieldElement, b: FieldElement, c: FieldElement, d: FieldElement)
    requires a.Tight() && b.Tight() && c.Tight() && d.Tight()
    ensures a.Sub(b).Below(0x40_0000_0000_0000) && c.Sub(d).Below(0x40_0000_0000_0000)
    ensures a.Sub(b).Mul(c.Sub(d)).Tight()
    ensures Cong(a.Sub(b).Mul(c.Sub(d)).Value(), (a.Value() - b.Value()) * (c.Value() - d.Value()), P)
  {
    hide Cong, FieldElement.Value, FieldElement.Sub, FieldElement.Mul;
    StepBounds();
    SubExact(a, b);
    SubExact(c, d);
    MulRep(a.Sub(b), c.Sub(d), a.Value() - b.Value(), c.Value() - d.Value());
  }

  lemma SumProduct(a: FieldElement, b: FieldElement, c: FieldElement, d: FieldElement)
    requires a.Tight() && b.Tight() && c.Tight() && d.Tight()
    ensures a.Add(b).Below(0x40_0000_0000_0000) && c.Add(d).Below(0x40_0000_0000_0000)
    ensures a.Add(b).Mul(c.Add(d)).Tight()
    ensures Cong(a.Add(b).Mul(c.Add(d)).Value(), (a.Value() + b.Value()) * (c.Value() + d.Value()), P)
  {
    hide Cong, FieldElement.Value, FieldElement.Add, FieldElement.Mul;
    StepBounds();
    AddExact(a, b);
    AddExact(c, d);
    CongRefl(a.Value() + b.Value(), P);
    CongRefl(c.Value() + d.Value(), P);
    MulRep(a.Add(b), c.Add(d), a.Value() + b.Value(), c.Value() + d.Value());
  }

  lemma ScaledProduct(a: FieldElement, s: FieldElement, b: FieldElement, k: int)
    requires a.Tight() && s.Tight() && b.Tight() && Cong(s.Value(), k, P)
    ensures a.Mul(s).Tight() && a.Mul(s).Mul(b).Tight()
    ensures Cong(a.Mul(s).Mul(b).Value(), k * a.Value() * b.Value(), P)
  {
    hide Cong, FieldElement.Value, FieldElement.Mul;
    StepBounds();
    CongRefl(a.Value(), P);
    CongRefl(b.Value(), P);
    MulRep(a, s, a.Value(), k);
    MulRep(a.Mul(s), b, a.Value() * k, b.Value());
    assert a.Value() * k == k * a.Value();
  }

  /** The last step of both formulas: sums and differences of tight elements, then four products. */
  lemma Combine(a: FieldElement, b: FieldElement, c: FieldElement, d: FieldElement, i: int, j: int, k: int, l: int)
    requires a.Tight() && b.Tight() && c.Tight() && d.Tight()
    requires Cong(a.Value(), i, P) && Cong(b.Value(), j, P) && Cong(c.Value(), k, P) && Cong(d.Value(), l, P)
    ensures b.Sub(a).Tight() && d.Sub(c).Tight()
    ensures d.Add(c).Below(0x40_0000_0000_0000) && b.Add(a).Below(0x40_0000_0000_0000)
    ensures var e, f, g, h := b.Sub(a), d.Sub(c), d.Add(c), b.Add(a);
      EdwardsPoint(e.Mul(f), g.Mul(h), f.Mul(g), e.Mul(h)).Ints().CongruentTo(
        Extended((j - i) * (l - k), (l + k) * (j + i), (l - k) * (l + k), (j - i) * (j + i)), P)
  {
    hide Cong, FieldElement.Value, FieldElement.Mul, FieldElement.Add, FieldElement.Sub;
    StepBounds();
    SubRep(b, a, j, i);
    SubRep(d, c, l, k);
    AddRep(d, c, l, k);
    AddRep(b, a, j, i);
    Products(b.Sub(a), d.Sub(c), d.Add(c), b.Add(a), j - i, l - k, l + k, j + i);
  }

  /** Point addition on limbs computes the unified sum formula modulo p, and keeps the bounds. */
  lemma AddRefines(p: EdwardsPoint, q: EdwardsPoint)
    requires p.Bounded() && q.Bounded()
    ensures p.Add(q).Bounded()
    ensures p.Add(q).Ints().CongruentTo(Sum(p.Ints(), q.Ints(), CurveD()), P)
  {
    hide Cong, FieldElement.Value, FieldElement.Mul, FieldElement.Add, FieldElement.Sub;
    StepBounds();
    SmallConstants();
    Constants();
    var u, v := p.Ints(), q.Ints();
    DiffProduct(p.y, p.x, q.y, q.x);
    SumProduct(p.y, p.x, q.y, q.x);
    ScaledProduct(p.t, TWO_D, q.t, 2 * CurveD());
    CongRefl(2, P);
    ScaledProduct(p.z, TWO, q.z, 2);
    var a, b := p.y.Sub(p.x).Mul(q.y.Sub(q.x)), p.y.Add(p.x).Mul(q.y.Add(q.x));
    var c, d := p.t.Mul(TWO_D).Mul(q.t), p.z.Mul(TWO).Mul(q.z);
    Combine(a, b, c, d, (u.y - u.x) * (v.y - v.x), (u.y + u.x) * (v.y + v.x), (2 * CurveD()) * u.t * v.t,
        2 * u.z * v.z);
  }

  /** Point doubling on limbs computes the doubling formula modulo p, and keeps the bounds. */
  lemma DoubleRefines(p: EdwardsPoint)
    requires p.Bounded()
    ensures p.Double().Bounded()
    ensures p.Double().Ints().CongruentTo(Twice(p.Ints()), P)
  {
    hide Cong, FieldElement.Value, FieldElement.Mul, FieldElement.Add, FieldElement.Sub;
    StepBounds();
    SmallConstants();
    Constants();
    var u := p.Ints();
    Squares(p);
    var a, b, c := p.x.Square(), p.y.Square(), p.z.Square().Mul(TWO);
    var xx, yy, zz := u.x * u.x, u.y * u.y, 2 * (u.z * u.z);
    var d := a.Add(b);
    AddRep(a, b, xx, yy);
    var e := p.x.Add(p.y).Square().Sub(d);
    SubRep(p.x.Add(p.y).Square(), d, (u.x + u.y) * (u.x + u.y), xx + yy);
    var g := b.Sub(a);
    SubRep(b, a, yy, xx);
    var f := c.Sub(g);
    SubRep(c, g, zz, yy - xx);
    Products(e, f, g, d, (u.x + u.y) * (u.x + u.y) - (xx + yy), zz - (yy - xx), yy - xx, xx + yy);
  }

  lemma Squares(p: EdwardsPoint)
    requires p.Bounded()
    ensures p.x.Square().Tight() && p.y.Square().Tight() && p.z.Square().Tight()
    ensures p.x.Add(p.y).Below(0x40_0000_0000_0000)
    ensures p.z.Square().Mul(TWO).Tight() && p.x.Add(p.y).Square().Tight()
    ensures Cong(p.x.Square().Value(), p.x.Value() * p.x.Value(), P)
    ensures Cong(p.y.Square().Value(), p.y.Value() * p.y.Value(), P)
    ensures Cong(p.z.Square().Mul(TWO).Value(), 2 * (p.z.Value() * p.z.Value()), P)
    ensures Cong(p.x.Add(p.y).Square().Value(), (p.x.Value() + p.y.Value()) * (p.x.Value() + p.y.Value()), P)
  {
    hide Cong, FieldElement.Value, FieldElement.Mul, FieldElement.Add;
    StepBounds();
    SmallConstants();
    Constants();
    MulExact(p.x, p.x);
    MulExact(p.y, p.y);
    CongRefl(2, P);
    CongRefl(p.z.Value(), P);
    ScaledProduct(p.z, p.z, TWO, p.z.Value());
    SumProduct(p.x, p.y, p.x, p.y);
    assert p.z.Value() * p.z.Value() * 2 == 2 * (p.z.Value() * p.z.Value());
  }
}

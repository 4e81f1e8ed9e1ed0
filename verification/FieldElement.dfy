/**
 Arithmetic in the field of 2^255 - 19 elements on five 51-bit limbs kept in
 64-bit words, with lazily propagated carries (crates/webgate-core/src/ed25519.rs).

 A right shift by 51 is written as a division by 2^51 and the mask 2^51 - 1 as a
 remainder. Every addition, subtraction, product and narrowing below is on u64 or
 u128, so verifying these bodies shows that none of them overflows or truncates.
 */
module FieldElements {
  import opened Words
  import opened Arith

  const P: int := 0x7fffffffffffffffffffffffffffffffffffffffffffffffffffffffffffffed

  const LIMB: u64 := 0x8_0000_0000_0000

  /** The square of the largest 54-bit limb. */
  const SQUARE54: u128 := 0xfff_ffff_ffff_ff80_0000_0000_0001

  // The limbs of 4p.
  const P4_0: u64 := 0x7_ffff_ffff_ffed * 4
  const P4_1: u64 := 0x7_ffff_ffff_ffff * 4

  const WIDE_LIMB: u128 := 0x8_0000_0000_0000

  /** A double-width product of two limbs. */
  function M(x: u64, y: u64): (r: u128)
    requires x < 0x40_0000_0000_0000 && y < 0x40_0000_0000_0000
    ensures r as int == x as int * y as int
    ensures r <= SQUARE54
  {
    ProductBound(x as int, y as int, 0x3f_ffff_ffff_ffff);
    x as u128 * y as u128
  }

  function M19(x: u64, y: u64): (r: u128)
    requires x < 0x40_0000_0000_0000 && y < 0x40_0000_0000_0000
    ensures r as int == 19 * (x as int * y as int)
    ensures r <= 19 * SQUARE54
  {
    ProductBound(x as int, y as int, 0x3f_ffff_ffff_ffff);
    x as u128 * y as u128 * 19
  }

  lemma ProductBound(x: int, y: int, n: int)
    requires 0 <= x <= n && 0 <= y <= n
    ensures 0 <= x * y <= n * n
  {
  }

  /** The weighted sum of five columns. */
  ghost function Weighted(r0: int, r1: int, r2: int, r3: int, r4: int): int {
    r0 + r1 * 0x8_0000_0000_0000
    + r2 * 0x40_0000_0000_0000_0000_0000_0000
    + r3 * 0x200_0000_0000_0000_0000_0000_0000_0000_0000_0000
    + r4 * 0x1000_0000_0000_0000_0000_0000_0000_0000_0000_0000_0000_0000_0000
  }

  /** Narrow to 64 bits, then mask to 51. */
  function Low51(r: u128): (o: u64)
    ensures o < LIMB && o as int == r as int % 0x8_0000_0000_0000
  {
    (r % 0x1_0000_0000_0000_0000) as u64 % LIMB
  }

  datatype FieldElement = FieldElement(l0: u64, l1: u64, l2: u64, l3: u64, l4: u64) {

    /** The integer the limbs stand for. */
    ghost function Value(): nat {
      Weighted(l0 as int, l1 as int, l2 as int, l3 as int, l4 as int)
    }

    /** Every limb is below bound. */
    ghost predicate Below(bound: int) {
      l0 as int < bound && l1 as int < bound && l2 as int < bound && l3 as int < bound && l4 as int < bound
    }

    /** What a carry pass leaves: limb 0 may exceed 51 bits by one folded carry. */
    ghost predicate Reduced() {
      && l0 as int < 0x8_0000_0000_0013
      && l1 < LIMB && l2 < LIMB && l3 < LIMB && l4 < LIMB
    }

    /** What point formulas work with: as Reduced, with room for the folded carry of Sub. */
    ghost predicate Tight() {
      && l0 as int < 0x8_0000_0000_0400
      && l1 < LIMB && l2 < LIMB && l3 < LIMB && l4 < LIMB
    }

    /** Small enough to be subtracted without underflow: no limb exceeds that of 4p. */
    ghost predicate Subtrahend() {
      l0 <= P4_0 && l1 <= P4_1 && l2 <= P4_1 && l3 <= P4_1 && l4 <= P4_1
    }

    /** One sequential carry pass. The carry out of the top limb re-enters times 19. */
    function Carry(): FieldElement
      requires l1 <= 0xffff_ffff_ffff_e000 && l2 <= 0xffff_ffff_ffff_e000
      requires l3 <= 0xffff_ffff_ffff_e000 && l4 <= 0xffff_ffff_ffff_e000
    {
      var c0 := l0 / LIMB;
      var m0 := l0 % LIMB;
      var n1 := l1 + c0;
      var c1 := n1 / LIMB;
      var m1 := n1 % LIMB;
      var n2 := l2 + c1;
      var c2 := n2 / LIMB;
      var m2 := n2 % LIMB;
      var n3 := l3 + c2;
      var c3 := n3 / LIMB;
      var m3 := n3 % LIMB;
      var n4 := l4 + c3;
      var c4 := n4 / LIMB;
      var m4 := n4 % LIMB;
      FieldElement(m0 + c4 * 19, m1, m2, m3, m4)
    }

    /** Schoolbook columns; terms of weight 2^255 and above come back times 19. */
    function Columns(b: FieldElement): (r: (u128, u128, u128, u128, u128))
      requires Below(0x40_0000_0000_0000) && b.Below(0x40_0000_0000_0000)
      ensures r.0 <= 77 * SQUARE54 && r.1 <= 59 * SQUARE54 && r.2 <= 41 * SQUARE54
      ensures r.3 <= 23 * SQUARE54 && r.4 <= 5 * SQUARE54
    {
      (M(l0, b.l0) + M19(l1, b.l4) + M19(l2, b.l3) + M19(l3, b.l2) + M19(l4, b.l1),
       M(l0, b.l1) + M(l1, b.l0) + M19(l2, b.l4) + M19(l3, b.l3) + M19(l4, b.l2),
       M(l0, b.l2) + M(l1, b.l1) + M(l2, b.l0) + M19(l3, b.l4) + M19(l4, b.l3),
       M(l0, b.l3) + M(l1, b.l2) + M(l2, b.l1) + M(l3, b.l0) + M19(l4, b.l4),
       M(l0, b.l4) + M(l1, b.l3) + M(l2, b.l2) + M(l3, b.l1) + M(l4, b.l0))
    }

    /** Limb-wise sum, carries left pending. */
    function Add(b: FieldElement): FieldElement
      requires Below(0x8000_0000_0000_0000) && b.Below(0x8000_0000_0000_0000)
    {
      FieldElement(l0 + b.l0, l1 + b.l1, l2 + b.l2, l3 + b.l3, l4 + b.l4)
    }

    /** Difference plus 4p, so that no limb underflows. */
    function Spread(b: FieldElement): FieldElement
      requires Below(0x40_0000_0000_0000) && b.Subtrahend()
    {
      FieldElement(l0 + P4_0 - b.l0, l1 + P4_1 - b.l1, l2 + P4_1 - b.l2, l3 + P4_1 - b.l3, l4 + P4_1 - b.l4)
    }

    function Sub(b: FieldElement): FieldElement
      requires Below(0x40_0000_0000_0000) && b.Subtrahend()
    {
      Spread(b).Carry()
    }

    function Mul(b: FieldElement): FieldElement
      requires Below(0x40_0000_0000_0000) && b.Below(0x40_0000_0000_0000)
    {
      var (r0, r1, r2, r3, r4) := Columns(b);
      ReduceColumns(r0, r1, r2, r3, r4).Carry()
    }

    function Square(): FieldElement
      requires Below(0x40_0000_0000_0000)
    {
      Mul(this)
    }
  }

  /** Bring five product columns down to limbs; only limb 0 can exceed 51 bits. */
  function ReduceColumns(r0: u128, r1: u128, r2: u128, r3: u128, r4: u128): (f: FieldElement)
    requires r0 <= 77 * SQUARE54 && r1 <= 59 * SQUARE54 && r2 <= 41 * SQUARE54
    requires r3 <= 23 * SQUARE54 && r4 <= 5 * SQUARE54
    ensures f.l1 < LIMB && f.l2 < LIMB && f.l3 < LIMB && f.l4 < LIMB
    ensures Cong(f.Value(), Weighted(r0 as int, r1 as int, r2 as int, r3 as int, r4 as int), P)
  {
    var c0 := (r0 / WIDE_LIMB) as u64;
    var o0 := Low51(r0);
    var s1 := r1 + c0 as u128;
    var c1 := (s1 / WIDE_LIMB) as u64;
    var o1 := Low51(s1);
    var s2 := r2 + c1 as u128;
    var c2 := (s2 / WIDE_LIMB) as u64;
    var o2 := Low51(s2);
    var s3 := r3 + c2 as u128;
    var c3 := (s3 / WIDE_LIMB) as u64;
    var o3 := Low51(s3);
    var s4 := r4 + c3 as u128;
    var c4 := (s4 / WIDE_LIMB) as u64;
    var o4 := Low51(s4);
    Propagate(r0 as int, r1 as int, r2 as int, r3 as int, r4 as int,
              c0 as int, c1 as int, c2 as int, c3 as int, c4 as int,
              o0 as int, o1 as int, o2 as int, o3 as int, o4 as int);
    FieldElement(o0 + c4 * 19, o1, o2, o3, o4)
  }

  const TWO255: int := 0x8000000000000000000000000000000000000000000000000000000000000000

  /** Propagating carries through five columns keeps their weighted sum, less the top carry. */
  lemma Propagate(v0: int, v1: int, v2: int, v3: int, v4: int,
                  c0: int, c1: int, c2: int, c3: int, c4: int,
                  m0: int, m1: int, m2: int, m3: int, m4: int)
    requires v0 == c0 * 0x8_0000_0000_0000 + m0 && v1 + c0 == c1 * 0x8_0000_0000_0000 + m1
    requires v2 + c1 == c2 * 0x8_0000_0000_0000 + m2 && v3 + c2 == c3 * 0x8_0000_0000_0000 + m3
    requires v4 + c3 == c4 * 0x8_0000_0000_0000 + m4
    requires 0 <= m0 < 0x8_0000_0000_0000 && 0 <= m1 < 0x8_0000_0000_0000 && 0 <= m2 < 0x8_0000_0000_0000
    requires 0 <= m3 < 0x8_0000_0000_0000 && 0 <= m4 < 0x8_0000_0000_0000
    ensures c4 == Weighted(v0, v1, v2, v3, v4) / TWO255
    ensures Weighted(m0, m1, m2, m3, m4) == Weighted(v0, v1, v2, v3, v4) % TWO255
    ensures Cong(Weighted(m0 + 19 * c4, m1, m2, m3, m4), Weighted(v0, v1, v2, v3, v4), P)
  {
    DivModUnique(Weighted(v0, v1, v2, v3, v4), c4, Weighted(m0, m1, m2, m3, m4), TWO255);
    CongIntro(Weighted(m0 + 19 * c4, m1, m2, m3, m4), Weighted(v0, v1, v2, v3, v4), -c4, P);
  }

  /** The carry pass folds exactly the part above 2^255 back in, times 19. */
  lemma CarryFolds(a: FieldElement)
    requires a.l1 <= 0xffff_ffff_ffff_e000 && a.l2 <= 0xffff_ffff_ffff_e000
    requires a.l3 <= 0xffff_ffff_ffff_e000 && a.l4 <= 0xffff_ffff_ffff_e000
    ensures a.Carry().Value() == a.Value() % TWO255 + 19 * (a.Value() / TWO255)
    ensures a.Carry().l0 as int < 0x8_0000_0000_0000 + 19 * (a.Value() / TWO255)
    ensures a.Carry().l1 < LIMB && a.Carry().l2 < LIMB && a.Carry().l3 < LIMB && a.Carry().l4 < LIMB
    ensures Cong(a.Carry().Value(), a.Value(), P)
  {
    hide Cong, FieldElement.Carry;
    var c0, c1, c2, c3, c4, m0 := CarryParts(a);
    var r := a.Carry();
    Propagate(a.l0 as int, a.l1 as int, a.l2 as int, a.l3 as int, a.l4 as int, c0, c1, c2, c3, c4,
              m0, r.l1 as int, r.l2 as int, r.l3 as int, r.l4 as int);
  }

  /** The five carries, limb by limb. */
  lemma CarryParts(a: FieldElement) returns (c0: int, c1: int, c2: int, c3: int, c4: int, m0: int)
    requires a.l1 <= 0xffff_ffff_ffff_e000 && a.l2 <= 0xffff_ffff_ffff_e000
    requires a.l3 <= 0xffff_ffff_ffff_e000 && a.l4 <= 0xffff_ffff_ffff_e000
    ensures var r := a.Carry();
      && r.l0 as int == m0 + 19 * c4 && 0 <= m0 < 0x8_0000_0000_0000
      && r.l1 < LIMB && r.l2 < LIMB && r.l3 < LIMB && r.l4 < LIMB
      && a.l0 as int == c0 * 0x8_0000_0000_0000 + m0
      && a.l1 as int + c0 == c1 * 0x8_0000_0000_0000 + r.l1 as int
      && a.l2 as int + c1 == c2 * 0x8_0000_0000_0000 + r.l2 as int
      && a.l3 as int + c2 == c3 * 0x8_0000_0000_0000 + r.l3 as int
      && a.l4 as int + c3 == c4 * 0x8_0000_0000_0000 + r.l4 as int
  {
    var d0 := a.l0 / LIMB;
    var d1 := (a.l1 + d0) / LIMB;
    var d2 := (a.l2 + d1) / LIMB;
    var d3 := (a.l3 + d2) / LIMB;
    SplitLimb(a.l0);
    SplitLimb(a.l1 + d0);
    SplitLimb(a.l2 + d1);
    SplitLimb(a.l3 + d2);
    SplitLimb(a.l4 + d3);
    c0, c1, c2, c3 := d0 as int, d1 as int, d2 as int, d3 as int;
    c4, m0 := ((a.l4 + d3) / LIMB) as int, (a.l0 % LIMB) as int;
  }

  lemma SplitLimb(n: u64)
    ensures n as int == (n / LIMB) as int * 0x8_0000_0000_0000 + (n % LIMB) as int
    ensures n % LIMB < LIMB && n / LIMB < 0x2000
  {
  }

  /** The five columns add up to the product, less a multiple of p for the wrapped terms. */
  lemma Convolution(a0: int, a1: int, a2: int, a3: int, a4: int, b0: int, b1: int, b2: int, b3: int, b4: int)
    ensures Weighted(a0, a1, a2, a3, a4) * Weighted(b0, b1, b2, b3, b4) == Weighted(
      a0*b0 + 19*(a1*b4) + 19*(a2*b3) + 19*(a3*b2) + 19*(a4*b1),
      a0*b1 + a1*b0 + 19*(a2*b4) + 19*(a3*b3) + 19*(a4*b2),
      a0*b2 + a1*b1 + a2*b0 + 19*(a3*b4) + 19*(a4*b3),
      a0*b3 + a1*b2 + a2*b1 + a3*b0 + 19*(a4*b4),
      a0*b4 + a1*b3 + a2*b2 + a3*b1 + a4*b0)
      + Weighted(a1*b4 + a2*b3 + a3*b2 + a4*b1, a2*b4 + a3*b3 + a4*b2, a3*b4 + a4*b3, a4*b4, 0) * P
  {
    var w := Weighted(b0, b1, b2, b3, b4);
    Row(w, a0, a1, a2, a3, a4);
    Row(a0, b0, b1, b2, b3, b4);
    Row(a1, b0, b1, b2, b3, b4);
    Row(a2, b0, b1, b2, b3, b4);
    Row(a3, b0, b1, b2, b3, b4);
    Row(a4, b0, b1, b2, b3, b4);
  }

  lemma Row(x: int, b0: int, b1: int, b2: int, b3: int, b4: int)
    ensures x * Weighted(b0, b1, b2, b3, b4) == Weighted(x*b0, x*b1, x*b2, x*b3, x*b4)
  {
  }

  lemma ColumnsExact(a: FieldElement, b: FieldElement)
    requires a.Below(0x40_0000_0000_0000) && b.Below(0x40_0000_0000_0000)
    ensures var (r0, r1, r2, r3, r4) := a.Columns(b);
      Cong(Weighted(r0 as int, r1 as int, r2 as int, r3 as int, r4 as int), a.Value() * b.Value(), P)
  {
    var a0, a1, a2, a3, a4 := a.l0 as int, a.l1 as int, a.l2 as int, a.l3 as int, a.l4 as int;
    var b0, b1, b2, b3, b4 := b.l0 as int, b.l1 as int, b.l2 as int, b.l3 as int, b.l4 as int;
    Convolution(a0, a1, a2, a3, a4, b0, b1, b2, b3, b4);
    var (r0, r1, r2, r3, r4) := a.Columns(b);
    CongIntro(Weighted(r0 as int, r1 as int, r2 as int, r3 as int, r4 as int), a.Value() * b.Value(),
              -Weighted(a1*b4 + a2*b3 + a3*b2 + a4*b1, a2*b4 + a3*b3 + a4*b2, a3*b4 + a4*b3, a4*b4, 0), P);
  }

  /** A carry pass over limbs that are already 51 bits, but for limb 0, folds at most one carry. */
  lemma CarryOnce(f: FieldElement)
    requires f.l1 < LIMB && f.l2 < LIMB && f.l3 < LIMB && f.l4 < LIMB
    ensures f.Carry().Reduced()
    ensures Cong(f.Carry().Value(), f.Value(), P)
  {
    CarryFolds(f);
    assert f.Value() < 2 * TWO255;
  }

  /** Multiplication is exact modulo p, with limbs back below 2^51 (limb 0 below 2^51 + 19). */
  lemma MulExact(a: FieldElement, b: FieldElement)
    requires a.Below(0x40_0000_0000_0000) && b.Below(0x40_0000_0000_0000)
    ensures Cong(a.Mul(b).Value(), a.Value() * b.Value(), P)
    ensures a.Mul(b).Reduced()
  {
    var (r0, r1, r2, r3, r4) := a.Columns(b);
    var total := Weighted(r0 as int, r1 as int, r2 as int, r3 as int, r4 as int);
    ColumnsExact(a, b);
    var f := ReduceColumns(r0, r1, r2, r3, r4);
    CarryOnce(f);
    CongTrans(f.Carry().Value(), f.Value(), total, P);
    CongTrans(f.Carry().Value(), total, a.Value() * b.Value(), P);
  }

  /** Addition is exact on values. */
  lemma AddExact(a: FieldElement, b: FieldElement)
    requires a.Below(0x8000_0000_0000_0000) && b.Below(0x8000_0000_0000_0000)
    ensures a.Add(b).Value() == a.Value() + b.Value()
  {
  }

  lemma SpreadExact(a: FieldElement, b: FieldElement)
    requires a.Below(0x40_0000_0000_0000) && b.Subtrahend()
    ensures a.Spread(b).Value() < 50 * TWO255
    ensures Cong(a.Spread(b).Value(), a.Value() - b.Value(), P)
  {
    CongIntro(a.Spread(b).Value(), a.Value() - b.Value(), 4, P);
  }

  /** Subtraction is exact modulo p; limbs come back tight when the minuend was below 2^54. */
  lemma SubExact(a: FieldElement, b: FieldElement)
    requires a.Below(0x40_0000_0000_0000) && b.Subtrahend()
    ensures Cong(a.Sub(b).Value(), a.Value() - b.Value(), P)
    ensures a.Sub(b).Tight()
  {
    SpreadExact(a, b);
    CarryTight(a.Spread(b));
    CongTrans(a.Sub(b).Value(), a.Spread(b).Value(), a.Value() - b.Value(), P);
  }

  lemma CarryTight(d: FieldElement)
    requires d.Below(0x80_0000_0000_0000) && d.Value() < 50 * TWO255
    ensures d.Carry().Tight()
    ensures Cong(d.Carry().Value(), d.Value(), P)
  {
    CarryFolds(d);
    assert d.Value() / TWO255 <= 49;
  }
}

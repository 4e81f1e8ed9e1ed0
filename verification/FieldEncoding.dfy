/** The 32-byte little-endian encoding of field elements (section 5.1.2 of RFC 8032). */
module FieldEncoding {
  import opened Words
  import opened Arith
  import opened LittleEndian
  import opened FieldElements

  /** The byte list to_bytes writes from five limbs. */
  function Pack(f: FieldElement): (bytes: seq<byte>)
    ensures |bytes| == 32
  {
    var h0, h1, h2, h3, h4 := f.l0 as int, f.l1 as int, f.l2 as int, f.l3 as int, f.l4 as int;
      [h0 % 256, h0 / 0x100 % 256, h0 / 0x10000 % 256,
       h0 / 0x1000000 % 256, h0 / 0x100000000 % 256, h0 / 0x10000000000 % 256,
       Shared(h0 / 0x1000000000000, h1, 8), h1 / 0x20 % 256, h1 / 0x2000 % 256,
       h1 / 0x200000 % 256, h1 / 0x20000000 % 256, h1 / 0x2000000000 % 256,
       Shared(h1 / 0x200000000000, h2, 64), h2 / 0x4 % 256, h2 / 0x400 % 256,
       h2 / 0x40000 % 256, h2 / 0x4000000 % 256, h2 / 0x400000000 % 256,
       h2 / 0x40000000000 % 256, Shared(h2 / 0x4000000000000, h3, 2), h3 / 0x80 % 256,
       h3 / 0x8000 % 256, h3 / 0x800000 % 256, h3 / 0x80000000 % 256,
       h3 / 0x8000000000 % 256, Shared(h3 / 0x800000000000, h4, 16), h4 / 0x10 % 256,
       h4 / 0x1000 % 256, h4 / 0x100000 % 256, h4 / 0x10000000 % 256,
       h4 / 0x1000000000 % 256, h4 / 0x100000000000 % 256]
  }

  /** The byte `((low) | (h << k)) as u8`, with s = 2^k. */
  function Shared(low: nat, h: nat, s: nat): byte {
    MulNonneg(h, s);
    BitOr(low, h * s % 0x1_0000_0000_0000_0000) % 256
  }

  /** The byte at offset s of h and what lies above it. */
  lemma StepDigit(h: nat, s: int)
    requires s > 0
    ensures h / s == h / s % 256 + 256 * (h / (s * 256))
  {
    DivDiv(h, s, 256);
  }

  /** A byte that straddles two limbs holds the top bits of one and the low bits of the next. */
  lemma SharedByte(low: nat, h: nat, k: nat, s: nat, m: nat)
    requires low < s == Pow(2, k) && 0 < s * m == 256
    requires h < 0x8_0000_0000_0000
    ensures Shared(low, h, s) == low + s * (h % m)
  {
    assert 0 <= h * s < 0x1_0000_0000_0000_0000 by {
      MulMonotone(s, h, 0x8_0000_0000_0000);
      MulNonneg(s, m - 1);
      assert s * 0x8_0000_0000_0000 <= 256 * 0x8_0000_0000_0000;
    }
    DivModUnique(h * s, 0, h * s, 0x1_0000_0000_0000_0000);
    DivModUnique(h * s, h, 0, s);
    BitOrDisjoint(low, h * s, k);
    SharedLow(low, h, s, m);
  }

  lemma SharedLow(low: nat, h: nat, s: nat, m: nat)
    requires low < s && 0 < s * m == 256
    ensures h * s >= 0 && (low + h * s) % 256 == low + s * (h % m)
  {
    MulNonneg(h, s);
    var q, r := h / m, h % m;
    assert h == q * m + r;
    assert h * s == q * 256 + s * r by {
      assert (q * m + r) * s == q * (s * m) + s * r;
    }
    MulMonotone(s, r, m);
    DivModUnique(low + h * s, q, low + s * r, 256);
  }

  /** Five bytes and the rest of a limb, from a bit offset on. */
  lemma Limb(h: nat, s: int, s1: int, s2: int, s3: int, s4: int, s5: int)
    requires s > 0 && s1 == s * 256 && s2 == s1 * 256 && s3 == s2 * 256 && s4 == s3 * 256 && s5 == s4 * 256
    ensures h / s == h / s % 256 + h / s1 % 256 * 0x100 + h / s2 % 256 * 0x1_0000
      + h / s3 % 256 * 0x100_0000 + h / s4 % 256 * 0x1_0000_0000 + h / s5 * 0x100_0000_0000
  {
    StepDigit(h, s);
    StepDigit(h, s1);
    StepDigit(h, s2);
    StepDigit(h, s3);
    StepDigit(h, s4);
  }

  /** Six bytes and the rest. */
  lemma Limb6(h: nat, s: int, s1: int, s2: int, s3: int, s4: int, s5: int, s6: int)
    requires s > 0 && s1 == s * 256 && s2 == s1 * 256 && s3 == s2 * 256 && s4 == s3 * 256 && s5 == s4 * 256
        && s6 == s5 * 256
    ensures h / s == h / s % 256 + h / s1 % 256 * 0x100 + h / s2 % 256 * 0x1_0000
      + h / s3 % 256 * 0x100_0000 + h / s4 % 256 * 0x1_0000_0000 + h / s5 % 256 * 0x100_0000_0000
      + h / s6 * 0x1_0000_0000_0000
  {
    Limb(h, s, s1, s2, s3, s4, s5);
    StepDigit(h, s5);
  }

  ghost function FiveBytes(b: seq<int>, i: nat): int
    requires i + 5 <= |b|
  {
    b[i] + b[i + 1] * 0x100 + b[i + 2] * 0x1_0000 + b[i + 3] * 0x100_0000 + b[i + 4] * 0x1_0000_0000
  }

  ghost function Value64(b0: int, b1: int, b2: int, b3: int, b4: int, b5: int, b6: int, b7: int): int {
    b0 + b1 * 0x100 + b2 * 0x1_0000 + b3 * 0x100_0000 + b4 * 0x1_0000_0000
    + b5 * 0x100_0000_0000 + b6 * 0x1_0000_0000_0000 + b7 * 0x100_0000_0000_0000
  }

  lemma Value8(s: seq<int>)
    requires |s| == 8
    ensures ValueOf(256, s) == Value64(s[0], s[1], s[2], s[3], s[4], s[5], s[6], s[7])
  {
    assert ValueOf(256, s[8..]) == 0;
    assert s[7..][1..] == s[8..] && s[6..][1..] == s[7..] && s[5..][1..] == s[6..] && s[4..][1..] == s[5..];
    assert s[3..][1..] == s[4..] && s[2..][1..] == s[3..] && s[1..][1..] == s[2..];
    assert ValueOf(256, s[4..]) == s[4] + s[5] * 0x100 + s[6] * 0x1_0000 + s[7] * 0x100_0000 by {
      assert ValueOf(256, s[6..]) == s[6] + s[7] * 0x100;
    }
    assert ValueOf(256, s[2..]) == s[2] + s[3] * 0x100 + ValueOf(256, s[4..]) * 0x1_0000;
  }

  ghost function SixBytes(b: seq<int>, i: nat): int
    requires i + 6 <= |b|
  {
    FiveBytes(b, i) + b[i + 5] * 0x100_0000_0000
  }

  /** The first eight bytes and the rest. */
  lemma Take8(s: seq<int>)
    requires |s| >= 8
    ensures ValueOf(256, s) == Value64(s[0], s[1], s[2], s[3], s[4], s[5], s[6], s[7])
      + 0x1_0000_0000_0000_0000 * ValueOf(256, s[8..])
  {
    assert s == s[..8] + s[8..];
    ValueAppend(256, s[..8], s[8..]);
    Value8(s[..8]);
  }

  lemma Value32(s: seq<int>)
    requires |s| == 32
    ensures ValueOf(256, s) == Value64(s[0], s[1], s[2], s[3], s[4], s[5], s[6], s[7])
      + 0x1_0000_0000_0000_0000 * (Value64(s[8], s[9], s[10], s[11], s[12], s[13], s[14], s[15])
      + 0x1_0000_0000_0000_0000 * (Value64(s[16], s[17], s[18], s[19], s[20], s[21], s[22], s[23])
      + 0x1_0000_0000_0000_0000 * Value64(s[24], s[25], s[26], s[27], s[28], s[29], s[30], s[31])))
  {
    Take8(s);
    Take8(s[8..]);
    assert s[8..][8..] == s[16..];
    Take8(s[16..]);
    assert s[16..][8..] == s[24..];
    Take8(s[24..]);
  }

  /** The five limbs, split at the byte boundaries: b_k are the bytes wholly inside a limb. */
  lemma Assemble(b: seq<int>, h0: int, h1: int, h2: int, h3: int, h4: int,
                 t0: int, u1: int, t1: int, u2: int, t2: int, u3: int, t3: int, u4: int)
    requires |b| == 32
    requires h0 == SixBytes(b, 0) + t0 * 0x1_0000_0000_0000
    requires b[6] == t0 + 8 * u1
    requires h1 == u1 + 0x20 * (FiveBytes(b, 7) + t1 * 0x100_0000_0000)
    requires b[12] == t1 + 64 * u2
    requires h2 == u2 + 4 * (SixBytes(b, 13) + t2 * 0x1_0000_0000_0000)
    requires b[19] == t2 + 2 * u3
    requires h3 == u3 + 0x80 * (FiveBytes(b, 20) + t3 * 0x100_0000_0000)
    requires b[25] == t3 + 16 * u4
    requires h4 == u4 + 0x10 * (SixBytes(b, 26))
    ensures ValueOf(256, b) == Weighted(h0, h1, h2, h3, h4)
  {
    Value32(b);
  }

  lemma SmallPowers()
    ensures Pow(2, 1) == 2 && Pow(2, 3) == 8 && Pow(2, 4) == 16 && Pow(2, 6) == 64
  {
    assert Pow(2, 3) == 2 * Pow(2, 2) == 4 * Pow(2, 1);
    assert Pow(2, 6) == 2 * Pow(2, 5) == 4 * Pow(2, 4) == 8 * Pow(2, 3);
  }

  lemma PackShared(f: FieldElement)
    requires f.Below(0x8_0000_0000_0000)
    ensures Pack(f)[6] == f.l0 as int / 0x1_0000_0000_0000 + 8 * (f.l1 as int % 0x20)
    ensures Pack(f)[12] == f.l1 as int / 0x2000_0000_0000 + 64 * (f.l2 as int % 4)
    ensures Pack(f)[19] == f.l2 as int / 0x4_0000_0000_0000 + 2 * (f.l3 as int % 0x80)
    ensures Pack(f)[25] == f.l3 as int / 0x8000_0000_0000 + 16 * (f.l4 as int % 0x10)
  {
    assert Pow(2, 3) == 8 && Pow(2, 6) == 64 && Pow(2, 1) == 2 && Pow(2, 4) == 16 by { SmallPowers(); }
    hide Shared, Pow;
    SharedByte(f.l0 as int / 0x1_0000_0000_0000, f.l1 as int, 3, 8, 0x20);
    SharedByte(f.l1 as int / 0x2000_0000_0000, f.l2 as int, 6, 64, 4);
    SharedByte(f.l2 as int / 0x4_0000_0000_0000, f.l3 as int, 1, 2, 0x80);
    SharedByte(f.l3 as int / 0x8000_0000_0000, f.l4 as int, 4, 16, 0x10);
  }

  lemma PackLimb0(f: FieldElement)
    ensures f.l0 as int == SixBytes(Pack(f), 0)
      + f.l0 as int / 0x1_0000_0000_0000 * 0x1_0000_0000_0000
  {
    hide Shared;
    Limb6(f.l0 as int, 1, 0x100, 0x1_0000, 0x100_0000, 0x1_0000_0000, 0x100_0000_0000, 0x1_0000_0000_0000);
  }

  lemma PackLimb1(f: FieldElement)
    ensures f.l1 as int / 0x20 == FiveBytes(Pack(f), 7) + f.l1 as int / 0x2000_0000_0000 * 0x100_0000_0000
  {
    Limb(f.l1 as int, 0x20, 0x2000, 0x20_0000, 0x2000_0000, 0x20_0000_0000, 0x2000_0000_0000);
  }

  lemma PackLimb2(f: FieldElement)
    ensures f.l2 as int / 4 == SixBytes(Pack(f), 13)
      + f.l2 as int / 0x4_0000_0000_0000 * 0x1_0000_0000_0000
  {
    Limb6(f.l2 as int, 4, 0x400, 0x4_0000, 0x400_0000, 0x4_0000_0000, 0x400_0000_0000, 0x4_0000_0000_0000);
  }

  lemma PackLimb3(f: FieldElement)
    ensures f.l3 as int / 0x80 == FiveBytes(Pack(f), 20) + f.l3 as int / 0x8000_0000_0000 * 0x100_0000_0000
  {
    Limb(f.l3 as int, 0x80, 0x8000, 0x80_0000, 0x8000_0000, 0x80_0000_0000, 0x8000_0000_0000);
  }

  lemma PackLimb4(f: FieldElement)
    requires f.l4 < LIMB
    ensures f.l4 as int / 0x10 == SixBytes(Pack(f), 26)
  {
    var h := f.l4 as int;
    assert h / 0x1000_0000_0000 % 256 == h / 0x1000_0000_0000;
    Limb(h, 0x10, 0x1000, 0x10_0000, 0x1000_0000, 0x10_0000_0000, 0x1000_0000_0000);
  }

  /** Packing canonical limbs writes their value, 8 bits to the byte. */
  lemma PackValue(f: FieldElement)
    requires f.Below(0x8_0000_0000_0000)
    ensures ValueOf(256, Pack(f)) == f.Value()
  {
    var h0, h1, h2, h3, h4 := f.l0 as nat, f.l1 as nat, f.l2 as nat, f.l3 as nat, f.l4 as nat;
    PackShared(f);
    PackLimb0(f);
    PackLimb1(f);
    PackLimb2(f);
    PackLimb3(f);
    PackLimb4(f);
    Assemble(Pack(f), h0, h1, h2, h3, h4, h0 / 0x1_0000_0000_0000, h1 % 0x20, h1 / 0x2000_0000_0000, h2 % 4,
             h2 / 0x4_0000_0000_0000, h3 % 0x80, h3 / 0x8000_0000_0000, h4 % 0x10);
  }

  lemma FirstCarry(a: FieldElement)
    requires a.Below(0x8000_0000_0000_0000)
    ensures a.Carry().l0 as int < 0x8_0000_0004_0000
    ensures a.Carry().l1 < LIMB && a.Carry().l2 < LIMB && a.Carry().l3 < LIMB && a.Carry().l4 < LIMB
    ensures a.Carry().Value() < TWO255 + 0x4_0000
    ensures Cong(a.Carry().Value(), a.Value(), P)
  {
    assert a.Value() < 0x2000 * TWO255;
    CarryFolds(a);
  }

  lemma SecondCarry(b: FieldElement)
    requires b.l0 as int < 0x8_0000_0004_0000
    requires b.l1 < LIMB && b.l2 < LIMB && b.l3 < LIMB && b.l4 < LIMB
    requires b.Value() < TWO255 + 0x4_0000
    ensures b.Carry().Below(0x8_0000_0000_0000)
    ensures Cong(b.Carry().Value(), b.Value(), P)
  {
    CarryFolds(b);
    if b.Value() < TWO255 {
      DivModUnique(b.Value(), 0, b.Value(), TWO255);
    } else {
      DivModUnique(b.Value(), 1, b.Value() - TWO255, TWO255);
    }
  }

  /** Two carry passes settle any limbs below 2^63; a third changes nothing. */
  lemma CarrySettles(a: FieldElement)
    requires a.Below(0x8000_0000_0000_0000)
    ensures a.Carry().Below(0x8_0000_0008_0000)
    ensures a.Carry().Carry().Below(0x8_0000_0000_0000)
    ensures Cong(a.Carry().Carry().Value(), a.Value(), P)
    ensures a.Carry().Carry().Carry() == a.Carry().Carry()
  {
    FirstCarry(a);
    SecondCarry(a.Carry());
    CongTrans(a.Carry().Carry().Value(), a.Carry().Value(), a.Value(), P);
    CanonicalCarry(a.Carry().Carry());
  }

  lemma CanonicalCarry(c: FieldElement)
    requires c.Below(0x8_0000_0000_0000)
    ensures c.Carry() == c && c.Value() < TWO255
  {
    assert c.l0 / LIMB == 0 && c.l1 / LIMB == 0 && c.l2 / LIMB == 0 && c.l3 / LIMB == 0 && c.l4 / LIMB == 0;
    WeightedBound(c.l0 as int, c.l1 as int, c.l2 as int, c.l3 as int, c.l4 as int);
  }

  lemma WeightedBound(l0: int, l1: int, l2: int, l3: int, l4: int)
    requires 0 <= l0 < 0x8_0000_0000_0000 && 0 <= l1 < 0x8_0000_0000_0000 && 0 <= l2 < 0x8_0000_0000_0000
    requires 0 <= l3 < 0x8_0000_0000_0000 && 0 <= l4 < 0x8_0000_0000_0000
    ensures Weighted(l0, l1, l2, l3, l4) < TWO255
  {
  }

  /** The settled form to_bytes works on. */
  function Settled(a: FieldElement): (c: FieldElement)
    requires a.Below(0x8000_0000_0000_0000)
    ensures c.Below(0x8_0000_0000_0000) && c.Value() < TWO255
    ensures Cong(c.Value(), a.Value(), P)
  {
    CarrySettles(a);
    CanonicalCarry(a.Carry().Carry());
    a.Carry().Carry().Carry()
  }

  /** The quotient estimate: does adding 19 carry out of bit 255? */
  function Overflow19(c: FieldElement): (q: u64)
    requires c.Below(0x8_0000_0000_0000)
    ensures q as int == (c.Value() + 19) / TWO255 && q <= 1
  {
    hide Cong;
    CanonicalCarry(c);
    var q0 := (c.l0 + 19) / LIMB;
    var q1 := (c.l1 + q0) / LIMB;
    var q2 := (c.l2 + q1) / LIMB;
    var q3 := (c.l3 + q2) / LIMB;
    var q4 := (c.l4 + q3) / LIMB;
    Propagate(c.l0 as int + 19, c.l1 as int, c.l2 as int, c.l3 as int, c.l4 as int,
              q0 as int, q1 as int, q2 as int, q3 as int, q4 as int,
              ((c.l0 + 19) % LIMB) as int, ((c.l1 + q0) % LIMB) as int, ((c.l2 + q1) % LIMB) as int,
              ((c.l3 + q2) % LIMB) as int, ((c.l4 + q3) % LIMB) as int);
    q4
  }

  /** Add 19 for each carry the estimate found, and carry again. */
  function Corrected(c: FieldElement): FieldElement
    requires c.Below(0x8_0000_0000_0000)
  {
    c.(l0 := c.l0 + 19 * Overflow19(c)).Carry()
  }

  function ToBytes(a: FieldElement): (bytes: seq<byte>)
    requires a.Below(0x8000_0000_0000_0000)
    ensures |bytes| == 32
  {
    Pack(Corrected(Settled(a)))
  }

  /** A value in [p, 2^255) gains 19 from the correction and 19 more from the carry after it. */
  lemma CorrectedValue(c: FieldElement)
    requires c.Below(0x8_0000_0000_0000)
    ensures Corrected(c).Below(0x8_0000_0000_0000)
    ensures Corrected(c).Value() == if c.Value() < P then c.Value() else c.Value() - P + 19
  {
    hide FieldElement.Value, FieldElement.Carry, Overflow19;
    CanonicalCarry(c);
    OverflowGuard(c);
    var d := c.(l0 := c.l0 + 19 * Overflow19(c));
    if Overflow19(c) == 0 {
      assert d == c;
    } else {
      assert d == FieldElement(c.l0 + 19, c.l1, c.l2, c.l3, c.l4);
      assert d.Value() == c.Value() + 19 by { NineteenMore(c); }
      OverflowingCarry(d);
    }
  }

  lemma NineteenMore(c: FieldElement)
    requires c.Below(0x8_0000_0000_0000)
    ensures FieldElement(c.l0 + 19, c.l1, c.l2, c.l3, c.l4).Value() == c.Value() + 19
  {
  }

  lemma OverflowGuard(c: FieldElement)
    requires c.Below(0x8_0000_0000_0000)
    ensures Overflow19(c) == if c.Value() < P then 0 else 1
  {
    CanonicalCarry(c);
    var q := Overflow19(c);
    QuotientGuard(c.Value());
  }

  lemma QuotientGuard(v: int)
    requires 0 <= v < TWO255
    ensures (v + 19) / TWO255 == if v < P then 0 else 1
  {
  }

  lemma OverflowingCarry(d: FieldElement)
    requires d.l0 as int < 0x8_0000_0000_0013 && d.l1 < LIMB && d.l2 < LIMB && d.l3 < LIMB && d.l4 < LIMB
    requires TWO255 <= d.Value()
    ensures d.Carry().Below(0x8_0000_0000_0000)
    ensures d.Carry().Value() == d.Value() - P
  {
    CarryFolds(d);
    DivModUnique(d.Value(), 1, d.Value() - TWO255, TWO255);
  }

  /** What to_bytes writes, with w the settled value. */
  lemma ToBytesValueOf(a: FieldElement)
    requires a.Below(0x8000_0000_0000_0000)
    ensures ValueOf(256, ToBytes(a))
        == if Settled(a).Value() < P then Settled(a).Value() else Settled(a).Value() - P + 19
  {
    hide FieldElement.Value, Pack, Corrected, Settled, ValueOf, Cong;
    CorrectedValue(Settled(a));
    PackValue(Corrected(Settled(a)));
  }

  /** to_bytes writes the canonical residue exactly when its settled value is below p. */
  lemma ToBytesCanonical(a: FieldElement)
    requires a.Below(0x8000_0000_0000_0000)
    ensures ValueOf(256, ToBytes(a)) == a.Value() % P <==> Settled(a).Value() < P
  {
    hide FieldElement.Value, Cong, ValueOf, ToBytes, Settled;
    var w := Settled(a).Value();
    ToBytesValueOf(a);
    CongIffMod(w, a.Value(), P);
    DivModUnique(w, if w < P then 0 else 1, if w < P then w else w - P, P);
  }

  /** The limbs of p. */
  const PRIME := FieldElement(0x7_ffff_ffff_ffed, 0x7_ffff_ffff_ffff, 0x7_ffff_ffff_ffff, 0x7_ffff_ffff_ffff,
                              0x7_ffff_ffff_ffff)

  /** p itself is written as 19, not as 0. */
  lemma UnreducedPrime()
    ensures PRIME.Value() == P && ValueOf(256, ToBytes(PRIME)) == 19
  {
    PrimeLimbs(PRIME);
    CanonicalCarry(PRIME);
    ToBytesValueOf(PRIME);
  }

  lemma PrimeLimbs(p: FieldElement)
    requires p.l0 == 0x7_ffff_ffff_ffed && p.l1 == p.l2 == p.l3 == p.l4 == 0x7_ffff_ffff_ffff
    ensures p.Value() == P
  {
  }

  // ---------------------------------------------------------------- decoding

  /** u64::from_le_bytes of the eight bytes at offset i. */
  function Load8(r: seq<byte>, i: nat): (w: nat)
    requires i + 8 <= |r|
    ensures w < 0x1_0000_0000_0000_0000
  {
    ValueBound(256, r[i..i + 8]);
    BytePowers();
    ValueOf(256, r[i..i + 8])
  }

  function FromBytes(bytes: seq<byte>): FieldElement
    requires |bytes| == 32
  {
    var r := bytes[31 := bytes[31] % 0x80];
    FieldElement((Load8(r, 0) % 0x8_0000_0000_0000) as u64,
                 (Load8(r, 6) / 0x8 % 0x8_0000_0000_0000) as u64,
                 (Load8(r, 12) / 0x40 % 0x8_0000_0000_0000) as u64,
                 (Load8(r, 19) / 0x2 % 0x8_0000_0000_0000) as u64,
                 (Load8(r, 24) / 0x1000 % 0x8_0000_0000_0000) as u64)
  }

  /** 51 bits at bit offset 8i + log2(s), read through a 64-bit window at byte i. */
  lemma Window(r: seq<byte>, i: nat, s: int, k: int, d: int)
    requires i + 8 <= |r| && s > 0 && k > 0 && s * (0x8_0000_0000_0000 * k) == 0x1_0000_0000_0000_0000
    requires d == Pow(256, i) * s
    ensures d > 0
    ensures Load8(r, i) / s % 0x8_0000_0000_0000 == ValueOf(256, r) / d % 0x8_0000_0000_0000
  {
    var x := ValueOf(256, r) / Pow(256, i);
    ValueWindow(256, r, i, 8);
    BytePowers();
    assert Load8(r, i) == x % 0x1_0000_0000_0000_0000;
    ModDiv(x, s, 0x8_0000_0000_0000 * k);
    ModMod(x / s, 0x8_0000_0000_0000, k);
    DivDiv(ValueOf(256, r), Pow(256, i), s);
  }

  /** Clearing the top bit of the last byte reduces the value modulo 2^255. */
  lemma OneDigit(b: int)
    ensures ValueOf(256, [b]) == b
  {
  }

  lemma ClearTopBit(bytes: seq<byte>)
    requires |bytes| == 32
    ensures ValueOf(256, bytes[31 := bytes[31] % 0x80]) == ValueOf(256, bytes) % TWO255
  {
    OneDigit(bytes[31]);
    OneDigit(bytes[31] % 0x80);
    hide ValueOf, Pow;
    var low := bytes[..31];
    assert bytes == low + [bytes[31]];
    assert bytes[31 := bytes[31] % 0x80] == low + [bytes[31] % 0x80];
    ValueAppend(256, low, [bytes[31]]);
    ValueAppend(256, low, [bytes[31] % 0x80]);
    ValueBound(256, low);
    var w := Pow(256, 31);
    BytePowers();
    DivModUnique(ValueOf(256, bytes), bytes[31] / 0x80, ValueOf(256, low) + w * (bytes[31] % 0x80), TWO255);
  }

  /** Cutting a 255-bit number into five 51-bit limbs. */
  lemma FiveLimbs(n: int)
    requires 0 <= n < TWO255
    ensures Weighted(n % 0x8_0000_0000_0000,
                     n / 0x8_0000_0000_0000 % 0x8_0000_0000_0000,
                     n / 0x40_0000_0000_0000_0000_0000_0000 % 0x8_0000_0000_0000,
                     n / 0x200_0000_0000_0000_0000_0000_0000_0000_0000_0000 % 0x8_0000_0000_0000,
                     n / 0x1000_0000_0000_0000_0000_0000_0000_0000_0000_0000_0000_0000_0000 % 0x8_0000_0000_0000) == n
  {
    var n1, n2, n3 := n / 0x8_0000_0000_0000, n / 0x40_0000_0000_0000_0000_0000_0000,
      n / 0x200_0000_0000_0000_0000_0000_0000_0000_0000_0000;
    var n4 := n / 0x1000_0000_0000_0000_0000_0000_0000_0000_0000_0000_0000_0000_0000;
    assert n2 == n1 / 0x8_0000_0000_0000 by { DivDiv(n, 0x8_0000_0000_0000, 0x8_0000_0000_0000); }
    assert n3 == n2 / 0x8_0000_0000_0000 by { DivDiv(n, 0x40_0000_0000_0000_0000_0000_0000, 0x8_0000_0000_0000); }
    assert n4 == n3 / 0x8_0000_0000_0000 by {
      DivDiv(n, 0x200_0000_0000_0000_0000_0000_0000_0000_0000_0000, 0x8_0000_0000_0000);
    }
    LimbChain(n, n1, n2, n3, n4);
  }

  lemma LimbChain(n: int, n1: int, n2: int, n3: int, n4: int)
    requires 0 <= n4 < 0x8_0000_0000_0000
    requires n1 == n / 0x8_0000_0000_0000 && n2 == n1 / 0x8_0000_0000_0000
    requires n3 == n2 / 0x8_0000_0000_0000 && n4 == n3 / 0x8_0000_0000_0000
    ensures Weighted(n % 0x8_0000_0000_0000, n1 % 0x8_0000_0000_0000, n2 % 0x8_0000_0000_0000,
                     n3 % 0x8_0000_0000_0000, n4 % 0x8_0000_0000_0000) == n
  {
  }

  /** from_bytes reads the low 255 bits, whatever the top bit. */
  lemma FromBytesValue(bytes: seq<byte>)
    requires |bytes| == 32
    ensures FromBytes(bytes).Value() == ValueOf(256, bytes) % TWO255
    ensures FromBytes(bytes).Below(0x8_0000_0000_0000)
  {
    var r := bytes[31 := bytes[31] % 0x80];
    ClearTopBit(bytes);
    BytePowers();
    Window(r, 0, 1, 0x2000, 1);
    Window(r, 6, 8, 0x400, 0x8_0000_0000_0000);
    Window(r, 12, 0x40, 0x80, 0x40_0000_0000_0000_0000_0000_0000);
    Window(r, 19, 2, 0x1000, 0x200_0000_0000_0000_0000_0000_0000_0000_0000_0000);
    Window(r, 24, 0x1000, 2, 0x1000_0000_0000_0000_0000_0000_0000_0000_0000_0000_0000_0000_0000);
    FiveLimbs(ValueOf(256, r));
  }

  /**
   Encoding undoes decoding: to_bytes(from_bytes(b)) is b with bit 255 cleared,
   for exactly those b whose low 255 bits are below p.
   */
  lemma EncodeDecode(bytes: seq<byte>)
    requires |bytes| == 32
    ensures ToBytes(FromBytes(bytes)) == bytes[31 := bytes[31] % 0x80] <==> ValueOf(256, bytes) % TWO255 < P
  {
    hide FieldElement.Value, FieldElement.Carry, ToBytes, FromBytes, ValueOf, Cong;
    var f := FromBytes(bytes);
    var r := bytes[31 := bytes[31] % 0x80];
    FromBytesValue(bytes);
    ClearTopBit(bytes);
    CanonicalCarry(f);
    ToBytesValueOf(f);
    assert Settled(f) == f;
    if f.Value() < P {
      ValueInjective(256, ToBytes(f), r);
    }
  }
}

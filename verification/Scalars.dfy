/** Arithmetic modulo the group order L (crates/webgate-core/src/ed25519.rs:694-790). */
module Scalars {
  import opened Words
  import opened Arith
  import opened LittleEndian

  const B64: int := 0x1_0000_0000_0000_0000
  const B32: int := 0x1_0000_0000

  /** 2^252 + 27742317777372353535851937790883648493. */
  const L: int := 0x1000000000000000000000000000000014def9dea2f79cd65812631a5cf5d3ed

  const ORDER_L: seq<word64> := [0x5812_631a_5cf5_d3ed, 0x14de_f9de_a2f7_9cd6, 0, 0x1000_0000_0000_0000]

  /** The value of little-endian 64-bit words. */
  function Value64(s: seq<word64>): int {
    ValueOf(B64, s)
  }

  lemma OrderValue()
    ensures Value64(ORDER_L) == L
  {
    assert ORDER_L[3..][1..] == [];
    assert ORDER_L[2..][1..] == ORDER_L[3..] && ORDER_L[1..][1..] == ORDER_L[2..];
    assert ValueOf(B64, ORDER_L[3..]) == 0x1000_0000_0000_0000;
    assert ValueOf(B64, ORDER_L[2..]) == B64 * 0x1000_0000_0000_0000;
  }

  /** n modulo L as 32 little-endian bytes. */
  function ReducedBytes(n: int): (out: seq<byte>)
    ensures |out| == 32 && ValueOf(256, out) == n % L
  {
    FourWords();
    LeBytesValue(n % L, 32);
    LeBytes(n % L, 32)
  }

  /** Above a shared suffix, the first differing word decides. */
  lemma FirstDifference(a: seq<word64>, b: seq<word64>, i: nat)
    requires |a| == |b| && i < |a| && a[i + 1..] == b[i + 1..] && a[i] > b[i]
    ensures Value64(a) > Value64(b)
  {
    hide ValueOf, Pow;
    SplitAt(a, i);
    SplitAt(b, i);
    ValueBound(B64, a[..i]);
    ValueBound(B64, b[..i]);
    LargerDigit(Pow(B64, i), ValueOf(B64, a[..i]), ValueOf(B64, b[..i]), a[i], b[i], B64 * ValueOf(B64, a[i + 1..]));
  }

  /** A number in three parts: the words below i, word i, and the words above. */
  lemma SplitAt(a: seq<word64>, i: nat)
    requires i < |a|
    ensures Value64(a) == ValueOf(B64, a[..i]) + Pow(B64, i) * (a[i] + B64 * ValueOf(B64, a[i + 1..]))
  {
    assert a == a[..i] + ([a[i]] + a[i + 1..]);
    ValueAppend(B64, a[..i], [a[i]] + a[i + 1..]);
    assert ([a[i]] + a[i + 1..])[1..] == a[i + 1..];
  }

  lemma LargerDigit(w: int, low: int, low': int, x: int, y: int, h: int)
    requires 0 <= low < w && 0 <= low' < w && x > y
    ensures low + w * (x + h) > low' + w * (y + h)
  {
    MulNonneg(w, x - y - 1);
    assert w * (x + h) - w * (y + h) == w * (x - y - 1) + w;
  }

  /** scalar_gte is comparison of the values. */
  method ScalarGte(a: seq<word64>, b: seq<word64>) returns (r: bool)
    requires |a| == |b| == 4
    ensures r <==> Value64(a) >= Value64(b)
  {
    for i := 4 downto 0
      invariant a[i..] == b[i..]
    {
      if a[i] > b[i] {
        FirstDifference(a, b, i);
        return true;
      }
      if a[i] < b[i] {
        FirstDifference(b, a, i);
        return false;
      }
      assert a[i..] == [a[i]] + a[i + 1..] && b[i..] == [b[i]] + b[i + 1..];
    }
    assert a == a[0..] == b[0..] == b;
    return true;
  }

  lemma Beginning(base: int, j: nat)
    ensures ValueOf(base, []) == 0 && Pow(base, 0) == 1 && Pow(base, j + 1) == base * Pow(base, j)
  {
  }

  /** Splitting off the last word of a prefix. */
  lemma PrefixStep(base: int, s: seq<int>, j: nat)
    requires j < |s|
    ensures ValueOf(base, s[..j + 1]) == ValueOf(base, s[..j]) + Pow(base, j) * s[j]
  {
    assert s[..j + 1] == s[..j] + [s[j]];
    ValueAppend(base, s[..j], [s[j]]);
    assert ValueOf(base, [s[j]]) == s[j];
  }

  /** Shift four words left by one bit, letting a bit in below; returns the bit shifted out. */
  method ShiftIn(rem: array<word64>, bit: int) returns (carry: int)
    requires rem.Length == 4 && 0 <= bit <= 1
    modifies rem
    ensures 0 <= carry <= 1
    ensures Value64(rem[..]) + carry * Pow(B64, 4) == 2 * Value64(old(rem[..])) + bit
  {
    hide ValueOf, Pow;
    carry := bit;
    ghost var was := rem[..];
    Beginning(B64, 0);
    for j := 0 to 4
      invariant 0 <= carry <= 1
      invariant forall k :: j <= k < 4 ==> rem[k] == was[k]
      invariant Value64(rem[..j]) + carry * Pow(B64, j) == 2 * Value64(was[..j]) + bit
    {
      var item := rem[j];
      var val := BitOr(item * 2 % B64, carry);
      ShiftWord(item, carry);
      OrCarry(item * 2 % B64, carry);
      ghost var low := rem[..j];
      carry := item / 0x8000_0000_0000_0000;
      rem[j] := val;
      assert rem[..j] == low;
      Beginning(B64, j);
      PrefixStep(B64, rem[..], j);
      PrefixStep(B64, was, j);
      assert rem[..][..j + 1] == rem[..j + 1] && rem[..][..j] == low;
      ShiftStep(Pow(B64, j), item, val, carry, Value64(low), Value64(was[..j]), bit);
    }
    assert rem[..4] == rem[..] && was[..4] == was;
  }

  lemma ShiftWord(item: word64, carry: int)
    requires 0 <= carry <= 1
    ensures item * 2 % B64 % 2 == 0
    ensures item * 2 % B64 + carry + B64 * (item / 0x8000_0000_0000_0000) == 2 * item + carry
    ensures item * 2 % B64 + carry < B64
  {
  }

  lemma OrCarry(even: nat, carry: int)
    requires even % 2 == 0 && 0 <= carry <= 1
    ensures BitOr(even, carry) == even + carry
  {
    assert Pow(2, 1) == 2;
    BitOrDisjoint(carry, even, 1);
  }

  lemma ShiftStep(w: int, item: int, val: int, carry: int, low: int, was: int, bit: int)
    requires exists c :: low + c * w == 2 * was + bit && val + B64 * carry == 2 * item + c
    ensures (low + w * val) + carry * (B64 * w) == 2 * (was + w * item) + bit
  {
    var c :| low + c * w == 2 * was + bit && val + B64 * carry == 2 * item + c;
    assert w * val + carry * (B64 * w) == w * (val + B64 * carry);
    assert w * (2 * item + c) == 2 * (w * item) + c * w;
  }

  /** Subtract L from four words with two overflowing subtractions per word; returns the last borrow. */
  method SubtractOrder(rem: array<word64>) returns (borrow: int)
    requires rem.Length == 4
    modifies rem
    ensures 0 <= borrow <= 1
    ensures Value64(rem[..]) - borrow * Pow(B64, 4) == Value64(old(rem[..])) - L
  {
    hide ValueOf, Pow;
    borrow := 0;
    ghost var was := rem[..];
    Beginning(B64, 0);
    for j := 0 to 4
      invariant 0 <= borrow <= 1
      invariant forall k :: j <= k < 4 ==> rem[k] == was[k]
      invariant Value64(rem[..j]) - borrow * Pow(B64, j) == Value64(was[..j]) - Value64(ORDER_L[..j])
    {
      var item := rem[j];
      var diff, b1 := (item - ORDER_L[j]) % B64, item < ORDER_L[j];
      var diff2, b2 := (diff - borrow) % B64, diff < borrow;
      SubtractWord(item, ORDER_L[j], borrow);
      ghost var low, before := rem[..j], borrow;
      rem[j] := diff2;
      borrow := (if b1 then 1 else 0) + (if b2 then 1 else 0);
      assert rem[..j] == low;
      Beginning(B64, j);
      PrefixStep(B64, rem[..], j);
      PrefixStep(B64, was, j);
      PrefixStep(B64, ORDER_L, j);
      assert rem[..][..j + 1] == rem[..j + 1] && rem[..][..j] == low;
      SubtractStep(Pow(B64, j), item, ORDER_L[j], diff2, before, borrow, Value64(low), Value64(was[..j]),
          Value64(ORDER_L[..j]));
    }
    assert rem[..4] == rem[..] && was[..4] == was && ORDER_L[..4] == ORDER_L;
    OrderValue();
  }

  lemma SubtractWord(item: word64, l: word64, borrow: int)
    requires 0 <= borrow <= 1
    ensures var diff := (item - l) % B64;
      var diff2 := (diff - borrow) % B64;
      var b := (if item < l then 1 else 0) + (if diff < borrow then 1 else 0);
      b <= 1 && diff2 - B64 * b == item - l - borrow
  {
  }

  lemma SubtractStep(w: int, item: int, l: int, diff: int, before: int, borrow: int, low: int, was: int, order: int)
    requires low - before * w == was - order && diff - B64 * borrow == item - l - before
    ensures (low + w * diff) - borrow * (B64 * w) == (was + w * item) - (order + w * l)
  {
    assert w * diff - borrow * (B64 * w) == w * (diff - B64 * borrow);
    assert w * (item - l - before) == w * item - w * l - before * w;
  }

  /** Doubling and adding a bit commutes with reduction. */
  lemma ReduceStep(q: int, b: int, l: int)
    requires l > 0
    ensures (2 * (q % l) + b) % l == (2 * q + b) % l
  {
    var k, t := q / l, q % l;
    assert q == k * l + t;
    var r := 2 * t + b;
    assert 2 * q + b == (2 * k + r / l) * l + r % l by {
      assert (2 * k + r / l) * l == 2 * (k * l) + (r / l) * l;
    }
    DivModUnique(2 * q + b, 2 * k + r / l, r % l, l);
  }

  /** Bit by bit: the next quotient of n by a power of two, from the words of n. */
  lemma NextBit(num: seq<word64>, bit: nat)
    requires bit < 64 * |num|
    ensures var b := num[bit / 64] / Pow(2, bit % 64) % 2;
      0 <= b <= 1 && Value64(num) / Pow(2, bit) == 2 * (Value64(num) / Pow(2, bit + 1)) + b
  {
    var n, w := Value64(num), Pow(2, bit);
    SixtyFourBits();
    BitOfDigits(64, num, bit);
    assert Pow(2, bit + 1) == w * 2;
    DivDiv(n, w, 2);
  }

  lemma SixtyFourBits()
    ensures Pow(2, 64) == B64
  {
    assert Pow(2, 4) == 2 * Pow(2, 3) == 4 * Pow(2, 2) == 16;
    PowAdd(2, 4, 4);
    PowAdd(2, 8, 8);
    PowAdd(2, 16, 16);
    PowAdd(2, 32, 32);
  }

  lemma FourWords()
    ensures Pow(B64, 4) == 0x1_0000000000000000_0000000000000000_0000000000000000_0000000000000000
    ensures Pow(256, 32) == Pow(B64, 4) && Pow(256, 64) == Pow(2, 512) && Pow(256, 8) == B64
  {
    BytePowers();
    PowMul(256, 8, 4);
    assert Pow(B64, 4) == B64 * (B64 * (B64 * (B64 * Pow(B64, 0))));
    assert Pow(2, 8) == 256 by { PowAdd(2, 4, 4); assert Pow(2, 4) == 2 * Pow(2, 3) == 4 * Pow(2, 2) == 16; }
    PowMul(2, 8, 64);
  }

  /** The four words as 32 little-endian bytes. */
  method WriteWords(words: seq<word64>) returns (out: seq<byte>)
    requires |words| == 4
    ensures |out| == 32 && ValueOf(256, out) == Value64(words)
  {
    out := [];
    for i := 0 to 4
      invariant |out| == 8 * i && ValueOf(256, out) == Value64(words[..i])
    {
      BytePowers();
      LeBytesValue(words[i], 8);
      ValueAppend(256, out, LeBytes(words[i], 8));
      PowMul(256, 8, i);
      PrefixStep(B64, words, i);
      out := out + LeBytes(words[i], 8);
    }
    assert words[..4] == words;
  }

  /** The four words of a 32-byte string. */
  method ReadWords4(input: seq<byte>) returns (num: seq<word64>)
    requires |input| == 32
    ensures |num| == 4 && ValueOf(B64, num) == ValueOf(256, input)
  {
    hide ValueOf, Pow, WordsOf;
    WordsOfValue(8, input, 4);
    BytePowers();
    ghost var words := WordsOf(8, input);
    num := [];
    for i := 0 to 4
      invariant num == words[..i]
    {
      WordAt(8, input, 4, i, 8 * i);
      num := num + [ValueOf(256, input[8 * i..8 * i + 8])];
    }
    assert num == words;
  }

  /** The eight words of a 64-byte string. */
  method ReadWords(input: seq<byte>) returns (num: seq<word64>)
    requires |input| == 64
    ensures |num| == 8 && ValueOf(B64, num) == ValueOf(256, input)
  {
    hide ValueOf, Pow, WordsOf;
    WordsOfValue(8, input, 8);
    BytePowers();
    ghost var words := WordsOf(8, input);
    num := [];
    for i := 0 to 8
      invariant num == words[..i]
    {
      WordAt(8, input, 8, i, 8 * i);
      num := num + [ValueOf(256, input[8 * i..8 * i + 8])];
    }
    assert num == words;
  }

  /**
   One round of the reduction: shift a bit in and, if that reaches L, subtract L once.
   Nothing is ever shifted out of the top word, and the borrow chain ends at 0.
   */
  method ReduceBit(rem: array<word64>, bit: int)
    requires rem.Length == 4 && 0 <= bit <= 1
    requires 0 <= Value64(rem[..]) < L
    modifies rem
    ensures Value64(rem[..]) == (2 * Value64(old(rem[..])) + bit) % L
  {
    hide Pow, ValueOf;
    ghost var r := 2 * Value64(rem[..]) + bit;
    var carry := ShiftIn(rem, bit);
    FourWords();
    ValueBound(B64, rem[..]);
    assert carry == 0;
    assert Value64(rem[..]) == r;
    var gte := ScalarGte(rem[..], ORDER_L);
    OrderValue();
    if carry > 0 || gte {
      var borrow := SubtractOrder(rem);
      ValueBound(B64, rem[..]);
      assert borrow == 0;
      DivModUnique(r, 1, r - L, L);
    } else {
      DivModUnique(r, 0, r, L);
    }
  }

  /** scalar_reduce_64 returns the 512-bit input modulo L, exactly. */
  method ScalarReduce64(input: seq<byte>) returns (out: seq<byte>)
    requires |input| == 64
    ensures out == ReducedBytes(ValueOf(256, input))
  {
    hide Pow, ValueOf;
    var num := ReadWords(input);
    ghost var n := ValueOf(256, input);
    var rem := new word64[4](_ => 0);
    ZeroRemainder(rem[..], n, input);
    for bit := 512 downto 0
      invariant Value64(rem[..]) == n / Pow(2, bit) % L
    {
      var wordIdx, bitIdx := bit / 64, bit % 64;
      var nextBit := num[wordIdx] / Pow(2, bitIdx) % 2;
      NextBit(num, bit);
      ReduceStep(n / Pow(2, bit + 1), nextBit, L);
      ReduceBit(rem, nextBit);
    }
    out := WriteWords(rem[..]);
    FinalRemainder(n, out);
  }

  lemma ZeroRemainder(rem: seq<word64>, n: int, input: seq<byte>)
    requires rem == [0, 0, 0, 0] && |input| == 64 && n == ValueOf(256, input)
    ensures Value64(rem) == n / Pow(2, 512) % L
  {
    hide ValueOf, Pow;
    ValueBound(256, input);
    FourWords();
    DivModUnique(n, 0, n, Pow(2, 512));
    ZeroValue(B64, rem);
  }

  lemma {:induction false} ZeroValue(base: int, s: seq<int>)
    requires forall i :: 0 <= i < |s| ==> s[i] == 0
    ensures ValueOf(base, s) == 0
  {
    if s != [] {
      ZeroValue(base, s[1..]);
    }
  }

  lemma FinalRemainder(n: int, out: seq<byte>)
    requires |out| == 32 && ValueOf(256, out) == n / Pow(2, 0) % L
    ensures out == ReducedBytes(n)
  {
    assert Pow(2, 0) == 1;
    DivModUnique(n, n, 0, 1);
    ValueInjective(256, out, ReducedBytes(n));
  }

  // ---------------------------------------------------------------- multiply-add

  /** Eight 32-bit limbs of a 32-byte string. */
  method ReadLimbs(input: seq<byte>) returns (limbs: seq<word32>)
    requires |input| == 32
    ensures |limbs| == 8 && ValueOf(B32, limbs) == ValueOf(256, input)
  {
    hide ValueOf, Pow, WordsOf;
    WordsOfValue(4, input, 8);
    BytePowers();
    ghost var words := WordsOf(4, input);
    limbs := [];
    for i := 0 to 8
      invariant limbs == words[..i]
    {
      WordAt(4, input, 8, i, 4 * i);
      limbs := limbs + [ValueOf(256, input[4 * i..4 * i + 4])];
    }
    assert limbs == words;
  }

  /** The largest product of two 32-bit limbs. */
  const MAX_PRODUCT: int := 0xffff_fffe_0000_0001

  /** Row i of the schoolbook product, and limb i of c, added into sixteen 128-bit columns. */
  method AddRow(prod: array<word128>, a: seq<word32>, b: seq<word32>, c: seq<word32>, i: nat)
    requires prod.Length == 16 && |a| == |b| == |c| == 8 && i < 8
    requires forall k :: 0 <= k < 16 ==> prod[k] <= i * B64
    modifies prod
    ensures forall k :: 0 <= k < 16 ==> prod[k] <= (i + 1) * B64
    ensures ValueOf(B32, prod[..]) == ValueOf(B32, old(prod[..])) + Pow(B32, i) * (a[i] * ValueOf(B32, b) + c[i])
  {
    hide ValueOf, Pow;
    ghost var was := ValueOf(B32, prod[..]);
    Beginning(B32, 0);
    for j := 0 to 8
      invariant forall k :: 0 <= k < 16 ==> prod[k] <= i * B64 + (if k < i + j then MAX_PRODUCT else 0)
      invariant ValueOf(B32, prod[..]) == was + Pow(B32, i) * (a[i] * ValueOf(B32, b[..j]))
    {
      var x: int, y: int := a[i], b[j];
      LimbProduct(x, y);
      ghost var before: seq<int> := prod[..];
      prod[i + j] := prod[i + j] + x * y;
      assert prod[..] == before[i + j := before[i + j] + x * y];
      ValueUpdate(B32, before, i + j, before[i + j] + x * y);
      PowAdd(B32, i, j);
      PrefixStep(B32, b, j);
      RowStep(Pow(B32, i), Pow(B32, j), a[i], b[j], ValueOf(B32, b[..j]));
    }
    assert b[..8] == b;
    ghost var before: seq<int> := prod[..];
    prod[i] := prod[i] + c[i];
    assert prod[..] == before[i := before[i] + c[i]];
    ValueUpdate(B32, before, i, before[i] + c[i]);
    LastAddend(Pow(B32, i), a[i] * ValueOf(B32, b), c[i]);
  }

  lemma LimbProduct(x: word32, y: word32)
    ensures 0 <= x * y <= MAX_PRODUCT
  {
    MulNonneg(x, y);
    MulNonneg(0xffff_ffff - x, y);
  }

  lemma RowStep(u: int, v: int, x: int, y: int, t: int)
    ensures u * (x * t) + (x * y) * (u * v) == u * (x * (t + v * y))
  {
  }

  lemma LastAddend(u: int, t: int, c: int)
    ensures u * t + c * u == u * (t + c)
  {
  }

  /** Carry propagation over the sixteen columns. */
  method PropagateColumns(prod: seq<word128>) returns (prod32: seq<word32>, carry: word128)
    requires |prod| == 16 && forall k :: 0 <= k < 16 ==> prod[k] <= 8 * B64
    ensures |prod32| == 16
    ensures ValueOf(B32, prod32) + carry * Pow(B32, 16) == ValueOf(B32, prod)
  {
    hide ValueOf, Pow;
    carry, prod32 := 0, [];
    Beginning(B32, 0);
    for i := 0 to 16
      invariant |prod32| == i && carry <= 16 * B32
      invariant ValueOf(B32, prod32) + carry * Pow(B32, i) == ValueOf(B32, prod[..i])
    {
      var total: word128 := prod[i] + carry;
      ghost var low, before := prod32, carry;
      prod32 := prod32 + [total % B32];
      carry := total / B32;
      Beginning(B32, i);
      PrefixStep(B32, prod, i);
      PrefixStep(B32, prod32, i);
      assert prod32[..i] == low && prod32[..i + 1] == prod32;
      ColumnStep(Pow(B32, i), total % B32, carry, prod[i], before);
    }
    assert prod[..16] == prod;
  }

  lemma ColumnStep(w: int, digit: int, carry: int, column: int, before: int)
    requires digit + carry * B32 == column + before
    ensures w * digit + carry * (B32 * w) == w * column + before * w
  {
    assert w * digit + carry * (B32 * w) == w * (digit + carry * B32);
    assert w * (column + before) == w * column + before * w;
  }

  /** The sixteen limbs as 64 little-endian bytes. */
  method WriteLimbs(limbs: seq<word32>) returns (out: seq<byte>)
    requires |limbs| == 16
    ensures |out| == 64 && ValueOf(256, out) == ValueOf(B32, limbs)
  {
    hide ValueOf, Pow;
    out := [];
    Beginning(B32, 0);
    Beginning(256, 0);
    for i := 0 to 16
      invariant |out| == 4 * i && ValueOf(256, out) == ValueOf(B32, limbs[..i])
    {
      BytePowers();
      LeBytesValue(limbs[i], 4);
      ValueAppend(256, out, LeBytes(limbs[i], 4));
      PowMul(256, 4, i);
      PrefixStep(B32, limbs, i);
      out := out + LeBytes(limbs[i], 4);
    }
    assert limbs[..16] == limbs;
  }

  lemma SixteenLimbs()
    ensures Pow(B32, 16) == Pow(256, 64) == Pow(256, 32) * Pow(256, 32)
  {
    BytePowers();
    PowMul(256, 4, 16);
    PowAdd(256, 32, 32);
  }

  /** a b + c of 256-bit numbers fits 512 bits. */
  lemma ProductFits(a: int, b: int, c: int, w: int)
    requires 0 <= a < w && 0 <= b < w && 0 <= c < w
    ensures 0 <= a * b + c < w * w
  {
    MulNonneg(a, b);
    MulNonneg(w - 1 - a, b);
    MulNonneg(w, w - 1 - b);
    assert (w - 1 - a) * b == w * b - b - a * b;
    assert w * (w - 1 - b) == w * w - w - w * b;
  }

  /** scalar_mul_add is a b + c modulo L, for all 256-bit a, b and c; no carry is lost. */
  method ScalarMulAdd(a: seq<byte>, b: seq<byte>, c: seq<byte>) returns (out: seq<byte>)
    requires |a| == |b| == |c| == 32
    ensures out == ReducedBytes(ValueOf(256, a) * ValueOf(256, b) + ValueOf(256, c))
  {
    hide ValueOf, Pow;
    var aLimbs := ReadLimbs(a);
    var bLimbs := ReadLimbs(b);
    var cLimbs := ReadLimbs(c);
    var prod := new word128[16](_ => 0);
    ZeroValue(B32, prod[..]);
    Beginning(B32, 0);
    ghost var bv := ValueOf(B32, bLimbs);
    for i := 0 to 8
      invariant forall k :: 0 <= k < 16 ==> prod[k] <= i * B64
      invariant ValueOf(B32, prod[..]) == ValueOf(B32, aLimbs[..i]) * bv + ValueOf(B32, cLimbs[..i])
    {
      AddRow(prod, aLimbs, bLimbs, cLimbs, i);
      PrefixStep(B32, aLimbs, i);
      PrefixStep(B32, cLimbs, i);
      RowSum(Pow(B32, i), aLimbs[i], cLimbs[i], ValueOf(B32, aLimbs[..i]), bv);
    }
    assert aLimbs[..8] == aLimbs && cLimbs[..8] == cLimbs;
    var prod32, carry := PropagateColumns(prod[..]);
    NoFinalCarry(a, b, c, prod32, carry);
    var bytes512 := WriteLimbs(prod32);
    out := ScalarReduce64(bytes512);
  }

  lemma RowSum(u: int, x: int, z: int, t: int, b: int)
    ensures t * b + u * (x * b + z) == (t + u * x) * b + u * z
  {
  }

  lemma NoFinalCarry(a: seq<byte>, b: seq<byte>, c: seq<byte>, prod32: seq<word32>, carry: nat)
    requires |a| == |b| == |c| == 32 && |prod32| == 16
    requires ValueOf(B32, prod32) + carry * Pow(B32, 16) == ValueOf(256, a) * ValueOf(256, b) + ValueOf(256, c)
    ensures carry == 0
  {
    hide ValueOf, Pow;
    ValueBound(256, a);
    ValueBound(256, b);
    ValueBound(256, c);
    ValueBound(B32, prod32);
    SixteenLimbs();
    ProductFits(ValueOf(256, a), ValueOf(256, b), ValueOf(256, c), Pow(256, 32));
    CarryTooBig(ValueOf(B32, prod32), carry, Pow(B32, 16));
  }

  lemma CarryTooBig(v: int, carry: nat, w: int)
    requires v >= 0 && w > 0 && v + carry * w < w
    ensures carry == 0
  {
    assert carry >= 1 ==> carry * w >= w;
  }
}

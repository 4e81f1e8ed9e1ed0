/** Positional values of digit sequences, least significant digit first. */
module LittleEndian {
  import opened Words
  import opened Arith

  ghost predicate Digits(base: int, s: seq<int>) {
    forall i :: 0 <= i < |s| ==> 0 <= s[i] < base
  }

  function ValueOf(base: int, s: seq<int>): int {
    if s == [] then 0 else s[0] + base * ValueOf(base, s[1..])
  }

  lemma TimesTimes(a: int, b: int, c: int)
    ensures a * (b * c) == a * b * c
  {
  }

  lemma {:induction false} ValueAppend(base: int, s: seq<int>, t: seq<int>)
    ensures ValueOf(base, s + t) == ValueOf(base, s) + Pow(base, |s|) * ValueOf(base, t)
  {
    if s == [] {
      assert s + t == t;
    } else {
      ValueAppend(base, s[1..], t);
      assert (s + t)[1..] == s[1..] + t;
      TimesTimes(base, Pow(base, |s| - 1), ValueOf(base, t));
    }
  }

  lemma MulMonotone(b: int, v: int, w: int)
    requires b > 0 && 0 <= v < w
    ensures 0 <= b * v && b * v + b <= b * w
  {
    MulNonneg(b, v);
    MulNonneg(b, w - 1 - v);
    assert b * (w - 1 - v) == b * w - b - b * v;
  }

  lemma {:induction false} ValueBound(base: int, s: seq<int>)
    requires base > 0 && Digits(base, s)
    ensures 0 <= ValueOf(base, s) < Pow(base, |s|)
  {
    if s == [] {
    } else {
      ValueBound(base, s[1..]);
      MulMonotone(base, ValueOf(base, s[1..]), Pow(base, |s| - 1));
    }
  }

  /** Cutting a digit sequence is division with remainder by the weight of the cut. */
  lemma ValueSplit(base: int, s: seq<int>, i: nat)
    requires base > 0 && Digits(base, s) && i <= |s|
    ensures ValueOf(base, s[..i]) == ValueOf(base, s) % Pow(base, i)
    ensures ValueOf(base, s[i..]) == ValueOf(base, s) / Pow(base, i)
  {
    hide ValueOf, Pow;
    assert s == s[..i] + s[i..];
    ValueAppend(base, s[..i], s[i..]);
    ValueBound(base, s[..i]);
    DivModUnique(ValueOf(base, s), ValueOf(base, s[i..]), ValueOf(base, s[..i]), Pow(base, i));
  }

  /** A window of digits is the corresponding quotient and remainder of the whole value. */
  lemma ValueWindow(base: int, s: seq<int>, i: nat, k: nat)
    requires base > 0 && Digits(base, s) && i + k <= |s|
    ensures ValueOf(base, s[i..i + k]) == ValueOf(base, s) / Pow(base, i) % Pow(base, k)
  {
    hide ValueOf, Pow;
    ValueSplit(base, s, i);
    ValueSplit(base, s[i..], k);
    assert s[i..][..k] == s[i..i + k];
  }

  /** Bit i of a value written in digits of k bits is bit i % k of digit i / k. */
  lemma BitOfDigits(k: nat, s: seq<int>, i: nat)
    requires k > 0 && Digits(Pow(2, k), s) && i < k * |s|
    ensures i / k < |s| && ValueOf(Pow(2, k), s) / Pow(2, i) % 2 == s[i / k] / Pow(2, i % k) % 2
  {
    var base, j, b := Pow(2, k), i / k, i % k;
    DigitIndex(k, |s|, i);
    var n := ValueOf(base, s);
    var x := n / Pow(base, j);
    assert s[j] == x % base by {
      ValueWindow(base, s, j, 1);
      assert s[j..j + 1] == [s[j]];
      assert Pow(base, 1) == base;
      assert ValueOf(base, [s[j]]) == s[j];
    }
    assert Pow(base, j) * Pow(2, b) == Pow(2, i) by {
      PowMul(2, k, j);
      PowAdd(2, k * j, b);
    }
    DivDiv(n, Pow(base, j), Pow(2, b));
    BitOfDigit(k, x, b);
  }

  lemma DigitIndex(k: nat, len: nat, i: nat)
    requires k > 0 && i < k * len
    ensures 0 <= i / k < len && i == k * (i / k) + i % k
  {
    if i / k >= len {
      assert k * (i / k) >= k * len by { MulNonneg(k, i / k - len); }
    }
  }

  /** A bit below the k-th is not changed by dropping bits from the k-th on. */
  lemma BitOfDigit(k: nat, x: int, b: nat)
    requires b < k
    ensures x % Pow(2, k) / Pow(2, b) % 2 == x / Pow(2, b) % 2
  {
    var w, v := Pow(2, b), Pow(2, k - b - 1);
    assert w * (2 * v) == Pow(2, k) by {
      PowAdd(2, b, k - b);
    }
    ModDiv(x, w, 2 * v);
    ModMod(x / w, 2, v);
  }

  /** A byte string read as words of k bytes, little-endian. */
  function WordsOf(k: nat, bytes: seq<byte>): seq<int>
    requires k > 0
  {
    if |bytes| < k then [] else [ValueOf(256, bytes[..k])] + WordsOf(k, bytes[k..])
  }

  /** Reading a byte string in words keeps its value. */
  lemma {:induction false} WordsOfValue(k: nat, bytes: seq<byte>, n: nat)
    requires k > 0 && |bytes| == k * n
    ensures |WordsOf(k, bytes)| == n && Digits(Pow(256, k), WordsOf(k, bytes))
    ensures ValueOf(Pow(256, k), WordsOf(k, bytes)) == ValueOf(256, bytes)
    decreases n
  {
    if n == 0 {
    } else {
      assert |bytes| == k * (n - 1) + k;
      MulNonneg(k, n - 1);
      var head, rest := bytes[..k], bytes[k..];
      WordsOfValue(k, rest, n - 1);
      assert bytes == head + rest;
      ValueAppend(256, head, rest);
      ValueBound(256, head);
      assert WordsOf(k, bytes)[1..] == WordsOf(k, rest);
    }
  }

  /** Word i is the value of bytes k i to k i + k. */
  lemma {:induction false} WordAt(k: nat, bytes: seq<byte>, n: nat, i: nat, o: nat)
    requires k > 0 && |bytes| == k * n && i < n && o == k * i
    ensures o + k <= |bytes| && i < |WordsOf(k, bytes)|
    ensures WordsOf(k, bytes)[i] == ValueOf(256, bytes[o..o + k]) && 0 <= ValueOf(256, bytes[o..o + k]) < Pow(256, k)
    decreases i
  {
    hide ValueOf, Pow;
    WordsOfValue(k, bytes, n);
    assert |bytes| == k * (n - 1) + k;
    MulNonneg(k, n - 1);
    if i > 0 {
      assert o - k == k * (i - 1);
      WordAt(k, bytes[k..], n - 1, i - 1, o - k);
      assert bytes[k..][o - k..o] == bytes[o..o + k];
    } else {
      ValueBound(256, bytes[..k]);
    }
  }

  /** Changing one digit moves the value by that digit's weight. */
  lemma ValueUpdate(base: int, s: seq<int>, i: nat, v: int)
    requires i < |s|
    ensures ValueOf(base, s[i := v]) == ValueOf(base, s) + (v - s[i]) * Pow(base, i)
  {
    var low, high := s[..i], s[i + 1..];
    assert s == low + ([s[i]] + high);
    assert s[i := v] == low + ([v] + high);
    ValueAppend(base, low, [s[i]] + high);
    ValueAppend(base, low, [v] + high);
    assert ([v] + high)[1..] == high && ([s[i]] + high)[1..] == high;
    assert Pow(base, i) * (v + base * ValueOf(base, high))
        == Pow(base, i) * (s[i] + base * ValueOf(base, high)) + (v - s[i]) * Pow(base, i);
  }

  /** Two digit sequences of one length with one value are the same. */
  lemma {:induction false} ValueInjective(base: int, s: seq<int>, t: seq<int>)
    requires base > 0 && Digits(base, s) && Digits(base, t) && |s| == |t|
    requires ValueOf(base, s) == ValueOf(base, t)
    ensures s == t
  {
    if s == [] {
    } else {
      DivModUnique(ValueOf(base, s), ValueOf(base, s[1..]), s[0], base);
      DivModUnique(ValueOf(base, t), ValueOf(base, t[1..]), t[0], base);
      ValueInjective(base, s[1..], t[1..]);
      assert s == [s[0]] + s[1..] && t == [t[0]] + t[1..];
    }
  }

  /** The lowest len base-256 digits of n: to_le_bytes of a len-byte word. */
  function LeBytes(n: nat, len: nat): (s: seq<byte>)
    ensures |s| == len
  {
    if len == 0 then [] else [n % 256] + LeBytes(n / 256, len - 1)
  }

  lemma {:induction false} LeBytesValue(n: nat, len: nat)
    requires n < Pow(256, len)
    ensures ValueOf(256, LeBytes(n, len)) == n
  {
    if len == 0 {
    } else {
      assert n / 256 < Pow(256, len - 1);
      LeBytesValue(n / 256, len - 1);
      assert LeBytes(n, len)[1..] == LeBytes(n / 256, len - 1);
    }
  }

  /** The weights of the byte offsets at which 64-bit words and limbs are read. */
  lemma BytePowers()
    ensures Pow(256, 0) == 1 && Pow(256, 4) == 0x1_0000_0000 && Pow(256, 6) == 0x1_0000_0000_0000
    ensures Pow(256, 8) == 0x1_0000_0000_0000_0000
    ensures Pow(256, 12) == 0x1_0000_0000_0000_0000_0000_0000
    ensures Pow(256, 19) == 0x100_0000_0000_0000_0000_0000_0000_0000_0000_0000
    ensures Pow(256, 24) == 0x1_0000_0000_0000_0000_0000_0000_0000_0000_0000_0000_0000_0000
    ensures Pow(256, 31) == 0x100_0000_0000_0000_0000_0000_0000_0000_0000_0000_0000_0000_0000_0000_0000_0000
  {
    assert Pow(256, 2) == 256 * Pow(256, 1) == 0x1_0000;
    assert Pow(256, 4) == 256 * Pow(256, 3) == 0x1_0000_0000;
    PowAdd(256, 4, 2);
    PowAdd(256, 4, 4);
    PowAdd(256, 8, 4);
    PowAdd(256, 12, 6);
    PowAdd(256, 18, 1);
    PowAdd(256, 12, 12);
    PowAdd(256, 19, 12);
  }

  function Reversed(s: seq<byte>): (r: seq<byte>)
    ensures |r| == |s|
  {
    if s == [] then [] else Reversed(s[1..]) + [s[0]]
  }

  /** The value of bytes in network order. */
  function BigEndianValue(s: seq<byte>): (v: nat)
    ensures v < Pow(256, |s|)
  {
    ValueBound(256, Reversed(s));
    ValueOf(256, Reversed(s))
  }

  /** In network order the last byte counts once, and what is before it 256 times. */
  lemma BigEndianLast(s: seq<byte>, b: byte)
    ensures BigEndianValue(s + [b]) == 256 * BigEndianValue(s) + b
  {
    ReversedAppend(s, [b]);
    assert Reversed([b]) == [b];
    assert ([b] + Reversed(s))[1..] == Reversed(s);
  }

  /** to_be_bytes of a len-byte word. */
  function ToBigEndian(n: nat, len: nat): (s: seq<byte>)
    ensures |s| == len
  {
    Reversed(LeBytes(n, len))
  }

  lemma {:induction false} ReversedAppend(s: seq<byte>, t: seq<byte>)
    ensures Reversed(s + t) == Reversed(t) + Reversed(s)
  {
    if s == [] {
      assert s + t == t;
    } else {
      ReversedAppend(s[1..], t);
      assert (s + t)[1..] == s[1..] + t;
    }
  }

  lemma {:induction false} ReversedTwice(s: seq<byte>)
    ensures Reversed(Reversed(s)) == s
  {
    if s == [] {
    } else {
      ReversedTwice(s[1..]);
      ReversedAppend(Reversed(s[1..]), [s[0]]);
      assert Reversed([s[0]]) == [s[0]];
    }
  }

  /** Reading what was written in network order gives the number back. */
  lemma BigEndianRoundTrip(n: nat, len: nat)
    requires n < Pow(256, len)
    ensures BigEndianValue(ToBigEndian(n, len)) == n
  {
    ReversedTwice(LeBytes(n, len));
    LeBytesValue(n, len);
  }

  /** Writing what was read in network order gives the bytes back. */
  lemma BigEndianBytes(s: seq<byte>)
    ensures ToBigEndian(BigEndianValue(s), |s|) == s
  {
    ValueBound(256, Reversed(s));
    LeBytesValue(BigEndianValue(s), |s|);
    ValueInjective(256, LeBytes(BigEndianValue(s), |s|), Reversed(s));
    ReversedTwice(s);
  }
}

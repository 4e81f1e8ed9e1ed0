/**
 The SHA-512 block function: section 6.4.2 of FIPS 180-4, and the loop of
 crates/webgate-core/src/ed25519.rs:155-209 that computes it.
 */
module Sha512Block {
  import opened Words
  import opened LittleEndian

  /** The round constants, in rows of eight. */
  const K: seq<bv64> :=
    [0x428a2f98d728ae22, 0x7137449123ef65cd, 0xb5c0fbcfec4d3b2f, 0xe9b5dba58189dbbc,
       0x3956c25bf348b538, 0x59f111f1b605d019, 0x923f82a4af194f9b, 0xab1c5ed5da6d8118]
    + [0xd807aa98a3030242, 0x12835b0145706fbe, 0x243185be4ee4b28c, 0x550c7dc3d5ffb4e2,
       0x72be5d74f27b896f, 0x80deb1fe3b1696b1, 0x9bdc06a725c71235, 0xc19bf174cf692694]
    + [0xe49b69c19ef14ad2, 0xefbe4786384f25e3, 0x0fc19dc68b8cd5b5, 0x240ca1cc77ac9c65,
       0x2de92c6f592b0275, 0x4a7484aa6ea6e483, 0x5cb0a9dcbd41fbd4, 0x76f988da831153b5]
    + [0x983e5152ee66dfab, 0xa831c66d2db43210, 0xb00327c898fb213f, 0xbf597fc7beef0ee4,
       0xc6e00bf33da88fc2, 0xd5a79147930aa725, 0x06ca6351e003826f, 0x142929670a0e6e70]
    + [0x27b70a8546d22ffc, 0x2e1b21385c26c926, 0x4d2c6dfc5ac42aed, 0x53380d139d95b3df,
       0x650a73548baf63de, 0x766a0abb3c77b2a8, 0x81c2c92e47edaee6, 0x92722c851482353b]
    + [0xa2bfe8a14cf10364, 0xa81a664bbc423001, 0xc24b8b70d0f89791, 0xc76c51a30654be30,
       0xd192e819d6ef5218, 0xd69906245565a910, 0xf40e35855771202a, 0x106aa07032bbd1b8]
    + [0x19a4c116b8d2d0c8, 0x1e376c085141ab53, 0x2748774cdf8eeb99, 0x34b0bcb5e19b48a8,
       0x391c0cb3c5c95a63, 0x4ed8aa4ae3418acb, 0x5b9cca4f7763e373, 0x682e6ff3d6b2b8a3]
    + [0x748f82ee5defb2fc, 0x78a5636f43172f60, 0x84c87814a1f0ab72, 0x8cc702081a6439ec,
       0x90befffa23631e28, 0xa4506cebde82bde9, 0xbef9a3f7b2c67915, 0xc67178f2e372532b]
    + [0xca273eceea26619c, 0xd186b8c721c0c207, 0xeada7dd6cde0eb1e, 0xf57d4f7fee6ed178,
       0x06f067aa72176fba, 0x0a637dc5a2c898a6, 0x113f9804bef90dae, 0x1b710b35131c471b]
    + [0x28db77f523047d84, 0x32caab7b40c72493, 0x3c9ebe0a15c9bebc, 0x431d67c49c100d4c,
       0x4cc5d4becb3e42b6, 0x597f299cfc657e2a, 0x5fcb6fab3ad6faec, 0x6c44198c4a475817]

  const INITIAL: seq<bv64> := [
    0x6a09e667f3bcc908, 0xbb67ae8584caa73b, 0x3c6ef372fe94f82b, 0xa54ff53a5f1d36f1,
    0x510e527fade682d1, 0x9b05688c2b3e6c1f, 0x1f83d9abfb41bd6b, 0x5be0cd19137e2179]

  /** Addition modulo 2^64. */
  function WrappingAdd(x: bv64, y: bv64): bv64 {
    x + y
  }

  function Sum4(x: bv64, y: bv64, z: bv64, w: bv64): bv64 {
    WrappingAdd(WrappingAdd(WrappingAdd(x, y), z), w)
  }

  function Ch(x: bv64, y: bv64, z: bv64): bv64 {
    (x & y) ^ (!x & z)
  }

  function Maj(x: bv64, y: bv64, z: bv64): bv64 {
    (x & y) ^ (x & z) ^ (y & z)
  }

  function BigSigma0(x: bv64): bv64 {
    x.RotateRight(28) ^ x.RotateRight(34) ^ x.RotateRight(39)
  }

  function BigSigma1(x: bv64): bv64 {
    x.RotateRight(14) ^ x.RotateRight(18) ^ x.RotateRight(41)
  }

  function SmallSigma0(x: bv64): bv64 {
    x.RotateRight(1) ^ x.RotateRight(8) ^ (x >> 7)
  }

  function SmallSigma1(x: bv64): bv64 {
    x.RotateRight(19) ^ x.RotateRight(61) ^ (x >> 6)
  }

  /** u64::from_be_bytes of the eight bytes at an offset. */
  function BigEndian(block: seq<byte>, i: nat): bv64
    requires i + 8 <= |block|
  {
    BytePowers();
    BigEndianValue(block[i..i + 8]) as bv64
  }

  /** Word t of the message schedule; the sum of section 6.4.2, its four terms last to first. */
  function Schedule(block: seq<byte>, t: nat): bv64
    requires |block| == 128
  {
    if t < 16 then BigEndian(block, 8 * t)
    else Sum4(Schedule(block, t - 16), SmallSigma0(Schedule(block, t - 15)),
              Schedule(block, t - 7), SmallSigma1(Schedule(block, t - 2)))
  }

  /** The eight working variables. */
  datatype Working = Working(a: bv64, b: bv64, c: bv64, d: bv64, e: bv64, f: bv64, g: bv64, h: bv64)

  function Round(v: Working, k: bv64, w: bv64): Working {
    var t1 := WrappingAdd(Sum4(v.h, BigSigma1(v.e), Ch(v.e, v.f, v.g), k), w);
    var t2 := WrappingAdd(BigSigma0(v.a), Maj(v.a, v.b, v.c));
    Working(WrappingAdd(t1, t2), v.a, v.b, v.c, WrappingAdd(v.d, t1), v.e, v.f, v.g)
  }

  /** The working variables after the first t rounds. */
  function Rounds(block: seq<byte>, v: Working, t: nat): Working
    requires |block| == 128 && t <= 80
  {
    if t == 0 then v else Round(Rounds(block, v, t - 1), K[t - 1], Schedule(block, t - 1))
  }

  function Load(s: seq<bv64>): Working
    requires |s| == 8
  {
    Working(s[0], s[1], s[2], s[3], s[4], s[5], s[6], s[7])
  }

  /** The next hash value. */
  function Compress(s: seq<bv64>, block: seq<byte>): (r: seq<bv64>)
    requires |s| == 8 && |block| == 128
    ensures |r| == 8
  {
    var v := Rounds(block, Load(s), 80);
    [WrappingAdd(s[0], v.a), WrappingAdd(s[1], v.b), WrappingAdd(s[2], v.c), WrappingAdd(s[3], v.d),
     WrappingAdd(s[4], v.e), WrappingAdd(s[5], v.f), WrappingAdd(s[6], v.g), WrappingAdd(s[7], v.h)]
  }

  /** The message schedule, filled in place. */
  method FillSchedule(block: seq<byte>) returns (w: array<bv64>)
    requires |block| == 128
    ensures fresh(w) && w.Length == 80
    ensures forall t :: 0 <= t < 80 ==> w[t] == Schedule(block, t)
  {
    hide BigEndian, SmallSigma0, SmallSigma1, Sum4;
    w := new bv64[80](_ => 0);
    for i := 0 to 16
      invariant forall t :: 0 <= t < i ==> w[t] == Schedule(block, t)
    {
      w[i] := BigEndian(block, 8 * i);
    }
    for i := 16 to 80
      invariant forall t :: 0 <= t < i ==> w[t] == Schedule(block, t)
    {
      var s0 := SmallSigma0(w[i - 15]);
      var s1 := SmallSigma1(w[i - 2]);
      w[i] := Sum4(w[i - 16], s0, w[i - 7], s1);
    }
  }

  /** The 80 rounds over local variables. */
  method RunRounds(block: seq<byte>, w: array<bv64>, s: seq<bv64>)
    returns (a: bv64, b: bv64, c: bv64, d: bv64, e: bv64, f: bv64, g: bv64, h: bv64)
    requires |block| == 128 && |s| == 8 && w.Length == 80
    requires forall t :: 0 <= t < 80 ==> w[t] == Schedule(block, t)
    ensures Working(a, b, c, d, e, f, g, h) == Rounds(block, Load(s), 80)
  {
    hide BigSigma0, BigSigma1, Ch, Maj, Schedule, Sum4, WrappingAdd;
    a, b, c, d := s[0], s[1], s[2], s[3];
    e, f, g, h := s[4], s[5], s[6], s[7];
    for i := 0 to 80
      invariant Working(a, b, c, d, e, f, g, h) == Rounds(block, Load(s), i)
    {
      var s1 := BigSigma1(e);
      var ch := Ch(e, f, g);
      var temp1 := WrappingAdd(Sum4(h, s1, ch, K[i]), w[i]);
      var s0 := BigSigma0(a);
      var maj := Maj(a, b, c);
      var temp2 := WrappingAdd(s0, maj);
      h := g;
      g := f;
      f := e;
      e := WrappingAdd(d, temp1);
      d := c;
      c := b;
      b := a;
      a := WrappingAdd(temp1, temp2);
    }
  }

  /** Process one block: schedule, rounds, and the addition into the state. */
  method ProcessBlock(state: array<bv64>, block: seq<byte>)
    requires state.Length == 8 && |block| == 128
    modifies state
    ensures state[..] == Compress(old(state[..]), block)
  {
    hide Rounds, WrappingAdd, Schedule;
    var w := FillSchedule(block);
    var a, b, c, d, e, f, g, h := RunRounds(block, w, state[..]);
    AddInto(state, block, a, b, c, d, e, f, g, h);
  }

  /** The working variables are added into the state word by word. */
  method AddInto(state: array<bv64>, ghost block: seq<byte>,
                 a: bv64, b: bv64, c: bv64, d: bv64, e: bv64, f: bv64, g: bv64, h: bv64)
    requires state.Length == 8 && |block| == 128
    requires Working(a, b, c, d, e, f, g, h) == Rounds(block, Load(state[..]), 80)
    modifies state
    ensures state[..] == Compress(old(state[..]), block)
  {
    hide Rounds, WrappingAdd;
    state[0] := WrappingAdd(state[0], a);
    state[1] := WrappingAdd(state[1], b);
    state[2] := WrappingAdd(state[2], c);
    state[3] := WrappingAdd(state[3], d);
    state[4] := WrappingAdd(state[4], e);
    state[5] := WrappingAdd(state[5], f);
    state[6] := WrappingAdd(state[6], g);
    state[7] := WrappingAdd(state[7], h);
  }

  // ---------------------------------------------------------------- the rounds as two recurrences

  /** Of the words that pass through a to d and those that pass through e to h, the t-th; the hash value first. */
  function Left(block: seq<byte>, s: seq<bv64>, t: nat): bv64
    requires |block| == 128 && |s| == 8 && t <= 83
    decreases t, 1
  {
    if t < 4 then s[3 - t]
    else
      var x, y, z := Left(block, s, t - 1), Left(block, s, t - 2), Left(block, s, t - 3);
      WrappingAdd(Fresh(block, s, t), WrappingAdd(BigSigma0(x), Maj(x, y, z)))
  }

  function Right(block: seq<byte>, s: seq<bv64>, t: nat): bv64
    requires |block| == 128 && |s| == 8 && t <= 83
    decreases t, 1
  {
    if t < 4 then s[7 - t] else WrappingAdd(Left(block, s, t - 4), Fresh(block, s, t))
  }

  /** What round t - 4 adds to both. */
  function Fresh(block: seq<byte>, s: seq<bv64>, t: nat): bv64
    requires |block| == 128 && |s| == 8 && 4 <= t <= 83
    decreases t, 0
  {
    var x, y, z := Right(block, s, t - 1), Right(block, s, t - 2), Right(block, s, t - 3);
    WrappingAdd(Sum4(Right(block, s, t - 4), BigSigma1(x), Ch(x, y, z), K[t - 4]), Schedule(block, t - 4))
  }

  /** The working variables after t rounds are the last four words of either recurrence. */
  lemma {:induction false} RoundsRecur(block: seq<byte>, s: seq<bv64>, t: nat)
    requires |block| == 128 && |s| == 8 && t <= 80
    ensures Rounds(block, Load(s), t)
         == Working(Left(block, s, t + 3), Left(block, s, t + 2), Left(block, s, t + 1), Left(block, s, t),
                    Right(block, s, t + 3), Right(block, s, t + 2), Right(block, s, t + 1), Right(block, s, t))
  {
    hide WrappingAdd, Sum4, BigSigma0, BigSigma1, Ch, Maj, Schedule;
    if t > 0 {
      RoundsRecur(block, s, t - 1);
    }
  }

  /** A block adds to each word of the hash value a word of the recurrence that started from it. */
  lemma CompressRecurs(s: seq<bv64>, block: seq<byte>)
    requires |block| == 128 && |s| == 8
    ensures Compress(s, block) == [
      WrappingAdd(s[0], Left(block, s, 83)), WrappingAdd(s[1], Left(block, s, 82)),
      WrappingAdd(s[2], Left(block, s, 81)), WrappingAdd(s[3], Left(block, s, 80)),
      WrappingAdd(s[4], Right(block, s, 83)), WrappingAdd(s[5], Right(block, s, 82)),
      WrappingAdd(s[6], Right(block, s, 81)), WrappingAdd(s[7], Right(block, s, 80))]
  {
    hide WrappingAdd, Rounds, Left, Right;
    RoundsRecur(block, s, 80);
  }
}

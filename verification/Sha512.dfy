/** The buffered, streaming SHA-512 hasher (crates/webgate-core/src/ed25519.rs:3-246). */
module Sha512Hasher {
  import opened Words
  import opened Arith
  import opened LittleEndian
  import opened Sha512Block

  // ---------------------------------------------------------------- one-shot hash

  /** The hash values after all whole blocks of m, first to last. */
  function Absorb(s: seq<bv64>, m: seq<byte>): (r: seq<bv64>)
    requires |s| == 8
    ensures |r| == 8
    decreases |m|
  {
    if |m| < 128 then s else Absorb(Compress(s, m[..128]), m[128..])
  }

  /** 2^125: below it, the length in bits fits the 128 bits FIPS 180-4 gives it. */
  const MAX_BYTES: nat := 0x2000_0000_0000_0000_0000_0000_0000_0000

  function Zeros(n: nat): (z: seq<byte>)
    ensures |z| == n
  {
    seq(n, _ => 0)
  }

  /**
   Section 5.1.2 of FIPS 180-4: a one bit, the fewest zero bits that leave 128 bits
   to the end of a block, and the message length in bits.
   */
  function Pad(m: seq<byte>): (p: seq<byte>)
    requires |m| < MAX_BYTES
    ensures |p| % 128 == 0
  {
    PadLength(|m|);
    m + [0x80] + Zeros((239 - |m| % 128) % 128) + ToBigEndian(8 * |m|, 16)
  }

  lemma PadLength(n: nat)
    ensures (n + 1 + (239 - n % 128) % 128 + 16) % 128 == 0
  {
  }

  /** What the padding is: the shortest that makes whole blocks of message, one bit, zeros and bit length. */
  lemma PadReads(m: seq<byte>)
    requires |m| < MAX_BYTES
    ensures var p := Pad(m);
      && |p| % 128 == 0 && |m| + 17 <= |p| < |m| + 17 + 128
      && p[..|m|] == m && p[|m|] == 0x80 && p[|m| + 1..|p| - 16] == Zeros(|p| - |m| - 17)
      && BigEndianValue(p[|p| - 16..]) == 8 * |m|
  {
    hide BigEndianValue, ToBigEndian;
    BytePowers();
    PowAdd(256, 8, 8);
    BigEndianRoundTrip(8 * |m|, 16);
    var zeros, length := Zeros((239 - |m| % 128) % 128), ToBigEndian(8 * |m|, 16);
    assert Pad(m)[|Pad(m)| - 16..] == length;
  }

  /** The big-endian bytes of the words. */
  function WordBytes(s: seq<bv64>): (out: seq<byte>)
    ensures |out| == 8 * |s|
  {
    if s == [] then [] else ToBigEndian(s[0] as int, 8) + WordBytes(s[1..])
  }

  lemma Behind(head: seq<byte>, rest: seq<byte>, at: nat)
    requires |head| == 8 && 8 <= at && at <= |rest|
    ensures (head + rest)[at..at + 8] == rest[at - 8..at]
  {
  }

  /** The words written out can be read back in network order. */
  lemma {:induction false} WordBytesAt(s: seq<bv64>, i: nat)
    requires i < |s|
    ensures BigEndianValue(WordBytes(s)[8 * i..8 * i + 8]) == s[i] as int
  {
    hide BigEndianValue, ToBigEndian;
    BytePowers();
    if i == 0 {
      BigEndianRoundTrip(s[0] as int, 8);
      assert WordBytes(s)[..8] == ToBigEndian(s[0] as int, 8);
    } else {
      WordBytesAt(s[1..], i - 1);
      Behind(ToBigEndian(s[0] as int, 8), WordBytes(s[1..]), 8 * i);
    }
  }


  /** SHA-512 of a whole message. */
  function Digest(m: seq<byte>): (out: seq<byte>)
    requires |m| < MAX_BYTES
    ensures |out| == 64
  {
    WordBytes(Absorb(INITIAL, Pad(m)))
  }

  /** The bytes of m that fill whole blocks. */
  function WholeLength(m: seq<byte>): (n: nat)
    ensures n <= |m| && n % 128 == 0 && |m| - n < 128
  {
    |m| - |m| % 128
  }

  lemma {:induction false} AbsorbAppend(s: seq<bv64>, a: seq<byte>, b: seq<byte>)
    requires |s| == 8 && |a| % 128 == 0
    ensures Absorb(s, a + b) == Absorb(Absorb(s, a), b)
    decreases |a|
  {
    hide Compress;
    if |a| < 128 {
      assert a + b == b;
    } else {
      assert (a + b)[..128] == a[..128] && (a + b)[128..] == a[128..] + b;
      AbsorbAppend(Compress(s, a[..128]), a[128..], b);
    }
  }

  /** One more block after whole blocks. */
  lemma AbsorbBlock(s: seq<bv64>, a: seq<byte>, block: seq<byte>)
    requires |s| == 8 && |a| % 128 == 0 && |block| == 128
    ensures Absorb(s, a + block) == Compress(Absorb(s, a), block)
  {
    hide Compress;
    AbsorbAppend(s, a, block);
    assert block[..128] == block && block[128..] == [];
    assert Absorb(Compress(Absorb(s, a), block), []) == Compress(Absorb(s, a), block);
  }

  // ---------------------------------------------------------------- the hasher

  class Sha512 {
    const state: array<bv64>
    const buffer: array<byte>
    var bufLen: nat
    var totalLen: nat

    /** Everything fed so far. */
    ghost var message: seq<byte>

    /** The state has absorbed the whole blocks; the buffer starts with what is left over. */
    ghost predicate Valid()
      reads this, state, buffer
    {
      && state.Length == 8 && buffer.Length == 128
      && totalLen == |message|
      && bufLen == |message| % 128
      && buffer[..bufLen] == message[WholeLength(message)..]
      && state[..] == Absorb(INITIAL, message[..WholeLength(message)])
    }

    constructor ()
      ensures Valid() && message == []
      ensures fresh(state) && fresh(buffer)
    {
      state := new bv64[8](i requires 0 <= i < 8 => INITIAL[i]);
      buffer := new byte[128](_ => 0);
      bufLen, totalLen, message := 0, 0, [];
      new;
      assert state[..] == INITIAL;
    }

    /** The state has absorbed the first done bytes, and nothing more. */
    ghost predicate Absorbed(done: nat)
      reads this, state
    {
      && state.Length == 8 && totalLen == |message|
      && done <= |message| && done % 128 == 0
      && state[..] == Absorb(INITIAL, message[..done])
    }

    /** Process the block of the message that follows the absorbed part. */
    method FeedBlock(block: seq<byte>, ghost done: nat)
      requires Absorbed(done) && |block| == 128
      requires done + 128 <= |message| && block == message[done..done + 128]
      modifies state
      ensures Absorbed(done + 128)
    {
      hide Absorb, Compress;
      NextBlock(message, done);
      ProcessBlock(state, block);
    }

    /** Put the last bytes, which do not fill a block, behind those already in the buffer. */
    method Stash(part: seq<byte>, ghost done: nat)
      requires Absorbed(done) && buffer.Length == 128 && bufLen + |part| < 128
      requires buffer[..bufLen] + part == message[done..]
      modifies this`bufLen, buffer
      ensures Valid()
    {
      hide Absorb, Compress;
      CopyInto(buffer, bufLen, part);
      bufLen := bufLen + |part|;
      SameWhole(message, done);
    }

    /** Process the whole blocks of data from an offset on. */
    method FeedBlocks(data: seq<byte>, start: nat, ghost done: nat) returns (offset: nat, len: nat)
      requires Absorbed(done) && start <= |data| && message[done..] == data[start..]
      modifies state
      ensures start <= offset && offset + len == |data| && len < 128 && Absorbed(done + (offset - start))
    {
      hide Absorb, Compress;
      offset, len := start, |data| - start;
      while len >= 128
        invariant start <= offset && offset + len == |data| && Absorbed(done + (offset - start))
        decreases len
      {
        var block := data[offset..offset + 128];
        assert block == message[done..][offset - start..offset - start + 128];
        FeedBlock(block, done + (offset - start));
        offset := offset + 128;
        len := len - 128;
      }
    }

    /** Feed more bytes; where the message is cut into calls leaves no trace. */
    method Update(data: seq<byte>)
      requires Valid()
      modifies this, state, buffer
      ensures Valid() && message == old(message) + data
    {
      hide Absorb, Compress, WholeLength;
      var offset, len := 0, |data|;
      totalLen := totalLen + len;
      ghost var fed := message;
      ghost var done := WholeLength(fed);
      message := message + data;
      assert message[..done] == fed[..done] && message[done..] == fed[done..] + data;
      if bufLen > 0 {
        var toFill := 128 - bufLen;
        if len < toFill {
          Stash(data, done);
          return;
        }
        CopyInto(buffer, bufLen, data[..toFill]);
        var block := buffer[..];
        JoinBlock(fed, data, done);
        assert block == fed[done..] + data[..toFill];
        FeedBlock(block, done);
        bufLen := 0;
        offset := offset + toFill;
        len := len - toFill;
        done := done + 128;
      }
      PieceOf(fed, data, offset);
      offset, len := FeedBlocks(data, offset, done);
      done := |fed| + offset;
      PieceOf(fed, data, offset);
      if len > 0 {
        assert buffer[..0] + data[offset..offset + len] == message[done..];
        Stash(data[offset..offset + len], done);
      } else {
        SameWhole(message, done);
      }
    }

    /** Pad, process the last one or two blocks, and write the state out. */
    method Finalize() returns (out: seq<byte>)
      requires Valid() && totalLen < MAX_BYTES
      modifies state, buffer
      ensures out == Digest(message)
    {
      hide Absorb, WordBytes, ToBigEndian, Compress, Pad, WholeLength;
      var totalBits: word128 := totalLen * 8;
      ghost var done := WholeLength(message);
      SplitPadding(message);
      if bufLen < 112 {
        FillLast(buffer, bufLen, message[done..], totalBits);
        var block := buffer[..];
        AbsorbBlock(INITIAL, message[..done], block);
        ProcessBlock(state, block);
      } else {
        FillFull(buffer, bufLen, message[done..]);
        var block1 := buffer[..];
        AbsorbBlock(INITIAL, message[..done], block1);
        ProcessBlock(state, block1);
        var block2 := Zeros(112) + ToBigEndian(totalBits, 16);
        AbsorbBlock(INITIAL, message[..done] + block1, block2);
        ProcessBlock(state, block2);
      }
      assert state[..] == Absorb(INITIAL, Pad(message));
      out := WriteState(state[..]);
    }
  }

  /** The last block: the bit 1, zeros, and the bit length. */
  method FillLast(buffer: array<byte>, bufLen: nat, ghost rest: seq<byte>, totalBits: word128)
    requires buffer.Length == 128 && bufLen < 112 && buffer[..bufLen] == rest
    modifies buffer
    ensures buffer[..] == rest + [0x80] + Zeros(111 - bufLen) + ToBigEndian(totalBits, 16)
  {
    hide ToBigEndian;
    buffer[bufLen] := 0x80;
    assert buffer[..bufLen + 1] == rest + [0x80];
    CopyInto(buffer, bufLen + 1, Zeros(111 - bufLen));
    assert buffer[..112] == rest + [0x80] + Zeros(111 - bufLen);
    CopyInto(buffer, 112, ToBigEndian(totalBits, 16));
  }

  /** The last block but one, when the length does not fit behind the rest. */
  method FillFull(buffer: array<byte>, bufLen: nat, ghost rest: seq<byte>)
    requires buffer.Length == 128 && 112 <= bufLen < 128 && buffer[..bufLen] == rest
    modifies buffer
    ensures buffer[..] == rest + [0x80] + Zeros(127 - bufLen)
  {
    buffer[bufLen] := 0x80;
    assert buffer[..bufLen + 1] == rest + [0x80];
    CopyInto(buffer, bufLen + 1, Zeros(127 - bufLen));
  }

  lemma PieceOf(fed: seq<byte>, data: seq<byte>, offset: nat)
    requires offset <= |data|
    ensures (fed + data)[|fed| + offset..] == data[offset..]
  {
  }

  /** The block that straddles what was left over and what is newly fed. */
  lemma JoinBlock(fed: seq<byte>, data: seq<byte>, done: nat)
    requires done <= |fed| < done + 128 && done + 128 <= |fed| + |data|
    ensures (fed + data)[done..done + 128] == fed[done..] + data[..done + 128 - |fed|]
  {
  }

  /** Eight words, big-endian. */
  method WriteState(state: seq<bv64>) returns (out: seq<byte>)
    ensures out == WordBytes(state)
  {
    hide ToBigEndian;
    out := [];
    for i := 0 to |state|
      invariant out + WordBytes(state[i..]) == WordBytes(state)
    {
      out := out + ToBigEndian(state[i] as int, 8);
      assert state[i..][1..] == state[i + 1..];
      assert WordBytes(state[i..]) == ToBigEndian(state[i] as int, 8) + WordBytes(state[i + 1..]);
    }
    assert state[|state|..] == [];
  }

  /** The leftover bytes, followed by the padding, in one or two blocks. */
  lemma SplitPadding(m: seq<byte>)
    requires |m| < MAX_BYTES
    ensures var r := |m| % 128; var done := WholeLength(m); var bits := ToBigEndian(8 * |m|, 16);
      && (r < 112 ==> Pad(m) == m[..done] + (m[done..] + [0x80] + Zeros(111 - r) + bits))
      && (r >= 112 ==> Pad(m) == m[..done] + (m[done..] + [0x80] + Zeros(127 - r)) + (Zeros(112) + bits))
  {
    hide ToBigEndian;
    var r, done := |m| % 128, WholeLength(m);
    assert m == m[..done] + m[done..];
    if r < 112 {
      assert (239 - r) % 128 == 111 - r;
    } else {
      assert (239 - r) % 128 == 239 - r;
      assert Zeros(239 - r) == Zeros(127 - r) + Zeros(112);
    }
  }

  lemma SameWhole(m: seq<byte>, done: nat)
    requires done <= |m| < done + 128 && done % 128 == 0
    ensures WholeLength(m) == done && |m| % 128 == |m| - done
  {
  }

  /** Absorbing one more whole block of m. */
  lemma NextBlock(m: seq<byte>, done: nat)
    requires done + 128 <= |m| && done % 128 == 0
    ensures Absorb(INITIAL, m[..done + 128]) == Compress(Absorb(INITIAL, m[..done]), m[done..done + 128])
  {
    assert m[..done + 128] == m[..done] + m[done..done + 128];
    AbsorbBlock(INITIAL, m[..done], m[done..done + 128]);
  }

  /** copy_from_slice into a part of an array. */
  method CopyInto(a: array<byte>, at: nat, data: seq<byte>)
    requires at + |data| <= a.Length
    modifies a
    ensures a[..] == old(a[..at]) + data + old(a[at + |data|..])
  {
    for i := 0 to |data|
      invariant a[..at] == old(a[..at]) && a[at..at + i] == data[..i] && a[at + i..] == old(a[at + i..])
    {
      a[at + i] := data[i];
    }
  }

  function Flatten(pieces: seq<seq<byte>>): seq<byte> {
    if pieces == [] then [] else pieces[0] + Flatten(pieces[1..])
  }

  /** However a message is cut into update calls, the streaming hash is the one-shot hash. */
  method HashPieces(pieces: seq<seq<byte>>) returns (out: seq<byte>)
    requires |Flatten(pieces)| < MAX_BYTES
    ensures out == Digest(Flatten(pieces))
  {
    hide Absorb, Digest, WholeLength, Compress;
    var hasher := new Sha512();
    for i := 0 to |pieces|
      invariant hasher.Valid() && fresh(hasher) && fresh(hasher.state) && fresh(hasher.buffer)
      invariant hasher.message + Flatten(pieces[i..]) == Flatten(pieces)
    {
      assert pieces[i..][1..] == pieces[i + 1..];
      assert Flatten(pieces[i..]) == pieces[i] + Flatten(pieces[i + 1..]);
      hasher.Update(pieces[i]);
    }
    assert pieces[|pieces|..] == [];
    assert hasher.message == Flatten(pieces);
    out := hasher.Finalize();
  }

  /** Sha512::digest. */
  method HashWhole(data: seq<byte>) returns (out: seq<byte>)
    requires |data| < MAX_BYTES
    ensures out == Digest(data)
  {
    hide Absorb, Digest;
    var hasher := new Sha512();
    hasher.Update(data);
    assert hasher.message == data;
    out := hasher.Finalize();
  }
}

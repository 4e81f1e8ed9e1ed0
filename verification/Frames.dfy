/** The frame codec of the reverse tunnel (server/pkg/relay/protocol.go). */
module Frames {
  import opened Wrappers
  import opened Words
  import opened Arith
  import opened LittleEndian

  const MAGIC: word32 := 0x5747_524C
  const VERSION: byte := 1
  const MAX_PAYLOAD: nat := 65536

  const AUTH: byte := 1
  const AUTH_RESP: byte := 2
  const PING: byte := 3
  const PONG: byte := 4
  const STREAM_OPEN: byte := 5
  const STREAM_DATA: byte := 6
  const STREAM_CLOSE: byte := 7
  const STREAM_RESET: byte := 8

  datatype Frame = Frame(kind: byte, flags: word16, streamId: word32, payload: seq<byte>)

  datatype FrameError = Truncated | InvalidMagic | UnsupportedVersion | PayloadTooLarge

  /** The sixteen header bytes. */
  function Header(f: Frame): (h: seq<byte>)
    ensures |h| == 16
  {
    ToBigEndian(MAGIC, 4) + [VERSION, f.kind] + ToBigEndian(f.flags, 2) + ToBigEndian(f.streamId, 4)
    + ToBigEndian(|f.payload|, 4)
  }

  function Encode(f: Frame): seq<byte> {
    Header(f) + f.payload
  }

  /** The frame at the front of a byte string, and what follows it. */
  function Decode(s: seq<byte>): Result<(Frame, seq<byte>), FrameError> {
    if |s| < 16 then Err(Truncated)
    else if BigEndianValue(s[0..4]) != MAGIC then Err(InvalidMagic)
    else if s[4] != VERSION then Err(UnsupportedVersion)
    else
      var len := BigEndianValue(s[12..16]);
      if len > MAX_PAYLOAD then Err(PayloadTooLarge)
      else if |s| < 16 + len then Err(Truncated)
      else Ok((Frame(s[5], Word16(s[6..8]), Word32(s[8..12]), s[16..16 + len]), s[16 + len..]))
  }

  function Word16(s: seq<byte>): (w: word16)
    requires |s| == 2
    ensures w == BigEndianValue(s)
  {
    assert Pow(256, 2) == 256 * Pow(256, 1) == 0x1_0000;
    BigEndianValue(s)
  }

  function Word32(s: seq<byte>): (w: word32)
    requires |s| == 4
    ensures w == BigEndianValue(s)
  {
    BytePowers();
    BigEndianValue(s)
  }

  /** The header's fields, where Decode looks for them. */
  lemma HeaderFields(f: Frame)
    requires |f.payload| <= MAX_PAYLOAD
    ensures var h := Header(f);
      && BigEndianValue(h[0..4]) == MAGIC && h[4] == VERSION && h[5] == f.kind
      && Word16(h[6..8]) == f.flags && Word32(h[8..12]) == f.streamId && BigEndianValue(h[12..16]) == |f.payload|
  {
    hide ToBigEndian, BigEndianValue, Pow;
    BytePowers();
    TwoBytes();
    var h := Header(f);
    assert h[0..4] == ToBigEndian(MAGIC, 4);
    assert h[6..8] == ToBigEndian(f.flags, 2);
    assert h[8..12] == ToBigEndian(f.streamId, 4);
    assert h[12..16] == ToBigEndian(|f.payload|, 4);
    BigEndianRoundTrip(MAGIC, 4);
    BigEndianRoundTrip(f.flags, 2);
    BigEndianRoundTrip(f.streamId, 4);
    BigEndianRoundTrip(|f.payload|, 4);
  }

  lemma TwoBytes()
    ensures Pow(256, 2) == 0x1_0000
  {
    assert Pow(256, 2) == 256 * Pow(256, 1);
  }

  /** A frame is read back from its encoding, and whatever follows is left untouched. */
  lemma DecodeEncode(f: Frame, rest: seq<byte>)
    requires |f.payload| <= MAX_PAYLOAD
    ensures Decode(Encode(f) + rest) == Ok((f, rest))
  {
    hide ToBigEndian, BigEndianValue, Header, Word16, Word32;
    HeaderFields(f);
    var s, h := Encode(f) + rest, Header(f);
    assert s[0..4] == h[0..4] && s[6..8] == h[6..8] && s[8..12] == h[8..12] && s[12..16] == h[12..16];
    assert s[16..16 + |f.payload|] == f.payload && s[16 + |f.payload|..] == rest;
  }

  /** An accepted frame is at most the payload bound, and re-encodes to exactly the bytes consumed. */
  lemma EncodeDecode(s: seq<byte>)
    requires Decode(s).Ok?
    ensures var (f, rest) := Decode(s).value; |f.payload| <= MAX_PAYLOAD && s == Encode(f) + rest
  {
    hide ToBigEndian, BigEndianValue, Word16, Word32;
    var (f, rest) := Decode(s).value;
    BigEndianBytes(s[0..4]);
    BigEndianBytes(s[6..8]);
    BigEndianBytes(s[8..12]);
    BigEndianBytes(s[12..16]);
    assert |f.payload| == BigEndianValue(s[12..16]);
    assert s[..16] == s[0..4] + [s[4], s[5]] + s[6..8] + s[8..12] + s[12..16];
    assert s == s[..16] + f.payload + rest;
  }

  /** No strict prefix of an encoding decodes: the reader reports a short read. */
  lemma PrefixTruncated(f: Frame, n: nat)
    requires |f.payload| <= MAX_PAYLOAD && n < |Encode(f)|
    ensures Decode(Encode(f)[..n]) == Err(Truncated)
  {
    hide ToBigEndian, BigEndianValue, Header, Word16, Word32;
    var s, h := Encode(f)[..n], Header(f);
    if n >= 16 {
      HeaderFields(f);
      assert s[0..4] == h[0..4] && s[12..16] == h[12..16];
    }
  }

  /** The letters WGRL and version 1 open every frame. */
  lemma MagicBytes()
    ensures ToBigEndian(MAGIC, 4) == [0x57, 0x47, 0x52, 0x4C] && VERSION == 1
  {
    hide BigEndianValue, ToBigEndian;
    var s: seq<byte> := [0x57, 0x47, 0x52, 0x4C];
    assert s[..1] == [] + [s[0]] && s[..2] == s[..1] + [s[1]] && s[..3] == s[..2] + [s[2]] && s == s[..3] + [s[3]];
    NoValue();
    BigEndianLast([], s[0]);
    BigEndianLast(s[..1], s[1]);
    BigEndianLast(s[..2], s[2]);
    BigEndianLast(s[..3], s[3]);
    BigEndianBytes(s);
  }

  lemma NoValue()
    ensures BigEndianValue([]) == 0
  {
  }

  /** The bytes of a frame: magic and version, its type, and then flags, stream id and length in network order. */
  lemma EncodedBytes(f: Frame)
    requires |f.payload| <= MAX_PAYLOAD
    ensures Encode(f) == [0x57, 0x47, 0x52, 0x4C, 1, f.kind] + ToBigEndian(f.flags, 2) + ToBigEndian(f.streamId, 4)
                         + ToBigEndian(|f.payload|, 4) + f.payload
  {
    hide ToBigEndian;
    MagicBytes();
  }

  /** Only other magic bytes have this value. */
  lemma MagicOnly(s: seq<byte>)
    requires |s| == 4
    ensures BigEndianValue(s) == MAGIC <==> s == [0x57, 0x47, 0x52, 0x4C]
  {
    hide BigEndianValue, ToBigEndian, Pow;
    MagicBytes();
    BytePowers();
    BigEndianBytes(s);
    BigEndianRoundTrip(MAGIC, 4);
  }

  /** Which error is reported for which bytes. */
  lemma RefusedFor(s: seq<byte>)
    ensures var magic := |s| >= 16 && s[..4] == [0x57, 0x47, 0x52, 0x4C]; var len := BigEndianValue(Length(s));
      && (Decode(s) == Err(InvalidMagic) <==> |s| >= 16 && !magic)
      && (Decode(s) == Err(UnsupportedVersion) <==> magic && s[4] != 1)
      && (Decode(s) == Err(PayloadTooLarge) <==> magic && s[4] == 1 && len > 65536)
      && (Decode(s) == Err(Truncated) <==> |s| < 16 || (magic && s[4] == 1 && len <= 65536 && |s| < 16 + len))
  {
    hide BigEndianValue, Word16, Word32;
    if |s| >= 16 {
      MagicOnly(s[..4]);
    }
  }

  /** The four bytes of the length. */
  function Length(s: seq<byte>): seq<byte> {
    if |s| >= 16 then s[12..16] else []
  }

  // ---------------------------------------------------------------- lists of frames

  ghost predicate Sendable(fs: seq<Frame>) {
    forall i :: 0 <= i < |fs| ==> |fs[i].payload| <= MAX_PAYLOAD
  }

  function EncodeAll(fs: seq<Frame>): seq<byte> {
    if fs == [] then [] else Encode(fs[0]) + EncodeAll(fs[1..])
  }

  /** Read n frames one after another. */
  function DecodeMany(s: seq<byte>, n: nat): Result<(seq<Frame>, seq<byte>), FrameError> {
    if n == 0 then Ok(([], s))
    else match Decode(s)
      case Err(e) => Err(e)
      case Ok((f, rest)) =>
        match DecodeMany(rest, n - 1)
        case Err(e) => Err(e)
        case Ok((fs, left)) => Ok(([f] + fs, left))
  }

  /** Framing is self-delimiting: a list of frames comes back from the concatenated encodings. */
  lemma {:induction false} DecodeManyEncodeAll(fs: seq<Frame>, rest: seq<byte>)
    requires Sendable(fs)
    ensures DecodeMany(EncodeAll(fs) + rest, |fs|) == Ok((fs, rest))
  {
    hide Decode, Encode;
    if fs == [] {
      assert EncodeAll(fs) + rest == rest;
    } else {
      DecodeManyEncodeAll(fs[1..], rest);
      DecodeEncode(fs[0], EncodeAll(fs[1..]) + rest);
      assert EncodeAll(fs) + rest == Encode(fs[0]) + (EncodeAll(fs[1..]) + rest);
      assert [fs[0]] + fs[1..] == fs;
    }
  }

  /** And the other way round: whatever n frames are read, their encodings were there. */
  lemma {:induction false} EncodeAllDecodeMany(s: seq<byte>, n: nat)
    requires DecodeMany(s, n).Ok?
    ensures var (fs, rest) := DecodeMany(s, n).value; |fs| == n && Sendable(fs) && s == EncodeAll(fs) + rest
    decreases n
  {
    hide Decode, Encode;
    if n > 0 {
      EncodeDecode(s);
      var (f, left) := Decode(s).value;
      EncodeAllDecodeMany(left, n - 1);
      var (fs, rest) := DecodeMany(left, n - 1).value;
      assert ([f] + fs)[1..] == fs;
      assert s == Encode(f) + left;
    } else {
      assert EncodeAll([]) + s == s;
    }
  }

  // ---------------------------------------------------------------- the stream operations

  /** A connection being written: it takes `room` more bytes and then fails. */
  class Sink {
    var written: seq<byte>
    var room: nat

    constructor (room: nat)
      ensures written == [] && this.room == room
    {
      written, this.room := [], room;
    }

    method Write(p: seq<byte>) returns (ok: bool)
      modifies this
      ensures ok == (|p| <= old(room))
      ensures written == old(written) + if ok then p else p[..old(room)]
      ensures room == if ok then old(room) - |p| else 0
    {
      if |p| <= room {
        written, room, ok := written + p, room - |p|, true;
      } else {
        written, room, ok := written + p[..room], 0, false;
      }
    }
  }

  /** A connection being read: the bytes still to come before it ends. */
  class Source {
    var unread: seq<byte>

    constructor (bytes: seq<byte>)
      ensures unread == bytes
    {
      unread := bytes;
    }

    /** io.ReadFull: exactly n bytes, or an error after taking what there was. */
    method ReadFull(n: nat) returns (ok: bool, buf: seq<byte>)
      modifies this
      ensures ok == (n <= |old(unread)|)
      ensures ok ==> buf == old(unread)[..n] && unread == old(unread)[n..]
      ensures !ok ==> unread == []
    {
      if n <= |unread| {
        ok, buf, unread := true, unread[..n], unread[n..];
      } else {
        ok, buf, unread := false, [], [];
      }
    }
  }

  /** binary.BigEndian.PutUint16 and PutUint32. */
  method PutBigEndian(a: array<byte>, at: nat, n: nat, len: nat)
    requires at + len <= a.Length
    modifies a
    ensures a[..] == old(a[..at]) + ToBigEndian(n, len) + old(a[at + len..])
  {
    var bytes := ToBigEndian(n, len);
    for i := 0 to len
      invariant a[..at] == old(a[..at]) && a[at..at + i] == bytes[..i] && a[at + i..] == old(a[at + i..])
    {
      a[at + i] := bytes[i];
    }
  }

  /** Fill the header buffer field by field. */
  method FillHeader(header: array<byte>, f: Frame)
    requires header.Length == 16 && |f.payload| <= MAX_PAYLOAD
    modifies header
    ensures header[..] == Header(f)
  {
    hide ToBigEndian;
    ghost var magic, flags := ToBigEndian(MAGIC, 4), ToBigEndian(f.flags, 2);
    PutBigEndian(header, 0, MAGIC, 4);
    header[4] := VERSION;
    header[5] := f.kind;
    assert header[..6] == magic + [VERSION, f.kind];
    PutBigEndian(header, 6, f.flags, 2);
    assert header[..8] == magic + [VERSION, f.kind] + flags;
    PutBigEndian(header, 8, f.streamId, 4);
    assert header[..12] == magic + [VERSION, f.kind] + flags + ToBigEndian(f.streamId, 4);
    PutBigEndian(header, 12, |f.payload|, 4);
  }

  /** Write one frame; on failure the connection has got a strict prefix of it, or nothing. */
  method WriteFrame(w: Sink, f: Frame) returns (ok: bool)
    modifies w
    ensures |f.payload| > MAX_PAYLOAD ==> !ok && w.written == old(w.written) && w.room == old(w.room)
    ensures |f.payload| <= MAX_PAYLOAD ==> ok == (|Encode(f)| <= old(w.room))
    ensures |f.payload| <= MAX_PAYLOAD
        ==> w.written == old(w.written) + if ok then Encode(f) else Encode(f)[..old(w.room)]
  {
    hide Header;
    if |f.payload| > MAX_PAYLOAD {
      return false;
    }
    var header := new byte[16](_ => 0);
    FillHeader(header, f);
    ok := w.Write(header[..]);
    if !ok {
      return;
    }
    if |f.payload| > 0 {
      ok := w.Write(f.payload);
    }
  }

  /** Read one frame: the outcome is Decode's, and a frame read leaves exactly what follows it. */
  method ReadFrame(r: Source) returns (frame: Result<Frame, FrameError>)
    modifies r
    ensures match Decode(old(r.unread))
      case Ok((f, rest)) => frame == Ok(f) && r.unread == rest
      case Err(e) => frame == Err(e)
  {
    hide BigEndianValue;
    var ok, header := r.ReadFull(16);
    if !ok {
      return Err(Truncated);
    }
    ghost var s := old(r.unread);
    assert header[0..4] == s[0..4] && header[6..8] == s[6..8] && header[8..12] == s[8..12]
        && header[12..16] == s[12..16];
    var magic := BigEndianValue(header[0..4]);
    if magic != MAGIC {
      return Err(InvalidMagic);
    }
    var version := header[4];
    if version != VERSION {
      return Err(UnsupportedVersion);
    }
    var kind := header[5];
    var flags := Word16(header[6..8]);
    var streamId := Word32(header[8..12]);
    var payloadLen := BigEndianValue(header[12..16]);
    if payloadLen > MAX_PAYLOAD {
      return Err(PayloadTooLarge);
    }
    var payload := [];
    if payloadLen > 0 {
      ok, payload := r.ReadFull(payloadLen);
      if !ok {
        return Err(Truncated);
      }
    }
    assert payload == s[16..16 + payloadLen];
    assert r.unread == s[16 + payloadLen..];
    return Ok(Frame(kind, flags, streamId, payload));
  }
}

/** Reading a CONNECT head from a stream (crates/webgate-transport/src/restricted_http_connect.rs). */
module HttpHead {
  import opened Wrappers
  import opened Words

  type Bytes = seq<byte>

  const CHUNK: nat := 1024
  const HEAD_END: Bytes := [13, 10, 13, 10]

  datatype RequestError = TooLarge | Malformed | MethodNotAllowed

  /** A connection: the bytes still to come before it ends or fails. */
  class Connection {
    var unread: Bytes

    constructor (bytes: Bytes)
      ensures unread == bytes
    {
      unread := bytes;
    }

    /** One read: any non-empty piece of what is to come, nothing only at the end. */
    method Read(limit: nat) returns (piece: Bytes)
      requires limit > 0
      modifies this
      ensures piece + unread == old(unread) && |piece| <= limit
      ensures piece == [] ==> old(unread) == []
    {
      if unread == [] {
        return [];
      }
      var n: nat :| 0 < n <= limit && n <= |unread|;
      piece, unread := unread[..n], unread[n..];
    }
  }

  /** Does a head end right before position e? */
  predicate EndsAt(bytes: Bytes, e: nat) {
    4 <= e <= |bytes| && bytes[e - 4..e] == HEAD_END
  }

  /** windows(4).position(..), then past the window. */
  function FindHeaderEnd(bytes: Bytes): (end: Option<nat>)
    ensures end.Some? ==> 4 <= end.value <= |bytes|
  {
    FindFrom(bytes, 0)
  }

  function FindFrom(bytes: Bytes, i: nat): (end: Option<nat>)
    ensures end.Some? ==> 4 <= end.value <= |bytes|
    decreases |bytes| - i
  {
    if i + 4 > |bytes| then None
    else if bytes[i..i + 4] == HEAD_END then Some(i + 4)
    else FindFrom(bytes, i + 1)
  }

  lemma {:induction false} FindFromFirst(bytes: Bytes, i: nat)
    ensures match FindFrom(bytes, i)
      case Some(e) => i + 4 <= e && EndsAt(bytes, e) && (forall f: nat :: i + 4 <= f < e ==> !EndsAt(bytes, f))
      case None => forall f: nat :: i + 4 <= f ==> !EndsAt(bytes, f)
    decreases |bytes| - i
  {
    if i + 4 <= |bytes| && bytes[i..i + 4] != HEAD_END {
      FindFromFirst(bytes, i + 1);
      assert !EndsAt(bytes, i + 4);
    }
  }

  /** The first position where a head ends, and none exactly when there is none. */
  lemma HeaderEndIsFirst(bytes: Bytes)
    ensures match FindHeaderEnd(bytes)
      case Some(e) => EndsAt(bytes, e) && (forall f: nat :: f < e ==> !EndsAt(bytes, f))
      case None => forall f: nat :: !EndsAt(bytes, f)
  {
    FindFromFirst(bytes, 0);
  }

  lemma EndsAtPrefix(stream: Bytes, k: nat, e: nat)
    requires k <= |stream|
    ensures EndsAt(stream[..k], e) <==> e <= k && EndsAt(stream, e)
  {
    if 4 <= e <= k {
      assert stream[..k][e - 4..e] == stream[e - 4..e];
    }
  }

  /** Seeing more of the stream never changes an end once found, nor hides one within it. */
  lemma FindPrefix(stream: Bytes, k: nat)
    requires k <= |stream|
    ensures FindHeaderEnd(stream[..k])
         == match FindHeaderEnd(stream) case Some(e) => (if e <= k then Some(e) else None) case None => None
  {
    hide FindHeaderEnd, EndsAt;
    HeaderEndIsFirst(stream);
    HeaderEndIsFirst(stream[..k]);
    forall e: nat ensures EndsAt(stream[..k], e) <==> e <= k && EndsAt(stream, e) {
      EndsAtPrefix(stream, k, e);
    }
  }

  /** What becomes of a stream, however it is divided into reads. */
  function HeadOf(stream: Bytes, max: nat): (head: Result<nat, RequestError>)
    ensures head.Ok? ==> 4 <= head.value <= |stream|
  {
    match FindHeaderEnd(stream)
    case Some(e) => if e <= max then Ok(e) else Err(TooLarge)
    case None => if |stream| < max then Err(Malformed) else Err(TooLarge)
  }

  /**
   The outcome is that of the whole stream, independent of how it arrives: the head is the shortest
   prefix ending in CRLFCRLF, if that ends within max bytes, and no byte is lost or repeated.
   */
  method ReadHttpHead(c: Connection, max: nat) returns (r: Result<(Bytes, Bytes), RequestError>)
    modifies c
    ensures match HeadOf(old(c.unread), max)
      case Ok(e) =>
        && r.Ok? && r.value.0 == old(c.unread)[..e] && r.value.0 + r.value.1 + c.unread == old(c.unread)
        && |r.value.0 + r.value.1| <= max
      case Err(error) => r == Err(error)
  {
    hide FindHeaderEnd, EndsAt;
    ghost var stream := c.unread;
    var buffer := [];
    while true
      invariant |buffer| <= max && buffer + c.unread == stream
      decreases max - |buffer|
    {
      assert stream[..|buffer|] == buffer;
      FindPrefix(stream, |buffer|);
      var end := FindHeaderEnd(buffer);
      if end.Some? {
        HeaderEndIsFirst(buffer);
        return Ok((buffer[..end.value], buffer[end.value..]));
      }
      if |buffer| >= max {
        return Err(TooLarge);
      }
      var remaining := max - |buffer|;
      var piece := c.Read(if remaining < CHUNK then remaining else CHUNK);
      if piece == [] {
        assert stream == buffer;
        return Err(Malformed);
      }
      assert buffer + piece + c.unread == buffer + (piece + c.unread);
      buffer := buffer + piece;
    }
  }
}

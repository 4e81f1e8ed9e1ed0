/**
 The gate of the restricted CONNECT bridge: the request line, the destination policy and the SOCKS5
 handshake stand between a client and the upstream
 (crates/webgate-transport/src/restricted_http_connect.rs). Strings are their UTF-8 bytes.
 */
module HttpConnect {
  import opened Wrappers
  import opened Words
  import opened Decimals
  import opened Frames
  import opened HttpHead
  import opened Socks5
  import opened TransportFailover

  type Bytes = seq<byte>

  const CR: byte := 13
  const LF: byte := 10
  const SPACE: byte := 32
  const TAB: byte := 9
  const COLON: byte := 58
  const OPEN_BRACKET: byte := 91
  const CLOSE_BRACKET: byte := 93
  const CONNECT: Bytes := [67, 79, 78, 78, 69, 67, 84]
  const HTTP11: Bytes := [72, 84, 84, 80, 47, 49, 46, 49]
  const GREETING: Bytes := [5, 1, 0]

  // ---------------------------------------------------------------- the request line

  predicate White(b: byte) {
    b in {TAB, LF, 12, CR, SPACE}
  }

  /** A header line continued by white space. */
  predicate Folded(text: Bytes) {
    exists i | 0 <= i < |text| - 2 :: text[i] == CR && text[i + 1] == LF && text[i + 2] in {SPACE, TAB}
  }

  function FirstLine(text: Bytes): Bytes {
    if text == [] || (|text| > 1 && text[0] == CR && text[1] == LF) then [] else [text[0]] + FirstLine(text[1..])
  }

  function WordLength(s: Bytes): (n: nat)
    ensures n <= |s| && (s != [] && !White(s[0]) ==> n > 0)
  {
    if s == [] || White(s[0]) then 0 else 1 + WordLength(s[1..])
  }

  /** The words of a line, between runs of white space. */
  function Fields(s: Bytes): seq<Bytes>
    decreases |s|
  {
    if s == [] then []
    else if White(s[0]) then Fields(s[1..])
    else [s[..WordLength(s)]] + Fields(s[WordLength(s)..])
  }

  function Find(s: Bytes, b: byte): (i: Option<nat>)
    ensures match i
      case Some(k) => k < |s| && s[k] == b && b !in s[..k]
      case None => b !in s
  {
    if s == [] then None
    else if s[0] == b then Some(0)
    else match Find(s[1..], b)
      case None => None
      case Some(k) =>
        assert s[..k + 1] == [s[0]] + s[1..][..k];
        Some(k + 1)
  }

  function FindLast(s: Bytes, b: byte): (i: Option<nat>)
    ensures match i
      case Some(k) => k < |s| && s[k] == b && b !in s[k + 1..]
      case None => b !in s
  {
    if s == [] then None
    else if s[|s| - 1] == b then Some(|s| - 1)
    else match FindLast(s[..|s| - 1], b)
      case None => None
      case Some(k) =>
        assert s[k + 1..] == s[..|s| - 1][k + 1..] + [s[|s| - 1]];
        Some(k)
  }

  function Text(s: Bytes): string {
    seq(|s|, i requires 0 <= i < |s| => s[i] as char)
  }

  /**
   A slash, question mark, hash, at sign or control character. The control characters above ASCII are
   refused later: they are in no address, no domain and no port.
   */
  predicate Barred(b: byte) {
    b in {47, 63, 35, 64} || b < 32 || b == 127
  }

  /** Host and port of an authority, before either is read. */
  function SplitAuthority(a: Bytes): Option<(Bytes, Bytes)> {
    if a == [] || exists b <- a :: Barred(b) then None
    else if a[0] == OPEN_BRACKET then
      (match Find(a[1..], CLOSE_BRACKET)
       case None => None
       case Some(close) =>
         var host, suffix := a[1..][..close], a[1..][close + 1..];
         if suffix == [] || suffix[0] != COLON || host == [] || suffix[1..] == [] || COLON in suffix[1..] then None
         else Some((host, suffix[1..])))
    else
      (match FindLast(a, COLON)
       case None => None
       case Some(i) => if i == 0 || COLON in a[..i] || i + 1 == |a| then None else Some((a[..i], a[i + 1..])))
  }

  /** What the standard library reads as an IP address. */
  type Addresses = Bytes -> Option<Target>

  function ParseAuthority(address: Addresses, a: Bytes): Result<(Target, word16), RequestError> {
    match SplitAuthority(a)
    case None => Err(Malformed)
    case Some((host, digits)) =>
      match ParseU16(Text(digits))
      case None => Err(Malformed)
      case Some(port) =>
        if port == 0 then Err(Malformed)
        else if address(host).Some? then Ok((address(host).value, port))
        else match NormalizeTargetDomain(host)
          case None => Err(Malformed)
          case Some(n) => Ok((Domain(n), port))
  }

  function ParseConnect(lib: Library, address: Addresses, head: Bytes): Result<(Target, word16), RequestError> {
    if !lib.utf8(head) || Folded(head) then Err(Malformed)
    else
      var fields := Fields(FirstLine(head));
      if fields == [] then Err(Malformed)
      else if fields[0] != CONNECT then Err(MethodNotAllowed)
      else if |fields| != 3 || fields[2] != HTTP11 then Err(Malformed)
      else ParseAuthority(address, fields[1])
  }

  // ---------------------------------------------------------------- printed requests are read back

  predicate Solid(s: Bytes) {
    s != [] && forall b <- s :: !White(b)
  }

  lemma {:induction false} FirstWord(a: Bytes, rest: Bytes)
    requires forall b <- a :: !White(b)
    requires rest == [] || White(rest[0])
    ensures WordLength(a + rest) == |a|
  {
    if a == [] {
      assert a + rest == rest;
    } else {
      assert a[0] in a && (a + rest)[1..] == a[1..] + rest;
      FirstWord(a[1..], rest);
    }
  }

  lemma FieldsFirst(a: Bytes, rest: Bytes)
    requires Solid(a) && (rest == [] || White(rest[0]))
    ensures Fields(a + rest) == [a] + Fields(rest)
  {
    FirstWord(a, rest);
    assert a[0] in a && (a + rest)[..|a|] == a && (a + rest)[|a|..] == rest;
  }

  lemma FieldsSpace(rest: Bytes)
    ensures Fields([SPACE] + rest) == Fields(rest)
  {
    assert ([SPACE] + rest)[1..] == rest;
  }

  lemma {:induction false} LineFront(line: Bytes, rest: Bytes)
    requires CR !in line
    ensures FirstLine(line + [CR, LF] + rest) == line
  {
    var s := line + [CR, LF] + rest;
    if line != [] {
      assert s[1..] == line[1..] + [CR, LF] + rest && s[0] == line[0] && line[0] in line;
      LineFront(line[1..], rest);
      assert line == [line[0]] + line[1..];
    }
  }

  function RequestLine(a: Bytes): Bytes {
    CONNECT + [SPACE] + a + [SPACE] + HTTP11
  }

  /** A well-spaced request line hands its authority on, whatever headers follow. */
  lemma HeadParses(lib: Library, address: Addresses, a: Bytes, rest: Bytes)
    requires Solid(a)
    requires var head := RequestLine(a) + [CR, LF] + rest; lib.utf8(head) && !Folded(head)
    ensures ParseConnect(lib, address, RequestLine(a) + [CR, LF] + rest) == ParseAuthority(address, a)
  {
    hide FirstLine, Fields, ParseAuthority, Folded;
    var line := RequestLine(a);
    forall b <- line ensures b != CR {
      assert b in CONNECT || b == SPACE || b in a || b in HTTP11;
    }
    LineFront(line, rest);
    var tail := [SPACE] + (a + ([SPACE] + HTTP11));
    assert line == CONNECT + tail;
    FieldsFirst(CONNECT, tail);
    FieldsSpace(a + ([SPACE] + HTTP11));
    FieldsFirst(a, [SPACE] + HTTP11);
    FieldsSpace(HTTP11);
    assert HTTP11 + [] == HTTP11;
    FieldsFirst(HTTP11, []);
    assert Fields([]) == [] by { NoFields(); }
  }

  lemma NoFields()
    ensures Fields([]) == []
  {
  }

  /** Host and port of "host:port", or of "[host]:port" where the host may hold colons. */
  lemma SplitPrinted(host: Bytes, digits: Bytes)
    requires host != [] && digits != [] && COLON !in digits
    requires forall b <- host + digits :: !Barred(b)
    ensures COLON !in host && host[0] != OPEN_BRACKET
        ==> SplitAuthority(host + [COLON] + digits) == Some((host, digits))
    ensures CLOSE_BRACKET !in host ==>
      SplitAuthority([OPEN_BRACKET] + host + [CLOSE_BRACKET, COLON] + digits) == Some((host, digits))
  {
    if COLON !in host && host[0] != OPEN_BRACKET {
      PlainSplit(host, digits);
    }
    if CLOSE_BRACKET !in host {
      BracketSplit(host, digits);
    }
  }

  lemma FindIs(s: Bytes, b: byte, k: nat)
    requires k < |s| && s[k] == b && b !in s[..k]
    ensures Find(s, b) == Some(k)
  {
    var i := Find(s, b).value;
    assert forall j | 0 <= j < k :: s[..k][j] == s[j];
    assert forall j | 0 <= j < i :: s[..i][j] == s[j];
  }

  lemma FindLastIs(s: Bytes, b: byte, k: nat)
    requires k < |s| && s[k] == b && b !in s[k + 1..]
    ensures FindLast(s, b) == Some(k)
  {
    var i := FindLast(s, b).value;
    assert forall j | k < j < |s| :: s[k + 1..][j - k - 1] == s[j];
    assert forall j | i < j < |s| :: s[i + 1..][j - i - 1] == s[j];
  }

  lemma PlainSplit(host: Bytes, digits: Bytes)
    requires host != [] && digits != [] && COLON !in digits && COLON !in host && host[0] != OPEN_BRACKET
    requires forall b <- host + digits :: !Barred(b)
    ensures SplitAuthority(host + [COLON] + digits) == Some((host, digits))
  {
    hide FindLast;
    var a := host + [COLON] + digits;
    assert forall b <- a :: b in host + digits || b == COLON;
    assert a[..|host|] == host && a[|host| + 1..] == digits;
    FindLastIs(a, COLON, |host|);
  }

  lemma BracketSplit(host: Bytes, digits: Bytes)
    requires host != [] && digits != [] && COLON !in digits && CLOSE_BRACKET !in host
    requires forall b <- host + digits :: !Barred(b)
    ensures SplitAuthority([OPEN_BRACKET] + host + [CLOSE_BRACKET, COLON] + digits) == Some((host, digits))
  {
    hide Find;
    var a := [OPEN_BRACKET] + host + [CLOSE_BRACKET, COLON] + digits;
    assert forall b <- a :: b in host + digits || b == COLON || b == OPEN_BRACKET || b == CLOSE_BRACKET;
    var s := a[1..];
    assert s == host + [CLOSE_BRACKET, COLON] + digits;
    assert s[..|host|] == host && s[|host| + 1..] == [COLON] + digits;
    FindIs(s, CLOSE_BRACKET, |host|);
    assert ([COLON] + digits)[1..] == digits;
  }

  function Code(c: char): byte
    requires Digit(c)
  {
    c as int
  }

  function Ascii(s: string): Bytes
    requires AllDigits(s)
  {
    seq(|s|, i requires 0 <= i < |s| => assert s[i] in s; Code(s[i]))
  }

  /** host:port as a client prints it, an address with colons in brackets. */
  function Authority(host: Bytes, port: word16): Bytes {
    DecimalNumeral(port);
    (if COLON in host then [OPEN_BRACKET] + host + [CLOSE_BRACKET] else host) + [COLON] + Ascii(Decimal(port))
  }

  predicate Printable(host: Bytes) {
    host != [] && host[0] != OPEN_BRACKET && CLOSE_BRACKET !in host && forall b <- host :: !Barred(b) && !White(b)
  }

  lemma PrintedDigits(port: word16)
    ensures AllDigits(Decimal(port))
    ensures var d := Ascii(Decimal(port)); d != [] && ParseU16(Text(d)) == Some(port) && forall b <- d :: 48 <= b <= 57
  {
    hide Decimal, ParseU16;
    DecimalNumeral(port);
    DecimalParse(port);
    var s := Decimal(port);
    assert forall i | 0 <= i < |s| :: s[i] in s;
    assert Text(Ascii(s)) == s;
  }

  /** A request printed for a host and port is read as that host, an address or a normalised domain, and that port. */
  lemma PrintedParses(lib: Library, address: Addresses, host: Bytes, port: word16, rest: Bytes)
    requires Printable(host) && port > 0
    requires var head := RequestLine(Authority(host, port)) + [CR, LF] + rest; lib.utf8(head) && !Folded(head)
    ensures ParseConnect(lib, address, RequestLine(Authority(host, port)) + [CR, LF] + rest)
         == match address(host)
              case Some(t) => Ok((t, port))
              case None => match NormalizeTargetDomain(host)
                case Some(n) => Ok((Domain(n), port))
                case None => Err(Malformed)
  {
    hide ParseConnect, SplitAuthority, NormalizeTargetDomain, ParseU16, Decimal, Ascii, Text, Folded, RequestLine;
    PrintedDigits(port);
    var a, d := Authority(host, port), Ascii(Decimal(port));
    assert forall b <- a :: b in host || b in d || b == COLON || b == OPEN_BRACKET || b == CLOSE_BRACKET;
    HeadParses(lib, address, a, rest);
    assert [OPEN_BRACKET] + host + [CLOSE_BRACKET] + [COLON] + d == [OPEN_BRACKET] + host + [CLOSE_BRACKET, COLON] + d;
    SplitPrinted(host, d);
  }

  // ---------------------------------------------------------------- the gate

  /** The end of the head, the target and the port of a client let through, or the HTTP status it is refused with. */
  function Gate(lib: Library, address: Addresses, policy: DestinationPolicy, state: TransportState, stream: Bytes,
                max: nat):
    (gate: Result<(nat, Target, word16), int>)
    ensures gate.Ok? ==> gate.value.0 <= |stream|
  {
    if state != Ready then Err(503)
    else match HeadOf(stream, max)
      case Err(e) => Err(if e == TooLarge then 431 else 400)
      case Ok(end) =>
        match ParseConnect(lib, address, stream[..end])
        case Err(e) => Err(if e == MethodNotAllowed then 405 else 400)
        case Ok((t, port)) =>
          if port in policy.allowedPorts && DomainsAllow(lib, policy.allowedDomains, t)
          then Ok((end, t, port)) else Err(403)
  }

  /** The code of a reply, once it has been read whole (section 6 of RFC 1928). */
  function DecodeReply(s: Bytes): Option<byte> {
    if |s| < 4 || s[0] != 5 || s[2] != 0 then None
    else if s[3] == 1 then (if |s| < 10 then None else Some(s[1]))
    else if s[3] == 3 then (if |s| < 5 || |s| < 7 + s[4] as int then None else Some(s[1]))
    else if s[3] == 4 then (if |s| < 22 then None else Some(s[1]))
    else None
  }

  method ReadUpstreamReply(r: Source) returns (code: Option<byte>)
    modifies r
    ensures code == DecodeReply(old(r.unread))
  {
    ghost var s := r.unread;
    var ok, header := r.ReadFull(4);
    if !ok || header[0] != 5 || header[2] != 0 {
      return None;
    }
    var rest;
    match header[3] {
      case 1 => ok, rest := r.ReadFull(6);
      case 3 =>
        var length;
        ok, length := r.ReadFull(1);
        if !ok {
          return None;
        }
        assert length[0] == s[4];
        ok, rest := r.ReadFull(length[0] as int + 2);
      case 4 => ok, rest := r.ReadFull(18);
      case _ => return None;
    }
    return if ok then Some(header[1]) else None;
  }

  /** What a connection with room for n more bytes takes of s. */
  function Cut(s: Bytes, n: nat): Bytes {
    if |s| <= n then s else s[..n]
  }

  /** What was read past the head goes first, then the rest of the client's stream. */
  method HandOver(c: Connection, w: Sink, tail: Bytes)
    modifies c, w
    ensures w.written == old(w.written) + Cut(tail + old(c.unread), old(w.room))
  {
    ghost var all, start, room := tail + c.unread, w.written, w.room;
    var open := true;
    if tail != [] {
      open := w.Write(tail);
    }
    ghost var k: nat := |tail|;
    assert all[..k] == tail && all[k..] == c.unread;
    while open
      invariant open
          ==> k <= |all| && k <= room && w.room == room - k && w.written == start + all[..k] && c.unread == all[k..]
      invariant !open ==> w.written == start + Cut(all, room)
      decreases |c.unread|, open
    {
      var piece := c.Read(16 * 1024);
      if piece == [] {
        open := false;
      } else {
        assert all[k..k + |piece|] == piece && all[k + |piece|..] == c.unread;
        assert all[..k + |piece|] == all[..k] + piece;
        open := w.Write(piece);
        k := k + |piece|;
      }
    }
  }

  /** The bridge's state, shared by its clients. */
  class Bridge {
    var state: TransportState

    constructor (state: TransportState)
      ensures this.state == state
    {
      this.state := state;
    }
  }

  /** Does the upstream take the greeting and the request, and answer both with success? */
  predicate Granted(replies: Bytes, room: nat, request: Bytes) {
    |GREETING + request| <= room && |replies| >= 2 && replies[..2] == [5, 0] && DecodeReply(replies[2..]) == Some(0)
  }

  /** Does it fail to take the greeting, refuse it, or answer the request with no whole reply? */
  predicate Faulty(replies: Bytes, room: nat, request: Bytes) {
    || room < |GREETING| || |replies| < 2 || replies[..2] != [5, 0]
    || (|GREETING + request| <= room && DecodeReply(replies[2..]).None?)
  }

  /** The SOCKS5 side of one client: the status it gets. A faulty upstream takes the bridge offline. */
  method Ask(bridge: Bridge, r: Source, w: Sink, target: Target, port: word16) returns (status: int)
    requires EncodeRequest(target, port).Some?
    modifies bridge, r, w
    ensures var request := EncodeRequest(target, port).value;
      && status == (if Granted(old(r.unread), old(w.room), request) then 200 else 502)
      && bridge.state == (if Faulty(old(r.unread), old(w.room), request) then Offline else old(bridge.state))
      && w.written <= old(w.written) + (GREETING + request)
      && (status == 200 ==>
          w.written == old(w.written) + (GREETING + request) && w.room == old(w.room) - |GREETING + request|)
  {
    hide EncodeRequest, DecodeReply;
    ghost var request, replies := EncodeRequest(target, port).value, r.unread;
    var ok := w.Write(GREETING);
    var answer;
    if ok {
      ok, answer := r.ReadFull(2);
    }
    if !ok || answer != [5, 0] {
      bridge.state := Offline;
      return 502;
    }
    assert old(w.written) + GREETING + request == old(w.written) + (GREETING + request);
    ok := WriteConnectRequest(w, target, port);
    if !ok {
      return 502;
    }
    var code := ReadUpstreamReply(r);
    if code.None? {
      bridge.state := Offline;
      return 502;
    }
    return if code.value == 0 then 200 else 502;
  }

  // ---------------------------------------------------------------- what comes through

  /** Addresses are of the right length, and printable ASCII is UTF-8. */
  ghost predicate Sensible(lib: Library, address: Addresses) {
    && Lawful(lib)
    && forall host {:trigger address(host)} ::
         address(host).Some? ==> WellFormed(address(host).value) && !address(host).value.Domain?
  }

  /** What a request line names is an address, or a domain in normal form that is none; and a port. */
  lemma ParsedTarget(lib: Library, address: Addresses, head: Bytes)
    requires Sensible(lib, address) && ParseConnect(lib, address, head).Ok?
    ensures var (t, port) := ParseConnect(lib, address, head).value;
      port > 0 && WellFormed(t) && Normalized(t) == Some(t) && EncodeRequest(t, port).Some?
  {
    hide NormalizeTargetDomain, SplitAuthority, ParseU16, Fields, FirstLine, Folded;
    var a := Fields(FirstLine(head))[1];
    var (host, digits) := SplitAuthority(a).value;
    if address(host).None? {
      NormalizeIdempotent(host);
      NormalForm(host);
      NormalForm(NormalizeTargetDomain(host).value);
    }
  }

  /**
   Only an allowed destination is ever asked for: the request sent for a client that is let through reads
   back, whatever follows it, as the target of the client's request line, which the policy allows.
   */
  lemma AskedAllowed(lib: Library, address: Addresses, policy: DestinationPolicy, state: TransportState,
                     stream: Bytes, max: nat, rest: Bytes)
    requires Sensible(lib, address) && Gate(lib, address, policy, state, stream, max).Ok?
    ensures var (end, t, port) := Gate(lib, address, policy, state, stream, max).value;
      && HeadOf(stream, max) == Ok(end) && ParseConnect(lib, address, stream[..end]) == Ok((t, port))
      && EncodeRequest(t, port).Some?
      && DecodeRequest(lib, EncodeRequest(t, port).value + rest) == Ok((t, port, rest))
      && port in policy.allowedPorts && DomainsAllow(lib, policy.allowedDomains, t)
  {
    hide ParseConnect, HeadOf, DomainsAllow, EncodeRequest, DecodeRequest, Normalized;
    var (end, t, port) := Gate(lib, address, policy, state, stream, max).value;
    ParsedTarget(lib, address, stream[..end]);
    RequestRoundTrip(lib, t, port, rest);
  }

  /** The gate, as the client's bytes arrive: what was read past the head, the target and the port. */
  method Admit(lib: Library, address: Addresses, policy: DestinationPolicy, state: TransportState, max: nat,
               c: Connection)
    returns (gate: Result<(Bytes, Target, word16), int>)
    requires Ascending(policy.allowedPorts)
    modifies c
    ensures match Gate(lib, address, policy, state, old(c.unread), max)
      case Err(code) => gate == Err(code)
      case Ok((end, t, port)) =>
        && gate.Ok? && gate.value.0 + c.unread == old(c.unread)[end..]
        && gate.value.1 == t && gate.value.2 == port
  {
    hide HeadOf, ParseConnect, DomainsAllow;
    if state != Ready {
      return Err(503);
    }
    ghost var stream := c.unread;
    var read := ReadHttpHead(c, max);
    if read.Err? {
      return Err(if read.error == TooLarge then 431 else 400);
    }
    var (head, tail) := read.value;
    assert stream == head + (tail + c.unread);
    assert stream[..|head|] == head && stream[|head|..] == tail + c.unread;
    var parsed := ParseConnect(lib, address, head);
    if parsed.Err? {
      return Err(if parsed.error == MethodNotAllowed then 405 else 400);
    }
    var (target, port) := parsed.value;
    var allowed := Allows(lib, policy, target, port);
    if !allowed {
      return Err(403);
    }
    return Ok((tail, target, port));
  }

  lemma GateTarget(lib: Library, address: Addresses, policy: DestinationPolicy, state: TransportState, stream: Bytes,
                   max: nat)
    requires Sensible(lib, address) && Gate(lib, address, policy, state, stream, max).Ok?
    ensures var (end, t, port) := Gate(lib, address, policy, state, stream, max).value; EncodeRequest(t, port).Some?
  {
    hide HeadOf, ParseConnect, DomainsAllow, EncodeRequest, Sensible;
    ParsedTarget(lib, address, stream[..Gate(lib, address, policy, state, stream, max).value.0]);
  }

  lemma CutAfter(a: Bytes, b: Bytes, room: nat)
    requires |a| <= room
    ensures Cut(a + b, room) == a + Cut(b, room - |a|)
  {
  }

  /**
   One client, however its bytes and the upstream's arrive. Refused at the gate, or unreached, it leaves
   the upstream alone; otherwise the upstream is sent the greeting and the request for the allowed
   target, and the client's bytes after its head only when both are granted.
   */
  method HandleClient(lib: Library, address: Addresses, policy: DestinationPolicy, max: nat, bridge: Bridge,
    c: Connection, reach: bool, r: Source, w: Sink) returns (status: int)
    requires Ascending(policy.allowedPorts) && Sensible(lib, address)
    modifies bridge, c, r, w
    ensures match Gate(lib, address, policy, old(bridge.state), old(c.unread), max)
      case Err(code) => status == code && w.written == old(w.written) && bridge.state == old(bridge.state)
      case Ok((end, t, port)) =>
        EncodeRequest(t, port).Some? && var request := EncodeRequest(t, port).value;
        if !reach then status == 502 && w.written == old(w.written) && bridge.state == Offline
        else
          && status == (if Granted(old(r.unread), old(w.room), request) then 200 else 502)
          && bridge.state == (if Faulty(old(r.unread), old(w.room), request) then Offline else old(bridge.state))
          && (status == 200
              ==> w.written == old(w.written) + Cut(GREETING + request + old(c.unread)[end..], old(w.room)))
          && (status != 200 ==> w.written <= old(w.written) + (GREETING + request))
  {
    hide Gate, EncodeRequest, Granted, Faulty, Sensible, Cut;
    ghost var stream, start, room := c.unread, w.written, w.room;
    var gate := Admit(lib, address, policy, bridge.state, max, c);
    if gate.Err? {
      return gate.error;
    }
    GateTarget(lib, address, policy, bridge.state, stream, max);
    if !reach {
      bridge.state := Offline;
      return 502;
    }
    var (tail, target, port) := gate.value;
    status := Ask(bridge, r, w, target, port);
    if status == 200 {
      CutAfter(GREETING + EncodeRequest(target, port).value, tail + c.unread, room);
      HandOver(c, w, tail);
    }
  }
}

/**
 What the CONNECT bridge lets through, told apart from how it is parsed: the grammar of the request line, the
 status each client gets, and the SOCKS5 messages
 (crates/webgate-transport/src/restricted_http_connect.rs:283-460,
 crates/webgate-transport/src/socks5_proto.rs:164-192 and 254-292).
 */
module HttpGate {
  import opened Wrappers
  import opened Words
  import opened Arith
  import opened Decimals
  import opened LittleEndian
  import opened Frames
  import opened HttpHead
  import opened Socks5
  import opened TransportFailover
  import opened HttpConnect

  // ---------------------------------------------------------------- replies of the upstream

  /** Where the upstream is bound: an address, or a name of at most 255 bytes. */
  predicate Bound(t: Target) {
    WellFormed(t) && (t.Domain? ==> |t.name| <= 255)
  }

  /** Section 6 of RFC 1928: version, reply code, a reserved zero, address type, address and port. */
  function EncodeReply(code: byte, bound: Target, port: word16): (s: Bytes)
    requires Bound(bound)
    ensures |s| >= 7
  {
    [5, code, 0] + (match bound
      case V4(octets) => [1] + octets
      case Domain(name) => [3, |name|] + name
      case V6(octets) => [4] + octets)
    + ToBigEndian(port, 2)
  }

  /** A reply is read for its code, whatever it says of the address and whatever follows. */
  lemma ReplyRoundTrip(code: byte, bound: Target, port: word16, rest: Bytes)
    requires Bound(bound)
    ensures DecodeReply(EncodeReply(code, bound, port) + rest) == Some(code)
  {
    hide ToBigEndian;
  }

  /** A reply cut short is none. */
  lemma ReplyTruncated(code: byte, bound: Target, port: word16, k: nat)
    requires Bound(bound) && k < |EncodeReply(code, bound, port)|
    ensures DecodeReply(EncodeReply(code, bound, port)[..k]) == None
  {
    hide ToBigEndian;
  }

  /** The bytes are one reply with this code, and whatever follows it. */
  ghost predicate StartsWithReply(s: Bytes, code: byte) {
    exists bound: Target, port: word16, rest: Bytes :: Bound(bound) && s == EncodeReply(code, bound, port) + rest
  }

  /** Only replies are read. */
  lemma ReplyExactly(s: Bytes, code: byte)
    ensures DecodeReply(s) == Some(code) <==> StartsWithReply(s, code)
  {
    hide ToBigEndian;
    if DecodeReply(s) == Some(code) {
      var bound, n := ReplyAddress(s);
      var port := PortAt(s, n);
      assert s == EncodeReply(code, bound, port) + s[n + 2..] by {
        assert s == s[..n] + s[n..n + 2] + s[n + 2..];
      }
    }
    if bound: Target, port: word16, rest: Bytes :| Bound(bound) && s == EncodeReply(code, bound, port) + rest {
      ReplyRoundTrip(code, bound, port, rest);
    }
  }

  lemma ReplyAddress(s: Bytes) returns (bound: Target, n: nat)
    requires DecodeReply(s).Some?
    ensures Bound(bound) && 4 <= n && n + 2 <= |s|
    ensures forall port: word16 :: EncodeReply(s[1], bound, port) == s[..n] + ToBigEndian(port, 2)
  {
    hide ToBigEndian;
    if s[3] == 1 {
      bound, n := V4(s[4..8]), 8;
    } else if s[3] == 3 {
      bound, n := Domain(s[5..5 + s[4] as int]), 5 + s[4] as int;
    } else {
      bound, n := V6(s[4..20]), 20;
    }
  }

  lemma PortAt(s: Bytes, n: nat) returns (port: word16)
    requires n + 2 <= |s|
    ensures ToBigEndian(port, 2) == s[n..n + 2]
  {
    var p := s[n..n + 2];
    BigEndianBytes(p);
    assert Pow(256, 2) == 256 * Pow(256, 1) == 0x1_0000;
    port := BigEndianValue(p);
  }

  /** The client is let through exactly when the upstream takes both messages, and grants both. */
  lemma GrantedExactly(replies: Bytes, room: nat, request: Bytes)
    ensures Granted(replies, room, request)
       <==> |GREETING + request| <= room && |replies| >= 2 && replies[..2] == [5, 0] && StartsWithReply(replies[2..], 0)
  {
    hide DecodeReply, StartsWithReply;
    if |replies| >= 2 {
      ReplyExactly(replies[2..], 0);
    }
  }

  // ---------------------------------------------------------------- lines and words

  /** The five bytes of ASCII white space. */
  predicate Gap(b: byte) {
    (b as char) in " \t\n\r" || b == 0x0C
  }

  predicate Gaps(s: Bytes) {
    forall i :: 0 <= i < |s| ==> Gap(s[i])
  }

  predicate Word(s: Bytes) {
    s != [] && forall i :: 0 <= i < |s| ==> !Gap(s[i])
  }

  lemma GapWhite(b: byte)
    ensures Gap(b) <==> White(b)
  {
  }

  /** Nothing but white space holds no words, and nothing else. */
  lemma {:induction false} NoWords(s: Bytes)
    ensures Fields(s) == [] <==> Gaps(s)
  {
    if s != [] {
      GapWhite(s[0]);
      NoWords(s[1..]);
      if White(s[0]) {
        assert Gaps(s) <==> Gaps(s[1..]) by { assert forall i :: 0 < i < |s| ==> s[i] == s[1..][i - 1]; }
      }
    }
  }

  lemma {:induction false} LeadingWord(s: Bytes)
    ensures forall i :: 0 <= i < WordLength(s) ==> !Gap(s[i])
    ensures WordLength(s) < |s| ==> Gap(s[WordLength(s)])
  {
    if s != [] {
      GapWhite(s[0]);
      if !White(s[0]) {
        LeadingWord(s[1..]);
        assert forall i :: 0 < i < |s| ==> s[i] == s[1..][i - 1];
      }
    }
  }

  /** A line with words starts with a gap, the first of them, and the rest. */
  lemma {:induction false} FirstOfWords(s: Bytes) returns (gap: Bytes, rest: Bytes)
    requires Fields(s) != []
    ensures Gaps(gap) && Word(Fields(s)[0]) && s == gap + Fields(s)[0] + rest
    ensures Fields(rest) == Fields(s)[1..] && (rest == [] || Gap(rest[0]))
  {
    GapWhite(s[0]);
    if White(s[0]) {
      gap, rest := FirstOfWords(s[1..]);
      assert s == [s[0]] + s[1..];
      gap := [s[0]] + gap;
      assert s == gap + Fields(s)[0] + rest;
    } else {
      var n := WordLength(s);
      LeadingWord(s);
      gap, rest := [], s[n..];
      assert s == gap + s[..n] + rest;
    }
  }

  lemma {:induction false} WordAfterGap(gap: Bytes, word: Bytes, rest: Bytes)
    requires Gaps(gap) && Word(word) && (rest == [] || Gap(rest[0]))
    ensures Fields(gap + word + rest) == [word] + Fields(rest)
  {
    if gap == [] {
      assert gap + word + rest == word + rest;
      forall b <- word
        ensures !White(b)
      {
        GapWhite(b);
      }
      if rest != [] {
        GapWhite(rest[0]);
      }
      FieldsFirst(word, rest);
    } else {
      GapWhite(gap[0]);
      var s := gap + word + rest;
      assert s[1..] == gap[1..] + word + rest;
      WordAfterGap(gap[1..], word, rest);
    }
  }

  /** Three words with white space between them, and maybe around them. */
  ghost predicate ThreeWords(line: Bytes, a: Bytes, b: Bytes, c: Bytes) {
    exists g0: Bytes, g1: Bytes, g2: Bytes, g3: Bytes ::
      && Gaps(g0) && Gaps(g1) && g1 != [] && Gaps(g2) && g2 != [] && Gaps(g3)
      && Word(a) && Word(b) && Word(c) && line == g0 + a + (g1 + b + (g2 + c + g3))
  }

  lemma WordsExactly(line: Bytes, a: Bytes, b: Bytes, c: Bytes)
    ensures Fields(line) == [a, b, c] <==> ThreeWords(line, a, b, c)
  {
    hide Gap, Fields, White;
    if Fields(line) == [a, b, c] {
      var g0, r0 := FirstOfWords(line);
      var g1, r1 := FirstOfWords(r0);
      var g2, r2 := FirstOfWords(r1);
      NoWords(r2);
      assert line == g0 + a + (g1 + b + (g2 + c + r2));
      SplitGap(g1, b, r0);
      SplitGap(g2, c, r1);
    }
    if g0: Bytes, g1: Bytes, g2: Bytes, g3: Bytes :|
         Gaps(g0) && Gaps(g1) && g1 != [] && Gaps(g2) && g2 != [] && Gaps(g3)
         && Word(a) && Word(b) && Word(c) && line == g0 + a + (g1 + b + (g2 + c + g3)) {
      NoWords(g3);
      WordAfterGap(g2, c, g3);
      WordAfterGap(g1, b, g2 + c + g3);
      WordAfterGap(g0, a, g1 + b + (g2 + c + g3));
      assert [a] + ([b] + ([c] + [])) == [a, b, c];
    }
  }

  /** What starts with white space starts with a gap before its first word. */
  lemma SplitGap(gap: Bytes, word: Bytes, s: Bytes)
    requires s != [] && Gap(s[0]) && Word(word) && gap + word <= s
    ensures gap != []
  {
    assert (gap + word)[0] == s[0];
  }

  /** The first line ends before the first CR LF, or with the text. */
  predicate LineOf(text: Bytes, line: Bytes) {
    && line <= text && (|line| == |text| || [13, 10] <= text[|line|..])
    && forall i :: 0 <= i < |line| && i + 1 < |text| ==> !(text[i] == 13 && text[i + 1] == 10)
  }

  lemma {:induction false} FirstLineIs(text: Bytes)
    ensures LineOf(text, FirstLine(text))
  {
    if FirstLine(text) != [] {
      FirstLineIs(text[1..]);
      var line := FirstLine(text);
      assert text == [text[0]] + text[1..] && line[1..] == FirstLine(text[1..]);
      assert text[|line|..] == text[1..][|line| - 1..];
      assert forall i :: 0 < i < |text| ==> text[i] == text[1..][i - 1];
    }
  }

  lemma OneLine(text: Bytes, a: Bytes, b: Bytes)
    requires LineOf(text, a) && LineOf(text, b) && |a| <= |b|
    ensures a == b
  {
    var k := |a|;
    assert text[k..] != [] ==> text[k..][0] == text[k];
    assert |text[k..]| > 1 ==> text[k..][1] == text[k + 1];
  }

  lemma LineExactly(text: Bytes, line: Bytes)
    ensures FirstLine(text) == line <==> LineOf(text, line)
  {
    hide FirstLine, LineOf;
    FirstLineIs(text);
    if LineOf(text, line) {
      if |line| <= |FirstLine(text)| {
        OneLine(text, line, FirstLine(text));
      } else {
        OneLine(text, FirstLine(text), line);
      }
    }
  }

  /** A header line is continued where CR LF is followed by a space or a tab. */
  lemma FoldedExactly(text: Bytes)
    ensures Folded(text) <==> exists pre: Bytes, post: Bytes ::
      text == pre + [13, 10, 32] + post || text == pre + [13, 10, 9] + post
  {
    if Folded(text) {
      var i :| 0 <= i < |text| - 2 && text[i] == CR && text[i + 1] == LF && text[i + 2] in {SPACE, TAB};
      assert text == text[..i] + [13, 10, text[i + 2]] + text[i + 3..];
    }
    if pre: Bytes, post: Bytes :| text == pre + [13, 10, 32] + post || text == pre + [13, 10, 9] + post {
      assert text[|pre|] == CR && text[|pre| + 1] == LF && text[|pre| + 2] in {SPACE, TAB};
    }
  }

  // ---------------------------------------------------------------- the request line

  /** A slash, question mark, hash, at sign or ASCII control character. */
  predicate Forbidden(b: byte) {
    (b as char) in "/?#@" || b < 0x20 || b == 0x7F
  }

  /** An authority is host:port, or [host]:port where the host may hold colons. */
  predicate Names(a: Bytes, host: Bytes, digits: Bytes) {
    && host != [] && digits != [] && COLON !in digits && (forall b <- a :: !Forbidden(b))
    && if a != [] && a[0] == OPEN_BRACKET
       then a == [OPEN_BRACKET] + host + [CLOSE_BRACKET, COLON] + digits && CLOSE_BRACKET !in host
       else a == host + [COLON] + digits && COLON !in host
  }

  lemma ForbiddenBarred(a: Bytes)
    ensures (forall b <- a :: !Forbidden(b)) <==> (forall b <- a :: !Barred(b))
  {
    forall b: byte
      ensures Forbidden(b) <==> Barred(b)
    {
    }
  }

  lemma NamesSplit(a: Bytes, host: Bytes, digits: Bytes)
    requires Names(a, host, digits)
    ensures SplitAuthority(a) == Some((host, digits))
  {
    hide SplitAuthority, Forbidden, Barred;
    ForbiddenBarred(a);
    if a[0] == OPEN_BRACKET {
      BracketSplit(host, digits);
    } else {
      assert host[0] == a[0];
      PlainSplit(host, digits);
    }
  }

  lemma BracketNames(a: Bytes)
    requires SplitAuthority(a).Some? && a[0] == OPEN_BRACKET
    ensures var (host, digits) := SplitAuthority(a).value; Names(a, host, digits)
  {
    hide Find, FindLast, Barred, Forbidden;
    ForbiddenBarred(a);
    var k := Find(a[1..], CLOSE_BRACKET).value;
    var suffix := a[1..][k + 1..];
    assert a == [OPEN_BRACKET] + a[1..][..k] + ([CLOSE_BRACKET] + suffix);
    assert [CLOSE_BRACKET] + suffix == [CLOSE_BRACKET, COLON] + suffix[1..];
  }

  lemma ColonNames(a: Bytes)
    requires SplitAuthority(a).Some? && a[0] != OPEN_BRACKET
    ensures var (host, digits) := SplitAuthority(a).value; Names(a, host, digits)
  {
    hide Find, FindLast, Barred, Forbidden;
    ForbiddenBarred(a);
    var i := FindLast(a, COLON).value;
    assert a == a[..i] + [COLON] + a[i + 1..];
  }

  lemma Parted(a: Bytes)
    requires SplitAuthority(a).Some?
    ensures a != []
  {
  }

  lemma SplitExactly(a: Bytes, host: Bytes, digits: Bytes)
    ensures SplitAuthority(a) == Some((host, digits)) <==> Names(a, host, digits)
  {
    hide SplitAuthority, Names;
    if Names(a, host, digits) {
      NamesSplit(a, host, digits);
    }
    if SplitAuthority(a) == Some((host, digits)) {
      Parted(a);
      if a[0] == OPEN_BRACKET {
        BracketNames(a);
      } else {
        ColonNames(a);
      }
    }
  }

  /** What host and port of an authority stand for. */
  predicate Meant(address: Addresses, host: Bytes, digits: Bytes, target: Target, port: word16) {
    && port > 0 && ParseU16(Text(digits)) == Some(port)
    && (address(host) == Some(target)
        || (address(host) == None && target.Domain? && NormalizeTargetDomain(host) == Some(target.name)))
  }

  lemma AuthorityExactly(address: Addresses, a: Bytes, target: Target, port: word16)
    ensures ParseAuthority(address, a) == Ok((target, port))
       <==> exists host, digits :: Names(a, host, digits) && Meant(address, host, digits, target, port)
  {
    hide SplitAuthority, Names, ParseU16, NormalizeTargetDomain, Text;
    if SplitAuthority(a).Some? {
      var (host, digits) := SplitAuthority(a).value;
      SplitExactly(a, host, digits);
    }
    if host, digits :| Names(a, host, digits) && Meant(address, host, digits, target, port) {
      SplitExactly(a, host, digits);
    }
  }

  lemma Written()
    ensures Text(CONNECT) == "CONNECT" && Text(HTTP11) == "HTTP/1.1"
  {
  }

  lemma SameText(a: Bytes, b: Bytes)
    requires Text(a) == Text(b)
    ensures a == b
  {
    assert |a| == |Text(a)| == |b|;
    forall i | 0 <= i < |a|
      ensures a[i] == b[i]
    {
      assert Text(a)[i] == a[i] as char && Text(b)[i] == b[i] as char;
    }
  }

  /**
   A request is read as a target and port exactly when it is UTF-8 without a continued header line, its first line
   is the three words CONNECT, authority and HTTP/1.1, and the authority names them.
   */
  lemma ParsedExactly(lib: Library, address: Addresses, head: Bytes, target: Target, port: word16)
    ensures ParseConnect(lib, address, head) == Ok((target, port))
       <==> lib.utf8(head) && !Folded(head) && exists line, method', a, version, host, digits ::
         && LineOf(head, line) && ThreeWords(line, method', a, version)
         && Text(method') == "CONNECT" && Text(version) == "HTTP/1.1"
         && Names(a, host, digits) && Meant(address, host, digits, target, port)
  {
    hide ParseAuthority, Folded, Fields, FirstLine, Names, Meant, LineOf, ThreeWords, Text;
    Written();
    var line := FirstLine(head);
    var fields := Fields(line);
    LineExactly(head, line);
    if |fields| == 3 {
      AuthorityExactly(address, fields[1], target, port);
      WordsExactly(line, fields[0], fields[1], fields[2]);
      assert fields == [fields[0], fields[1], fields[2]];
    }
    if line', method', a, version, host, digits :|
         LineOf(head, line') && ThreeWords(line', method', a, version)
         && Text(method') == "CONNECT" && Text(version) == "HTTP/1.1"
         && Names(a, host, digits) && Meant(address, host, digits, target, port) {
      LineExactly(head, line');
      WordsExactly(line, method', a, version);
      SameText(method', CONNECT);
      SameText(version, HTTP11);
    }
  }

  // ---------------------------------------------------------------- statuses

  /** The first line has words, and the first of them is not CONNECT. */
  predicate OtherMethod(lib: Library, head: Bytes) {
    var fields := Fields(FirstLine(head));
    lib.utf8(head) && !Folded(head) && fields != [] && fields[0] != CONNECT
  }

  /** Which client gets which status before the upstream is reached (RFC 9110, section 15; RFC 6585, section 5). */
  lemma StatusExactly(lib: Library, address: Addresses, policy: DestinationPolicy, state: TransportState,
                      stream: Bytes, max: nat)
    ensures var gate, head := Gate(lib, address, policy, state, stream, max), HeadOf(stream, max);
      && (gate == Err(503) <==> state != Ready)
      && (gate == Err(431) <==> state == Ready && head == Err(TooLarge))
      && (gate == Err(405) <==>
            state == Ready && head.Ok? && OtherMethod(lib, stream[..head.value]))
      && (gate == Err(403) <==>
            state == Ready && head.Ok? && ParseConnect(lib, address, stream[..head.value]).Ok?
            && var (t, port) := ParseConnect(lib, address, stream[..head.value]).value;
            !(port in policy.allowedPorts && DomainsAllow(lib, policy.allowedDomains, t)))
      && (gate.Err? ==> gate.error in {503, 431, 405, 403, 400})
  {
    hide HeadOf, DomainsAllow, ParseAuthority, Folded, Fields, FirstLine;
    if HeadOf(stream, max).Ok? {
      OnlyMalformed(address, Fields(FirstLine(stream[..HeadOf(stream, max).value])));
    }
  }

  lemma OnlyMalformed(address: Addresses, fields: seq<Bytes>)
    ensures |fields| > 1 ==> ParseAuthority(address, fields[1]) != Err(MethodNotAllowed)
  {
    hide SplitAuthority, NormalizeTargetDomain, ParseU16;
  }

  // ---------------------------------------------------------------- the greeting

  /** What the side that serves SOCKS5 makes of a greeting; None when it is cut short. */
  function Negotiation(s: Bytes): Option<bool> {
    if |s| < 2 then None
    else if s[0] != 5 || s[1] == 0 then Some(false)
    else if |s| < 2 + s[1] as int then None
    else Some(0 in s[2..2 + s[1] as int])
  }

  /** negotiate_local_client: the answer that goes back, and whether the client may go on. */
  method NegotiateLocalClient(r: Source, w: Sink) returns (accepted: Option<bool>)
    modifies r, w
    ensures match Negotiation(old(r.unread))
      case None => accepted == None && w.written == old(w.written)
      case Some(yes) =>
        var answer := [5, if yes then 0 else 0xff];
        && accepted == (if old(w.room) >= 2 then Some(yes) else None)
        && w.written == old(w.written) + Cut(answer, old(w.room))
  {
    ghost var s := r.unread;
    var ok, greeting := r.ReadFull(2);
    if !ok {
      return None;
    }
    if greeting[0] != 5 || greeting[1] == 0 {
      ok := w.Write([5, 0xff]);
      return if ok then Some(false) else None;
    }
    var methods;
    ok, methods := r.ReadFull(greeting[1] as int);
    if !ok {
      return None;
    }
    assert methods == s[2..2 + s[1] as int];
    var yes := 0 in methods;
    ok := w.Write([5, if yes then 0 else 0xff]);
    return if ok then Some(yes) else None;
  }

  /** Section 3 of RFC 1928: accepted are the greetings of version 5 that offer no authentication, method 0. */
  lemma NegotiationExactly(s: Bytes)
    ensures Negotiation(s) == Some(true)
       <==> exists methods: Bytes, rest: Bytes ::
         0 < |methods| <= 255 && 0 in methods && s == [5, |methods|] + methods + rest
  {
    if Negotiation(s) == Some(true) {
      var n := s[1] as int;
      assert s == [5, |s[2..2 + n]|] + s[2..2 + n] + s[2 + n..];
    }
    if methods: Bytes, rest: Bytes :| 0 < |methods| <= 255 && 0 in methods && s == [5, |methods|] + methods + rest {
      OfferRead(methods, rest);
    }
  }

  lemma OfferRead(methods: Bytes, rest: Bytes)
    requires 0 < |methods| <= 255 && 0 in methods
    ensures Negotiation([5, |methods|] + methods + rest) == Some(true)
  {
    var s := [5, |methods|] + methods + rest;
    assert s[2..2 + |methods|] == methods;
  }

  /** So the bridge's own greeting is one that is accepted. */
  lemma GreetingAccepted(rest: Bytes)
    ensures Negotiation(GREETING + rest) == Some(true)
  {
    var s := GREETING + rest;
    assert s[2] == 0 && s[2] in s[2..2 + s[1] as int];
  }

  // ---------------------------------------------------------------- heads and faults

  predicate EmptyLineAt(stream: Bytes, e: nat) {
    4 <= e <= |stream| && stream[e - 4..e] == [13, 10, 13, 10]
  }

  /** The text up to e ends with the first empty line: CR LF CR LF. */
  ghost predicate FirstEmptyLine(stream: Bytes, e: nat) {
    EmptyLineAt(stream, e) && forall f: nat :: f < e ==> !EmptyLineAt(stream, f)
  }

  /**
   A head is read exactly when the first empty line comes within max bytes; without one a stream that ends before
   max bytes is malformed, and everything else too large.
   */
  lemma HeadExactly(stream: Bytes, max: nat, e: nat)
    ensures HeadOf(stream, max) == Ok(e) <==> FirstEmptyLine(stream, e) && e <= max
    ensures HeadOf(stream, max) == Err(RequestError.Malformed)
       <==> |stream| < max && forall f: nat :: !FirstEmptyLine(stream, f)
    ensures HeadOf(stream, max).Err? ==> HeadOf(stream, max).error in {TooLarge, RequestError.Malformed}
  {
    hide FindHeaderEnd;
    HeaderEndIsFirst(stream);
    forall f: nat
      ensures EndsAt(stream, f) <==> EmptyLineAt(stream, f)
    {
    }
    if FindHeaderEnd(stream).Some? {
      var k := FindHeaderEnd(stream).value;
      assert FirstEmptyLine(stream, k);
      assert FirstEmptyLine(stream, e) ==> e == k;
    }
  }

  /** The upstream is at fault when it does not take the greeting, does not grant it, or answers no request. */
  lemma FaultyExactly(replies: Bytes, room: nat, request: Bytes)
    ensures Faulty(replies, room, request) <==>
      || room < 3 || !([5, 0] <= replies)
      || (3 + |request| <= room && forall code: byte :: !StartsWithReply(replies[2..], code))
  {
    hide DecodeReply, StartsWithReply;
    if [5, 0] <= replies {
      assert replies[..2] == [5, 0];
      forall code: byte
        ensures DecodeReply(replies[2..]) == Some(code) <==> StartsWithReply(replies[2..], code)
      {
        ReplyExactly(replies[2..], code);
      }
    }
  }
}

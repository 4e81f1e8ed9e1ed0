/**
 The grammar behind the SOCKS5 code: which domain names have a normal form, which bytes are requests, what a
 client is refused with, and which policy rules are accepted (crates/webgate-transport/src/socks5_proto.rs:50-252,
 crates/webgate-transport/src/dual_failover.rs:477-502).
 */
module SocksGrammar {
  import opened Wrappers
  import opened Words
  import opened LittleEndian
  import opened Frames
  import opened Socks5

  // ---------------------------------------------------------------- domain names

  /** Labels with dots between them. */
  function Join(ls: seq<Bytes>): Bytes
    requires ls != []
  {
    if |ls| == 1 then ls[0] else ls[0] + [46] + Join(ls[1..])
  }

  predicate LetterOrDigit(b: byte) {
    (b as char) in "abcdefghijklmnopqrstuvwxyz0123456789"
  }

  /** Section 2.3.4 of RFC 1035 and section 2.1 of RFC 1123: 1 to 63 letters, digits and hyphens, none at an end. */
  predicate HostLabel(l: Bytes) {
    && 1 <= |l| <= 63 && LetterOrDigit(l[0]) && LetterOrDigit(l[|l| - 1])
    && forall i :: 0 <= i < |l| ==> LetterOrDigit(l[i]) || l[i] as char == '-'
  }

  ghost predicate HostName(n: Bytes) {
    |n| <= 253 && exists ls: seq<Bytes> :: ls != [] && (forall i :: 0 <= i < |ls| ==> HostLabel(ls[i])) && n == Join(ls)
  }

  lemma {:induction false} LabelsJoin(s: Bytes)
    ensures Labels(s) != [] && Join(Labels(s)) == s && forall i :: 0 <= i < |Labels(s)| ==> DOT !in Labels(s)[i]
  {
    if s != [] {
      LabelsJoin(s[1..]);
      var rest, ls := Labels(s[1..]), Labels(s);
      if s[0] == DOT {
        assert ls[1..] == rest;
        assert s == [] + [46] + s[1..];
      } else {
        assert ls == [[s[0]] + rest[0]] + rest[1..];
        assert ls[1..] == rest[1..];
        assert s == [s[0]] + s[1..];
        if |rest| > 1 {
          assert Join(rest) == rest[0] + [46] + Join(rest[1..]);
        }
      }
    }
  }

  lemma {:induction false} JoinLabels(ls: seq<Bytes>)
    requires ls != [] && forall i :: 0 <= i < |ls| ==> DOT !in ls[i]
    ensures Labels(Join(ls)) == ls
    decreases |ls|
  {
    if |ls| == 1 {
      NoDots(ls[0]);
      assert ls == [ls[0]];
    } else {
      JoinLabels(ls[1..]);
      FrontLabel(ls[0], Join(ls[1..]));
      assert ls == [ls[0]] + ls[1..];
    }
  }

  lemma {:induction false} NoDots(a: Bytes)
    requires DOT !in a
    ensures Labels(a) == [a]
  {
    if a != [] {
      NoDots(a[1..]);
      assert a == [a[0]] + a[1..];
    }
  }

  lemma {:induction false} FrontLabel(a: Bytes, rest: Bytes)
    requires DOT !in a
    ensures Labels(a + [46] + rest) == [a] + Labels(rest)
  {
    var s := a + [46] + rest;
    if a == [] {
      assert s[1..] == rest;
    } else {
      assert s[1..] == a[1..] + [46] + rest && s[0] == a[0] && a[0] in a;
      FrontLabel(a[1..], rest);
      assert a == [a[0]] + a[1..];
    }
  }

  /** b is a in lower case. */
  predicate Lowers(a: byte, b: byte) {
    if 65 <= a <= 90 then b == a + 32 else b == a
  }

  /** n is the start of raw in lower case, and only dots follow it there. */
  predicate Shortens(raw: Bytes, n: Bytes) {
    && |n| <= |raw| && (forall i :: 0 <= i < |n| ==> Lowers(raw[i], n[i]))
    && forall i :: |n| <= i < |raw| ==> raw[i] as char == '.'
  }

  lemma {:induction false} TrimDotsRest(s: Bytes)
    ensures TrimDots(s) <= s && forall i :: |TrimDots(s)| <= i < |s| ==> s[i] == DOT
  {
    if s != [] && s[|s| - 1] == DOT {
      TrimDotsRest(s[..|s| - 1]);
    }
  }

  lemma {:induction false} TrimDotsTo(s: Bytes, k: nat)
    requires k <= |s| && (forall i :: k <= i < |s| ==> s[i] == DOT) && (k > 0 ==> s[k - 1] != DOT)
    ensures TrimDots(s) == s[..k]
    decreases |s|
  {
    if k < |s| {
      TrimDotsTo(s[..|s| - 1], k);
      assert s[..|s| - 1][..k] == s[..k];
    } else {
      assert s[..k] == s;
    }
  }

  /** What is in a label is in the name. */
  lemma {:induction false} JoinHolds(ls: seq<Bytes>, i: nat, j: nat)
    requires i < |ls| && j < |ls[i]|
    ensures ls[i][j] in Join(ls)
  {
    if i > 0 {
      JoinHolds(ls[1..], i - 1, j);
    }
  }

  /** Every byte of a name is a dot or in a label. */
  lemma {:induction false} JoinBytes(ls: seq<Bytes>)
    requires ls != [] && forall i :: 0 <= i < |ls| ==> HostLabel(ls[i])
    ensures var n := Join(ls); n != [] && LetterOrDigit(n[|n| - 1])
    ensures forall b <- Join(ls) :: LetterOrDigit(b) || b as char in "-."
  {
    hide LetterOrDigit;
    if |ls| > 1 {
      JoinBytes(ls[1..]);
      assert Join(ls) == ls[0] + [46] + Join(ls[1..]);
    }
    assert HostLabel(ls[0]);
  }

  lemma LowerLabel(l: Bytes)
    requires LabelOk(l) && forall b <- l :: !(65 <= b <= 90)
    ensures HostLabel(l)
  {
    forall i | 0 <= i < |l|
      ensures LetterOrDigit(l[i]) || l[i] as char == '-'
    {
      assert l[i] in l;
      LowerByteKind(l[i]);
    }
    LowerByteKind(l[0]);
    LowerByteKind(l[|l| - 1]);
  }

  lemma LowerByteKind(b: byte)
    ensures LetterOrDigit(b) <==> Alphanumeric(b) && !(65 <= b <= 90)
  {
  }

  lemma HostLabelOk(l: Bytes)
    requires HostLabel(l)
    ensures LabelOk(l) && DOT !in l
  {
    hide LetterOrDigit;
    LowerByteKind(l[0]);
    LowerByteKind(l[|l| - 1]);
    forall b <- l
      ensures (Alphanumeric(b) || b == HYPHEN) && b != DOT
    {
      LowerByteKind(b);
    }
  }

  lemma NormalHost(raw: Bytes, n: Bytes)
    requires NormalizeTargetDomain(raw) == Some(n)
    ensures HostName(n) && Shortens(raw, n)
  {
    hide LabelOk, HostLabel, Labels;
    var ls := Labels(n);
    LabelsJoin(n);
    NormalForm(raw);
    forall i | 0 <= i < |ls|
      ensures HostLabel(ls[i])
    {
      assert ls[i] in Labels(n);
      forall b <- ls[i]
        ensures !(65 <= b <= 90)
      {
        var j :| 0 <= j < |ls[i]| && ls[i][j] == b;
        JoinHolds(ls, i, j);
        var k :| 0 <= k < |n| && n[k] == b;
        assert Lower(n)[k] == LowerByte(n[k]);
      }
      LowerLabel(ls[i]);
    }
    TrimDotsRest(raw);
  }

  lemma NameLabels(n: Bytes)
    requires HostName(n)
    ensures n != [] && LetterOrDigit(n[|n| - 1]) && (forall b <- n :: LetterOrDigit(b) || b as char in "-.")
    ensures forall l <- Labels(n) :: LabelOk(l)
  {
    hide LabelOk, HostLabel, LetterOrDigit, Labels;
    var ls :| ls != [] && (forall i :: 0 <= i < |ls| ==> HostLabel(ls[i])) && n == Join(ls);
    forall i | 0 <= i < |ls|
      ensures LabelOk(ls[i]) && DOT !in ls[i]
    {
      HostLabelOk(ls[i]);
    }
    JoinLabels(ls);
    JoinBytes(ls);
  }

  /** A name is read back from what it shortens. */
  lemma ShortenedBack(raw: Bytes, n: Bytes)
    requires Shortens(raw, n) && n != [] && LetterOrDigit(n[|n| - 1])
    ensures Lower(TrimDots(raw)) == n
  {
    hide LetterOrDigit;
    LastByte(n[|n| - 1]);
    TrimDotsTo(raw, |n|);
    assert Lower(raw[..|n|]) == n;
  }

  lemma ShortenedPlain(raw: Bytes, n: Bytes)
    requires Shortens(raw, n) && forall b <- n :: LetterOrDigit(b) || b as char in "-."
    ensures Plain(raw)
  {
    hide LetterOrDigit, Lowers;
    forall b <- raw
      ensures 0x20 <= b < 0x7F
    {
      var i :| 0 <= i < |raw| && raw[i] == b;
      if i < |n| {
        assert n[i] in n;
        PrintedByte(b, n[i]);
      }
    }
  }

  lemma HostNormal(raw: Bytes, n: Bytes)
    requires HostName(n) && Shortens(raw, n)
    ensures NormalizeTargetDomain(raw) == Some(n)
  {
    hide LabelOk, HostLabel, LetterOrDigit, Labels, Join, Plain, TrimDots, Lower;
    NameLabels(n);
    ShortenedBack(raw, n);
    ShortenedPlain(raw, n);
  }

  lemma LastByte(b: byte)
    requires LetterOrDigit(b)
    ensures b != DOT && b >= 48 && !(65 <= b <= 90)
  {
    LowerByteKind(b);
  }

  lemma PrintedByte(a: byte, b: byte)
    requires (LetterOrDigit(b) || b as char in "-.") && Lowers(a, b)
    ensures 0x20 <= a < 0x7F
  {
    LowerByteKind(b);
  }

  /** Which names have a normal form, and which one: host names in lower case, whatever dots follow. */
  lemma NormalExactly(raw: Bytes, n: Bytes)
    ensures NormalizeTargetDomain(raw) == Some(n) <==> HostName(n) && Shortens(raw, n)
  {
    hide NormalizeTargetDomain, HostName, Shortens;
    if NormalizeTargetDomain(raw) == Some(n) {
      NormalHost(raw, n);
    }
    if HostName(n) && Shortens(raw, n) {
      HostNormal(raw, n);
    }
  }

  // ---------------------------------------------------------------- requests

  /** A target whose address bytes can stand in a request: a domain of 1 to 255 bytes of UTF-8. */
  predicate Writable(lib: Library, t: Target) {
    WellFormed(t) && (t.Domain? ==> 1 <= |t.name| <= 255 && lib.utf8(t.name))
  }

  /** Section 4 of RFC 1928: version 5, CONNECT, a reserved zero, the address and the port. */
  function RequestBytes(t: Target, port: word16): (s: Bytes)
    requires t.Domain? ==> |t.name| <= 255
  {
    [5, 1, 0] + (match t
      case V4(octets) => [1] + octets
      case Domain(name) => [3, |name|] + name
      case V6(octets) => [4] + octets)
    + ToBigEndian(port, 2)
  }

  lemma RequestRead(lib: Library, t: Target, port: word16, rest: Bytes)
    requires Writable(lib, t)
    ensures DecodeRequest(lib, RequestBytes(t, port) + rest) == Ok((t, port, rest))
  {
    hide ToBigEndian, Word16;
    PortRoundTrip(port);
    var p := ToBigEndian(port, 2);
    var s := RequestBytes(t, port) + rest;
    match t
    case Domain(name) =>
      assert s[4..] == [|name|] + name + (p + rest);
      NamedFront(name, p + rest);
      PortAtFront(p, rest);
    case V4(octets) =>
      assert s[4..] == octets + (p + rest);
      Front(octets, p + rest);
      PortAtFront(p, rest);
    case V6(octets) =>
      assert s[4..] == octets + (p + rest);
      Front(octets, p + rest);
      PortAtFront(p, rest);
  }

  lemma TargetFront(lib: Library, kind: byte, s: Bytes)
    requires DecodeTarget(lib, kind, s).Some?
    ensures var (t, rest) := DecodeTarget(lib, kind, s).value;
      Writable(lib, t) && [kind] + s == (match t
        case V4(octets) => [1] + octets
        case Domain(name) => [3, |name|] + name
        case V6(octets) => [4] + octets) + rest
  {
  }

  lemma RequestWritten(lib: Library, s: Bytes)
    requires DecodeRequest(lib, s).Ok?
    ensures var (t, port, rest) := DecodeRequest(lib, s).value;
      Writable(lib, t) && s == RequestBytes(t, port) + rest
  {
    hide ToBigEndian, DecodeTarget, BigEndianValue;
    var (t, rest) := DecodeTarget(lib, s[3], s[4..]).value;
    TargetFront(lib, s[3], s[4..]);
    BigEndianBytes(rest[..2]);
    assert s == [s[0], s[1], s[2]] + ([s[3]] + s[4..]);
    assert rest == rest[..2] + rest[2..];
  }

  /** Exactly the requests of section 4 of RFC 1928 for a CONNECT are read, as what they say. */
  lemma RequestExactly(lib: Library, s: Bytes, t: Target, port: word16, rest: Bytes)
    ensures DecodeRequest(lib, s) == Ok((t, port, rest))
       <==> Writable(lib, t) && s == RequestBytes(t, port) + rest
  {
    hide DecodeRequest, RequestBytes;
    if DecodeRequest(lib, s) == Ok((t, port, rest)) {
      RequestWritten(lib, s);
    }
    if Writable(lib, t) && s == RequestBytes(t, port) + rest {
      RequestRead(lib, t, port, rest);
    }
  }

  // ---------------------------------------------------------------- what a client is refused with

  /** Target and port of a client let through, or the reply code it is refused with; None hangs up without one. */
  function SocksGate(lib: Library, policy: DestinationPolicy, s: Bytes): Result<(Target, word16), Option<byte>> {
    match DecodeRequest(lib, s)
    case Err(Io) => Err(None)
    case Err(General) => Err(Some(0x01))
    case Err(CommandNotSupported) => Err(Some(0x07))
    case Err(AddressNotSupported) => Err(Some(0x08))
    case Ok((t, port, _)) =>
      if port in policy.allowedPorts && DomainsAllow(lib, policy.allowedDomains, t) then Ok((t, port))
      else Err(Some(0x02))
  }

  /** The part of handle_failover_client that reads the request and asks the policy. */
  method AdmitSocks(lib: Library, policy: DestinationPolicy, r: Source)
    returns (gate: Result<(Target, word16), Option<byte>>)
    requires Ascending(policy.allowedPorts)
    modifies r
    ensures gate == SocksGate(lib, policy, old(r.unread))
  {
    hide DecodeRequest, DomainsAllow;
    var request := ReadRequest(lib, r);
    match request {
      case Err(Io) => return Err(None);
      case Err(General) => return Err(Some(0x01));
      case Err(CommandNotSupported) => return Err(Some(0x07));
      case Err(AddressNotSupported) => return Err(Some(0x08));
      case Ok((target, port)) =>
        var allowed := Allows(lib, policy, target, port);
        return if allowed then Ok((target, port)) else Err(Some(0x02));
    }
  }

  /**
   Which client is refused with which code of section 6 of RFC 1928: 1 for a wrong version or reserved byte, 7 for
   another command, 8 for an address that cannot be read, 2 for a destination the policy does not allow.
   */
  lemma SocksGateExactly(lib: Library, policy: DestinationPolicy, s: Bytes)
    ensures var gate := SocksGate(lib, policy, s);
      && (gate == Err(Some(1)) <==> |s| >= 4 && (s[0] != 5 || s[2] != 0))
      && (gate == Err(Some(7)) <==> |s| >= 4 && s[0] == 5 && s[2] == 0 && s[1] != 1)
      && (gate == Err(Some(8)) <==> |s| >= 4 && s[..3] == [5, 1, 0] && DecodeTarget(lib, s[3], s[4..]) == None)
      && (gate == Err(Some(2)) <==>
            exists t: Target, port: word16, rest: Bytes ::
              && Writable(lib, t) && s == RequestBytes(t, port) + rest
              && !(port in policy.allowedPorts && DomainsAllow(lib, policy.allowedDomains, t)))
      && (gate.Ok? <==>
            exists t: Target, port: word16, rest: Bytes ::
              && Writable(lib, t) && s == RequestBytes(t, port) + rest && gate == Ok((t, port))
              && port in policy.allowedPorts && DomainsAllow(lib, policy.allowedDomains, t))
  {
    hide DecodeTarget, DomainsAllow, RequestBytes;
    if DecodeRequest(lib, s).Ok? {
      var (t, port, rest) := DecodeRequest(lib, s).value;
      RequestExactly(lib, s, t, port, rest);
    }
    assert |s| >= 3 ==> (s[..3] == [5, 1, 0] <==> s[0] == 5 && s[1] == 1 && s[2] == 0);
    forall t: Target, port: word16, rest: Bytes | Writable(lib, t) && s == RequestBytes(t, port) + rest
      ensures DecodeRequest(lib, s) == Ok((t, port, rest))
    {
      RequestExactly(lib, s, t, port, rest);
    }
  }

  // ---------------------------------------------------------------- policy rules

  /** A rule is free of white space and control characters, and has no star but in front, as "*." before a suffix. */
  lemma RuleExactly(lib: Library, rule: Bytes)
    ensures RuleOk(lib, rule) <==>
      && !lib.blank(rule)
      && ((rule != [] && 42 !in rule)
          || exists suffix: Bytes :: suffix != [] && 42 !in suffix && rule == [42, 46] + suffix)
  {
    if RuleOk(lib, rule) && Wildcard(rule).Some? {
      assert rule == [42, 46] + rule[2..];
    }
    if suffix: Bytes :| suffix != [] && 42 !in suffix && rule == [42, 46] + suffix {
      assert rule[2..] == suffix;
    }
  }

  /** White space around a rule makes no difference, and neither does the case of its letters. */
  lemma RuleTrims(lib: Library, raw: Bytes)
    requires lib.trim(lib.trim(raw)) == lib.trim(raw)
    ensures Rule(lib, raw) == Rule(lib, lib.trim(raw))
    ensures forall i :: 0 <= i < |Rule(lib, raw)| ==> !(65 <= Rule(lib, raw)[i] <= 90)
    ensures Shortens(lib.trim(raw), Rule(lib, raw))
  {
  }
}

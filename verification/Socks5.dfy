/**
 SOCKS5 requests and the destination policy (crates/webgate-transport/src/socks5_proto.rs).
 Strings are their UTF-8 bytes.
 */
module Socks5 {
  import opened Wrappers
  import opened Words
  import opened Arith
  import opened LittleEndian
  import opened Frames

  type Bytes = seq<byte>

  const DOT: byte := 46
  const STAR: byte := 42
  const HYPHEN: byte := 45

  /**
   What the standard library decides: valid UTF-8, Unicode trimming, whether a string holds white
   space or control characters, IP literals, and the text of an IP address.
   */
  datatype Library = Library(
    utf8: Bytes -> bool,
    trim: Bytes -> Bytes,
    blank: Bytes -> bool,
    ipLiteral: Bytes -> bool,
    ipText: Bytes -> Bytes)

  datatype Target = Domain(name: Bytes) | V4(octets: Bytes) | V6(octets: Bytes)

  // ---------------------------------------------------------------- domain names

  function LowerByte(b: byte): byte {
    if 65 <= b <= 90 then b + 32 else b
  }

  function Lower(s: Bytes): (r: Bytes)
    ensures |r| == |s| && forall i :: 0 <= i < |s| ==> r[i] == LowerByte(s[i])
  {
    seq(|s|, i requires 0 <= i < |s| => LowerByte(s[i]))
  }

  /** Printable ASCII throughout. */
  predicate Plain(s: Bytes) {
    forall b <- s :: 0x20 <= b < 0x7F
  }

  function TrimDots(s: Bytes): Bytes {
    if s != [] && s[|s| - 1] == DOT then TrimDots(s[..|s| - 1]) else s
  }

  /** The pieces between dots: one more than there are dots. */
  function Labels(s: Bytes): seq<Bytes> {
    if s == [] then [[]]
    else
      var rest := Labels(s[1..]);
      if s[0] == DOT then [[]] + rest
      else [[s[0]] + if rest == [] then [] else rest[0]] + if rest == [] then [] else rest[1..]
  }

  predicate Alphanumeric(b: byte) {
    48 <= b <= 57 || 65 <= b <= 90 || 97 <= b <= 122
  }

  predicate LabelOk(l: Bytes) {
    && 0 < |l| <= 63
    && l[0] != HYPHEN && l[|l| - 1] != HYPHEN
    && forall b <- l :: Alphanumeric(b) || b == HYPHEN
  }

  function NormalizeTargetDomain(raw: Bytes): Option<Bytes> {
    if raw == [] || !Plain(raw) then None
    else
      var n := Lower(TrimDots(raw));
      if n == [] || |n| > 253 || exists l <- Labels(n) :: !LabelOk(l) then None else Some(n)
  }

  lemma {:induction false} TrimDotsEnd(s: Bytes)
    ensures TrimDots(s) <= s && (TrimDots(s) != [] ==> TrimDots(s)[|TrimDots(s)| - 1] != DOT)
  {
    if s != [] && s[|s| - 1] == DOT {
      TrimDotsEnd(s[..|s| - 1]);
    }
  }

  /** A normal form is lower-case, plain, and does not end in a dot. */
  lemma NormalForm(raw: Bytes)
    requires NormalizeTargetDomain(raw).Some?
    ensures var n := NormalizeTargetDomain(raw).value;
      n != [] && |n| <= 253 && Plain(n) && n[|n| - 1] != DOT && Lower(n) == n
  {
    hide Labels, LabelOk;
    TrimDotsEnd(raw);
    var t := TrimDots(raw);
    var n := Lower(t);
    forall b <- n ensures 0x20 <= b < 0x7F {
      var i :| 0 <= i < |n| && n[i] == b;
      assert t[i] == raw[i] && raw[i] in raw;
    }
  }

  /** Normalising twice is normalising once. */
  lemma NormalizeIdempotent(raw: Bytes)
    requires NormalizeTargetDomain(raw).Some?
    ensures NormalizeTargetDomain(NormalizeTargetDomain(raw).value) == NormalizeTargetDomain(raw)
  {
    hide Labels, LabelOk;
    NormalForm(raw);
    var n := NormalizeTargetDomain(raw).value;
    assert TrimDots(n) == n;
  }

  // ---------------------------------------------------------------- requests on the wire

  /** The target that a request names once it is written: domains in normal form. */
  function Normalized(t: Target): Option<Target> {
    match t
    case Domain(name) =>
      (match NormalizeTargetDomain(name)
       case None => None
       case Some(n) => Some(Domain(n)))
    case _ => Some(t)
  }

  predicate WellFormed(t: Target) {
    (t.V4? ==> |t.octets| == 4) && (t.V6? ==> |t.octets| == 16)
  }

  /** The bytes of a CONNECT request (section 4 of RFC 1928). */
  function EncodeRequest(t: Target, port: word16): Option<Bytes> {
    match t
    case Domain(name) =>
      (match NormalizeTargetDomain(name)
       case None => None
       case Some(n) => if |n| > 255 then None else Some([5, 1, 0, 3, |n|] + n + ToBigEndian(port, 2)))
    case V4(octets) => Some([5, 1, 0, 1] + octets + ToBigEndian(port, 2))
    case V6(octets) => Some([5, 1, 0, 4] + octets + ToBigEndian(port, 2))
  }

  method WriteConnectRequest(w: Sink, t: Target, port: word16) returns (ok: bool)
    modifies w
    ensures EncodeRequest(t, port).None? ==> !ok && w.written == old(w.written) && w.room == old(w.room)
    ensures EncodeRequest(t, port).Some? ==>
      var bytes := EncodeRequest(t, port).value;
      && ok == (|bytes| <= old(w.room)) && w.room == (if ok then old(w.room) - |bytes| else 0)
      && w.written == old(w.written) + if ok then bytes else bytes[..old(w.room)]
  {
    hide NormalizeTargetDomain, ToBigEndian;
    var request := [5, 1, 0];
    match t {
      case Domain(name) =>
        var normalized := NormalizeTargetDomain(name);
        if normalized.None? || |normalized.value| > 255 {
          return false;
        }
        request := request + [3, |normalized.value|] + normalized.value;
        assert request == [5, 1, 0, 3, |normalized.value|] + normalized.value;
      case V4(octets) =>
        request := request + [1] + octets;
        assert request == [5, 1, 0, 1] + octets;
      case V6(octets) =>
        request := request + [4] + octets;
        assert request == [5, 1, 0, 4] + octets;
    }
    request := request + ToBigEndian(port, 2);
    assert Some(request) == EncodeRequest(t, port);
    ok := w.Write(request);
  }

  datatype Refusal = Io | General | CommandNotSupported | AddressNotSupported

  /** A target of the given address type at the front of s, and what follows it. */
  function DecodeTarget(lib: Library, kind: byte, s: Bytes): Option<(Target, Bytes)> {
    if kind == 1 then (if |s| < 4 then None else Some((V4(s[..4]), s[4..])))
    else if kind == 3 then
      if |s| < 1 || s[0] == 0 || |s| < 1 + s[0] as int || !lib.utf8(s[1..1 + s[0] as int]) then None
      else Some((Domain(s[1..1 + s[0] as int]), s[1 + s[0] as int..]))
    else if kind == 4 then (if |s| < 16 then None else Some((V6(s[..16]), s[16..])))
    else None
  }

  method ReadTarget(lib: Library, r: Source, kind: byte) returns (target: Option<Target>)
    modifies r
    ensures match DecodeTarget(lib, kind, old(r.unread))
      case Some((t, rest)) => target == Some(t) && r.unread == rest
      case None => target == None
  {
    if kind == 1 {
      var ok, octets := r.ReadFull(4);
      return if ok then Some(V4(octets)) else None;
    }
    if kind == 3 {
      var ok, length := r.ReadFull(1);
      if !ok || length[0] == 0 {
        return None;
      }
      ghost var s := old(r.unread);
      var bytes;
      ok, bytes := r.ReadFull(length[0] as int);
      if !ok {
        return None;
      }
      assert bytes == s[1..1 + s[0] as int] && r.unread == s[1 + s[0] as int..];
      return if lib.utf8(bytes) then Some(Domain(bytes)) else None;
    }
    if kind == 4 {
      var ok, octets := r.ReadFull(16);
      return if ok then Some(V6(octets)) else None;
    }
    return None;
  }

  /** A whole request: header, target, port; or the reply code's reason. */
  function DecodeRequest(lib: Library, s: Bytes): Result<(Target, word16, Bytes), Refusal> {
    if |s| < 4 then Err(Io)
    else if s[0] != 5 || s[2] != 0 then Err(General)
    else if s[1] != 1 then Err(CommandNotSupported)
    else match DecodeTarget(lib, s[3], s[4..])
      case None => Err(AddressNotSupported)
      case Some((t, rest)) => if |rest| < 2 then Err(Io) else Ok((t, Word16(rest[..2]), rest[2..]))
  }

  method ReadRequest(lib: Library, r: Source) returns (request: Result<(Target, word16), Refusal>)
    modifies r
    ensures match DecodeRequest(lib, old(r.unread))
      case Ok((t, port, rest)) => request == Ok((t, port)) && r.unread == rest
      case Err(e) => request == Err(e)
  {
    hide DecodeTarget;
    var ok, header := r.ReadFull(4);
    if !ok {
      return Err(Io);
    }
    if header[0] != 5 || header[2] != 0 {
      return Err(General);
    }
    if header[1] != 1 {
      return Err(CommandNotSupported);
    }
    var target := ReadTarget(lib, r, header[3]);
    if target.None? {
      return Err(AddressNotSupported);
    }
    var portBytes;
    ok, portBytes := r.ReadFull(2);
    if !ok {
      return Err(Io);
    }
    return Ok((target.value, Word16(portBytes)));
  }

  /** Printable ASCII is UTF-8. */
  ghost predicate Lawful(lib: Library) {
    forall s {:trigger lib.utf8(s)} :: Plain(s) ==> lib.utf8(s)
  }

  lemma PortRoundTrip(port: word16)
    ensures Word16(ToBigEndian(port, 2)) == port
  {
    hide ToBigEndian, BigEndianValue;
    TwoBytes();
    BigEndianRoundTrip(port, 2);
  }

  /** What is written is read back as the normalised target and the port, whatever follows. */
  lemma RequestRoundTrip(lib: Library, t: Target, port: word16, rest: Bytes)
    requires Lawful(lib) && WellFormed(t) && EncodeRequest(t, port).Some?
    ensures Normalized(t).Some?
    ensures DecodeRequest(lib, EncodeRequest(t, port).value + rest) == Ok((Normalized(t).value, port, rest))
  {
    hide NormalizeTargetDomain, ToBigEndian, Word16, Plain;
    PortRoundTrip(port);
    var p := ToBigEndian(port, 2);
    var s := EncodeRequest(t, port).value + rest;
    match t
    case Domain(name) =>
      var n := NormalizeTargetDomain(name).value;
      NormalForm(name);
      assert s[4..] == [|n|] + n + (p + rest);
      NamedFront(n, p + rest);
      PortAtFront(p, rest);
    case V4(octets) =>
      assert s[4..] == octets + (p + rest);
      Front(octets, p + rest);
      PortAtFront(p, rest);
    case V6(octets) =>
      assert s[4..] == octets + (p + rest);
      Front(octets, p + rest);
      PortAtFront(p, rest);
  }

  lemma Front(a: Bytes, b: Bytes)
    ensures (a + b)[..|a|] == a && (a + b)[|a|..] == b
  {
  }

  lemma NamedFront(n: Bytes, b: Bytes)
    requires |n| < 256
    ensures var s := [|n|] + n + b; s[1..1 + |n|] == n && s[1 + |n|..] == b
  {
  }

  lemma PortAtFront(p: Bytes, rest: Bytes)
    requires |p| == 2
    ensures (p + rest)[..2] == p && (p + rest)[2..] == rest
  {
  }

  // ---------------------------------------------------------------- the policy

  datatype PolicyError = EmptyAllowedDomains | EmptyAllowedPorts | InvalidAllowedDomain | InvalidAllowedPort

  datatype DestinationPolicy = DestinationPolicy(allowedDomains: seq<Bytes>, allowedPorts: seq<word16>)

  /** The suffix of a "*." rule. */
  function Wildcard(rule: Bytes): Option<Bytes> {
    if |rule| >= 2 && rule[0] == STAR && rule[1] == DOT then Some(rule[2..]) else None
  }

  predicate RuleOk(lib: Library, rule: Bytes) {
    && rule != [] && rule != [STAR] && !lib.blank(rule)
    && match Wildcard(rule)
       case Some(suffix) => suffix != [] && STAR !in suffix
       case None => STAR !in rule
  }

  function Rule(lib: Library, raw: Bytes): Bytes {
    Lower(lib.trim(raw))
  }

  ghost predicate Sorted(ports: seq<word16>) {
    forall i, j :: 0 <= i < j < |ports| ==> ports[i] <= ports[j]
  }

  ghost predicate Ascending(ports: seq<word16>) {
    forall i, j :: 0 <= i < j < |ports| ==> ports[i] < ports[j]
  }

  /** sort_unstable, by insertion. */
  method SortPorts(ports: array<word16>)
    modifies ports
    ensures Sorted(ports[..]) && forall p :: p in ports[..] <==> p in old(ports[..])
  {
    for n := 0 to ports.Length
      invariant Sorted(ports[..n])
      invariant forall p :: p in ports[..] <==> p in old(ports[..])
    {
      InsertPort(ports, n);
    }
    assert ports[..ports.Length] == ports[..];
  }

  /** Let the element at n sink into the sorted prefix before it. */
  method InsertPort(ports: array<word16>, n: nat)
    requires n < ports.Length && Sorted(ports[..n])
    modifies ports
    ensures Sorted(ports[..n + 1]) && forall p :: p in ports[..] <==> p in old(ports[..])
  {
    var i := n;
    while i > 0 && ports[i - 1] > ports[i]
      invariant 0 <= i <= n
      invariant forall j, k :: 0 <= j < k <= n && k != i ==> ports[j] <= ports[k]
      invariant forall p :: p in ports[..] <==> p in old(ports[..])
    {
      ghost var was := ports[..];
      ports[i - 1], ports[i] := ports[i], ports[i - 1];
      Swapped(was, ports[..], i - 1, i);
      i := i - 1;
    }
  }

  lemma Swapped(s: seq<word16>, t: seq<word16>, i: nat, j: nat)
    requires i < |s| && j < |s| && t == s[i := s[j]][j := s[i]]
    ensures forall p :: p in s <==> p in t
  {
    forall p | p in s ensures p in t {
      var k :| 0 <= k < |s| && s[k] == p;
      assert t[if k == i then j else if k == j then i else k] == p;
    }
  }

  /** dedup: only the first of equal neighbours stays. */
  method Dedup(ports: seq<word16>) returns (r: seq<word16>)
    requires Sorted(ports)
    ensures Ascending(r) && forall p :: p in r <==> p in ports
  {
    r := [];
    for i := 0 to |ports|
      invariant Ascending(r) && (forall p :: p in r <==> p in ports[..i])
      invariant |r| > 0 ==> i > 0 && r[|r| - 1] == ports[i - 1]
      invariant |r| == 0 ==> i == 0
    {
      assert ports[..i + 1] == ports[..i] + [ports[i]];
      if r == [] || r[|r| - 1] != ports[i] {
        r := r + [ports[i]];
      }
    }
    assert ports[..|ports|] == ports;
  }

  method BinarySearch(ports: seq<word16>, port: word16) returns (found: bool)
    requires Ascending(ports)
    ensures found <==> port in ports
  {
    var lo, hi := 0, |ports|;
    while lo < hi
      invariant 0 <= lo <= hi <= |ports|
      invariant forall i :: 0 <= i < lo ==> ports[i] < port
      invariant forall i :: hi <= i < |ports| ==> port < ports[i]
    {
      var mid := lo + (hi - lo) / 2;
      if ports[mid] == port {
        return true;
      }
      if ports[mid] < port {
        lo := mid + 1;
      } else {
        hi := mid;
      }
    }
    return false;
  }

  /** The first thing wrong with a policy's inputs. */
  function PolicyFault(lib: Library, domains: seq<Bytes>, ports: seq<word16>): Option<PolicyError> {
    if domains == [] then Some(EmptyAllowedDomains)
    else if ports == [] then Some(EmptyAllowedPorts)
    else if 0 in ports then Some(InvalidAllowedPort)
    else if exists d <- domains :: !RuleOk(lib, Rule(lib, d)) then Some(InvalidAllowedDomain)
    else None
  }

  method NewPolicy(lib: Library, domains: seq<Bytes>, ports: seq<word16>)
    returns (r: Result<DestinationPolicy, PolicyError>)
    ensures match PolicyFault(lib, domains, ports)
      case Some(e) => r == Err(e)
      case None =>
        && r.Ok? && Ascending(r.value.allowedPorts) && (forall p :: p in r.value.allowedPorts <==> p in ports)
        && r.value.allowedDomains == seq(|domains|, i requires 0 <= i < |domains| => Rule(lib, domains[i]))
  {
    hide RuleOk, Rule;
    if domains == [] {
      return Err(EmptyAllowedDomains);
    }
    if ports == [] {
      return Err(EmptyAllowedPorts);
    }
    if 0 in ports {
      return Err(InvalidAllowedPort);
    }
    var allowed := [];
    for i := 0 to |domains|
      invariant |allowed| == i && forall j :: 0 <= j < i ==> allowed[j] == Rule(lib, domains[j])
      invariant forall j :: 0 <= j < i ==> RuleOk(lib, Rule(lib, domains[j]))
    {
      var normalized := Rule(lib, domains[i]);
      if !RuleOk(lib, normalized) {
        assert domains[i] in domains;
        return Err(InvalidAllowedDomain);
      }
      allowed := allowed + [normalized];
    }
    var sorted := new word16[|ports|](i requires 0 <= i < |ports| => ports[i]);
    assert sorted[..] == ports;
    SortPorts(sorted);
    var allowedPorts := Dedup(sorted[..]);
    return Ok(DestinationPolicy(allowed, allowedPorts));
  }

  /** One rule against a normalised host, as the code compares them. */
  predicate RuleAllows(lib: Library, rule: Bytes, host: Bytes) {
    match Wildcard(rule)
    case Some(suffix) =>
      && !lib.ipLiteral(host)
      && |host| > |suffix| + 1
      && host[|host| - |suffix|..] == suffix
      && host[|host| - |suffix| - 1] == DOT
    case None => host == rule
  }

  predicate DomainsAllow(lib: Library, rules: seq<Bytes>, target: Target) {
    match target
    case Domain(name) =>
      (match NormalizeTargetDomain(name)
       case None => false
       case Some(host) => exists rule <- rules :: RuleAllows(lib, rule, host))
    case V4(octets) => Lower(lib.ipText(octets)) in rules
    case V6(octets) => Lower(lib.ipText(octets)) in rules
  }

  method Allows(lib: Library, policy: DestinationPolicy, target: Target, port: word16) returns (allowed: bool)
    requires Ascending(policy.allowedPorts)
    ensures allowed <==> port in policy.allowedPorts && DomainsAllow(lib, policy.allowedDomains, target)
  {
    var found := BinarySearch(policy.allowedPorts, port);
    if !found {
      return false;
    }
    return DomainsAllow(lib, policy.allowedDomains, target);
  }

  /** A policy built from lists answers by plain membership in those lists. */
  method BuildAndAsk(lib: Library, domains: seq<Bytes>, ports: seq<word16>, target: Target, port: word16)
    returns (allowed: Result<bool, PolicyError>)
    ensures match PolicyFault(lib, domains, ports)
      case Some(e) => allowed == Err(e)
      case None => allowed == Ok(port in ports
        && DomainsAllow(lib, seq(|domains|, i requires 0 <= i < |domains| => Rule(lib, domains[i])), target))
  {
    hide PolicyFault, DomainsAllow, Rule;
    var policy := NewPolicy(lib, domains, ports);
    if policy.Err? {
      return Err(policy.error);
    }
    var answer := Allows(lib, policy.value, target, port);
    return Ok(answer);
  }

  /** The suffix arithmetic says: something non-empty, a dot, and the suffix. */
  lemma WildcardMeaning(lib: Library, rule: Bytes, host: Bytes)
    requires Wildcard(rule).Some?
    ensures RuleAllows(lib, rule, host) <==>
            !lib.ipLiteral(host) && exists p: Bytes :: p != [] && host == p + [DOT] + Wildcard(rule).value
  {
    var suffix := Wildcard(rule).value;
    if RuleAllows(lib, rule, host) {
      var p := host[..|host| - |suffix| - 1];
      assert host == p + [DOT] + suffix;
    }
    if p: Bytes :| p != [] && host == p + [DOT] + suffix {
      assert host[|host| - |suffix|..] == suffix;
    }
  }

  /** The policy sees no difference between a target and what the upstream is sent. */
  lemma AllowsNormalized(lib: Library, rules: seq<Bytes>, target: Target)
    requires Normalized(target).Some?
    ensures DomainsAllow(lib, rules, Normalized(target).value) == DomainsAllow(lib, rules, target)
  {
    hide NormalizeTargetDomain, RuleAllows;
    if target.Domain? {
      NormalizeIdempotent(target.name);
    }
  }

  /** What has no normal form is neither allowed nor ever sent. */
  lemma NoNormalForm(lib: Library, rules: seq<Bytes>, target: Target, port: word16)
    requires Normalized(target).None?
    ensures !DomainsAllow(lib, rules, target) && EncodeRequest(target, port).None?
  {
  }

  /** The rule allows some target at all. */
  ghost predicate AllowsSome(lib: Library, rule: Bytes) {
    exists t: Target :: WellFormed(t) && DomainsAllow(lib, [rule], t)
  }

  /** The rule allows some domain. */
  ghost predicate AllowsDomain(lib: Library, rule: Bytes) {
    exists name: Bytes :: DomainsAllow(lib, [rule], Domain(name))
  }

  /** The rule is how some IP address prints. */
  ghost predicate PrintsAddress(lib: Library, rule: Bytes) {
    exists octets: Bytes :: (|octets| == 4 || |octets| == 16) && Lower(lib.ipText(octets)) == rule
  }

  /** A rule allows a domain, or the very address that prints as the rule. */
  lemma SomeTarget(lib: Library, rule: Bytes)
    ensures AllowsSome(lib, rule) <==> AllowsDomain(lib, rule) || PrintsAddress(lib, rule)
  {
    hide NormalizeTargetDomain, RuleAllows, Lower;
    if AllowsSome(lib, rule) {
      var t: Target :| WellFormed(t) && DomainsAllow(lib, [rule], t);
      if t.Domain? {
        assert DomainsAllow(lib, [rule], Domain(t.name));
      } else {
        assert Lower(lib.ipText(t.octets)) == rule;
      }
    }
    if AllowsDomain(lib, rule) {
      var name: Bytes :| DomainsAllow(lib, [rule], Domain(name));
      assert WellFormed(Domain(name));
    }
    if octets: Bytes :| (|octets| == 4 || |octets| == 16) && Lower(lib.ipText(octets)) == rule {
      var t := if |octets| == 4 then V4(octets) else V6(octets);
      assert rule in [rule];
      assert WellFormed(t) && DomainsAllow(lib, [rule], t);
    }
  }

  /** A rule without a wildcard allows something exactly when it is a domain in normal form, or prints as an address. */
  lemma PlainRuleAllows(lib: Library, rule: Bytes)
    requires Wildcard(rule).None?
    ensures AllowsDomain(lib, rule) <==> NormalizeTargetDomain(rule) == Some(rule)
    ensures AllowsSome(lib, rule) <==> NormalizeTargetDomain(rule) == Some(rule) || PrintsAddress(lib, rule)
  {
    hide NormalizeTargetDomain, AllowsSome, PrintsAddress;
    SomeTarget(lib, rule);
    if name :| DomainsAllow(lib, [rule], Domain(name)) {
      NormalizeIdempotent(name);
    }
    if NormalizeTargetDomain(rule) == Some(rule) {
      assert rule in [rule];
      assert DomainsAllow(lib, [rule], Domain(rule));
    }
  }

  /**
   A wildcard rule allows something exactly when some label before its suffix makes a domain in normal form
   that is no IP literal, or the rule prints as an address.
   */
  lemma WildcardRuleAllows(lib: Library, rule: Bytes)
    requires Wildcard(rule).Some?
    ensures AllowsDomain(lib, rule) <==> exists p :: p != [] && Hosts(lib, p, Wildcard(rule).value)
    ensures AllowsSome(lib, rule) <==>
            (exists p :: p != [] && Hosts(lib, p, Wildcard(rule).value)) || PrintsAddress(lib, rule)
  {
    hide NormalizeTargetDomain, RuleAllows, AllowsSome, PrintsAddress;
    SomeTarget(lib, rule);
    var suffix := Wildcard(rule).value;
    if name :| DomainsAllow(lib, [rule], Domain(name)) {
      NormalizeIdempotent(name);
      var host := NormalizeTargetDomain(name).value;
      WildcardMeaning(lib, rule, host);
      var p :| p != [] && host == p + [DOT] + suffix;
      assert Hosts(lib, p, suffix);
    }
    if p :| p != [] && Hosts(lib, p, suffix) {
      var host := p + [DOT] + suffix;
      WildcardMeaning(lib, rule, host);
      assert rule in [rule];
      assert DomainsAllow(lib, [rule], Domain(host));
    }
  }

  /** p, a dot and the suffix are a domain in normal form and no IP literal. */
  predicate Hosts(lib: Library, p: Bytes, suffix: Bytes) {
    var host := p + [DOT] + suffix;
    NormalizeTargetDomain(host) == Some(host) && !lib.ipLiteral(host)
  }

  /** IP literals that read as domains are IPv4 addresses, which begin with a digit. */
  ghost predicate DigitsFirst(lib: Library) {
    forall h {:trigger lib.ipLiteral(h)} :: lib.ipLiteral(h) && h != [] && NormalizeTargetDomain(h) == Some(h)
        ==> 48 <= h[0] <= 57
  }

  lemma {:induction false} LabelsJoin(a: Bytes, b: Bytes)
    ensures Labels(a + [DOT] + b) == Labels(a) + Labels(b)
  {
    if a == [] {
      assert [DOT] + b == a + [DOT] + b && ([DOT] + b)[1..] == b;
      DotFirst(b);
    } else {
      LabelsJoin(a[1..], b);
      var rest := a[1..] + [DOT] + b;
      assert a + [DOT] + b == [a[0]] + rest && a == [a[0]] + a[1..];
      ByteFirst(a[0], rest);
      ByteFirst(a[0], a[1..]);
      hide Labels;
      if a[0] == DOT {
        assert [[]] + (Labels(a[1..]) + Labels(b)) == [[]] + Labels(a[1..]) + Labels(b);
      } else {
        FirstLonger(a[0], Labels(a[1..]), Labels(b));
      }
    }
  }

  lemma DotFirst(b: Bytes)
    ensures Labels([DOT] + b) == Labels([]) + Labels(b)
  {
    assert ([DOT] + b)[1..] == b;
  }

  lemma ByteFirst(x: byte, s: Bytes)
    ensures Labels(s) != []
    ensures Labels([x] + s) == if x == DOT then [[]] + Labels(s) else [[x] + Labels(s)[0]] + Labels(s)[1..]
  {
    assert ([x] + s)[1..] == s;
  }

  lemma FirstLonger(x: byte, xs: seq<Bytes>, ys: seq<Bytes>)
    requires xs != []
    ensures [[x] + (xs + ys)[0]] + (xs + ys)[1..] == [[x] + xs[0]] + xs[1..] + ys
  {
  }

  /** The labels of a normal form, and its letters. */
  lemma FixedPoint(host: Bytes)
    ensures NormalizeTargetDomain(host) == Some(host) <==>
            && host != [] && Plain(host) && Lower(host) == host && |host| <= 253
            && forall l <- Labels(host) :: LabelOk(l)
  {
    if NormalizeTargetDomain(host) == Some(host) {
      NormalForm(host);
      assert TrimDots(host) == host;
    }
    if host != [] && Plain(host) && (forall l <- Labels(host) :: LabelOk(l)) {
      if host[|host| - 1] == DOT {
        EmptyLast(host);
        assert false;
      }
    }
  }

  lemma EmptyLast(host: Bytes)
    requires host != [] && host[|host| - 1] == DOT
    ensures [] in Labels(host)
  {
    var front := host[..|host| - 1];
    assert host == front + [DOT] + [];
    LabelsJoin(front, []);
    assert Labels([]) == [[]];
    assert Labels(host)[|Labels(front)|] == [];
  }

  /** Whether such a rule allows any domain can be read off it: put the label a before its suffix. */
  lemma WildcardRuleCheck(lib: Library, rule: Bytes)
    requires Wildcard(rule).Some? && DigitsFirst(lib)
    ensures var host := [97, DOT] + Wildcard(rule).value;
      AllowsSome(lib, rule) <==> NormalizeTargetDomain(host) == Some(host) || PrintsAddress(lib, rule)
  {
    hide NormalizeTargetDomain, Labels, LabelOk, Lower, Plain, AllowsSome, PrintsAddress;
    WildcardRuleAllows(lib, rule);
    var suffix := Wildcard(rule).value;
    var host := [97] + [DOT] + suffix;
    assert host == [97, DOT] + suffix;
    if p :| p != [] && Hosts(lib, p, suffix) {
      ShorterHost(p, suffix);
    }
    if NormalizeTargetDomain(host) == Some(host) {
      assert Hosts(lib, [97], suffix);
    }
  }

  /** One letter in place of whatever stood before the suffix. */
  lemma ShorterHost(p: Bytes, suffix: Bytes)
    requires p != [] && NormalizeTargetDomain(p + [DOT] + suffix) == Some(p + [DOT] + suffix)
    ensures NormalizeTargetDomain([97] + [DOT] + suffix) == Some([97] + [DOT] + suffix)
  {
    hide NormalizeTargetDomain, Labels, LabelOk;
    var long, short := p + [DOT] + suffix, [97] + [DOT] + suffix;
    FixedPoint(long);
    LabelsJoin(p, suffix);
    LabelsJoin([97], suffix);
    LetterLabel();
    forall l <- Labels(short) ensures LabelOk(l) {
      assert l in Labels([97]) || l in Labels(suffix);
      assert l in Labels(suffix) ==> l in Labels(long);
    }
    assert suffix == long[|p| + 1..] && short[2..] == suffix;
    forall b <- short ensures 0x20 <= b < 0x7F {
      assert b == 97 || b == DOT || b in suffix;
      assert b in suffix ==> b in long;
    }
    forall i | 0 <= i < |short| ensures Lower(short)[i] == short[i] {
      if i >= 2 {
        assert short[i] == long[i - 1 + |p|] && Lower(long)[i - 1 + |p|] == long[i - 1 + |p|];
      }
    }
    FixedPoint(short);
  }

  lemma LetterLabel()
    ensures Labels([97]) == [[97]] && LabelOk([97])
  {
    var rest: seq<Bytes> := [[]];
    assert Labels([97][1..]) == rest;
    assert [97] + rest[0] == [97] && rest[1..] == [];
  }

  /** A rule and a host it allows end alike. */
  lemma EndsAlike(lib: Library, rule: Bytes, host: Bytes)
    requires RuleOk(lib, rule) && RuleAllows(lib, rule, host)
    ensures host != [] && host[|host| - 1] == rule[|rule| - 1]
  {
    if Wildcard(rule).Some? {
      var suffix := Wildcard(rule).value;
      assert host[|host| - |suffix|..][|suffix| - 1] == host[|host| - 1];
    }
  }

  /** Rules keep a final dot that hosts lose: such a rule allows no domain, and nothing unless an address prints so. */
  lemma DottedRuleAllowsNothing(lib: Library, rule: Bytes)
    requires RuleOk(lib, rule) && rule[|rule| - 1] == DOT
    ensures !AllowsDomain(lib, rule)
    ensures AllowsSome(lib, rule) <==> PrintsAddress(lib, rule)
  {
    hide RuleOk, AllowsSome, PrintsAddress, DomainsAllow;
    SomeTarget(lib, rule);
    forall name: Bytes ensures !DomainsAllow(lib, [rule], Domain(name)) {
      DottedRuleNoDomain(lib, rule, name);
    }
  }

  lemma DottedRuleNoDomain(lib: Library, rule: Bytes, name: Bytes)
    requires RuleOk(lib, rule) && rule[|rule| - 1] == DOT
    ensures !DomainsAllow(lib, [rule], Domain(name))
  {
    hide NormalizeTargetDomain, RuleAllows;
    if NormalizeTargetDomain(name).Some? {
      NormalForm(name);
      if RuleAllows(lib, rule, NormalizeTargetDomain(name).value) {
        EndsAlike(lib, rule, NormalizeTargetDomain(name).value);
        assert false;
      }
    }
  }
}

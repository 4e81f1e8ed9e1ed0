/** The navigation URL validator and serialiser (crates/webgate-core/src/policy.rs). */
module NavigationUrls {
  import opened Decimals
  import opened Words
  import opened Wrappers

  datatype PolicyError =
    | EmptyUrl
    | DisallowedScheme(scheme: string)
    | MissingHost
    | UserInfoForbidden
    | InvalidPort(port: word16)
    | InvalidPathTraversal
    | InvalidCharacters
    | HostNotAllowed(host: string)
    | MalformedUrl(reason: string)

  datatype NavigationPolicy = NavigationPolicy(
    allowedSchemes: seq<string>,
    allowedDomains: seq<string>,
    allowCustomScheme: bool)

  datatype ValidatedUrl = ValidatedUrl(scheme: string, host: string, port: Option<word16>, path: string)

  // ---------------------------------------------------------------- characters and splitting

  /** Unicode White_Space. */
  predicate White(c: char) {
    var n := c as int;
    || 0x09 <= n <= 0x0D || n == 0x20 || n == 0x85 || n == 0xA0 || n == 0x1680
    || 0x2000 <= n <= 0x200A || n == 0x2028 || n == 0x2029 || n == 0x202F || n == 0x205F || n == 0x3000
  }

  /** Unicode Cc. */
  predicate Control(c: char) {
    c as int < 0x20 || 0x7F <= c as int <= 0x9F
  }

  function TrimStart(s: string): string {
    if s != "" && White(s[0]) then TrimStart(s[1..]) else s
  }

  function TrimEnd(s: string): string {
    if s != "" && White(s[|s| - 1]) then TrimEnd(s[..|s| - 1]) else s
  }

  function Trim(s: string): string {
    TrimEnd(TrimStart(s))
  }

  function LowerChar(c: char): char {
    if 'A' <= c <= 'Z' then (c as int + 32) as char else c
  }

  /** to_ascii_lowercase. */
  function Lower(s: string): (r: string)
    ensures |r| == |s| && forall i :: 0 <= i < |s| ==> r[i] == LowerChar(s[i])
  {
    if s == "" then "" else [LowerChar(s[0])] + Lower(s[1..])
  }

  /** split_once: what is before the first c, and what after. */
  function SplitOnce(s: string, c: char): (r: Option<(string, string)>)
    ensures r.Some? ==> s == r.value.0 + [c] + r.value.1 && c !in r.value.0
    ensures r.None? ==> c !in s
  {
    if s == "" then None
    else if s[0] == c then Some(("", s[1..]))
    else match SplitOnce(s[1..], c)
      case None => None
      case Some((a, b)) => Some(([s[0]] + a, b))
  }

  lemma {:induction false} SplitOnceAt(a: string, c: char, b: string)
    requires c !in a
    ensures SplitOnce(a + [c] + b, c) == Some((a, b))
  {
    var s := a + [c] + b;
    if a == "" {
      assert s[1..] == b;
    } else {
      assert s[1..] == a[1..] + [c] + b;
      assert a[0] in a && forall d <- a[1..] :: d in a;
      SplitOnceAt(a[1..], c, b);
      assert [a[0]] + a[1..] == a;
    }
  }

  function Split(s: string, c: char): seq<string>
    decreases |s|
  {
    match SplitOnce(s, c)
    case None => [s]
    case Some((a, b)) => [a] + Split(b, c)
  }

  // ---------------------------------------------------------------- the validator

  /** The host and port of an authority. */
  function HostPort(authority: string): Result<(string, Option<word16>), PolicyError> {
    if authority != "" && authority[0] == '[' then
      match SplitOnce(authority, ']')
      case None => Err(MalformedUrl("unclosed IPv6 bracket"))
      case Some((before, remainder)) =>
        var host := before[1..];
        if remainder == "" then Ok((host, None))
        else if remainder[0] == ':' then
          (match ParseU16(remainder[1..])
           case None => Err(InvalidPort(0))
           case Some(p) => Ok((host, Some(p))))
        else Err(MalformedUrl("invalid IPv6 authority format"))
    else
      match SplitOnce(authority, ':')
      case None => Ok((authority, None))
      case Some((host, digits)) =>
        (match ParseU16(digits)
         case None => Err(InvalidPort(0))
         case Some(p) => Ok((host, Some(p))))
  }

  /** A domain rule. Unlike the proxy's, "*." here does not ask for a dot before the suffix. */
  predicate DomainAllows(rule: string, host: string) {
    if |rule| >= 2 && rule[..2] == "*." then
      |host| > |rule| - 2 && host[|host| - (|rule| - 2)..] == rule[2..]
    else host == Lower(rule)
  }

  /** A "*." rule allows exactly the hosts that are something non-empty and then the suffix. */
  lemma DomainMeaning(suffix: string, host: string)
    ensures DomainAllows("*." + suffix, host) <==> exists p: string :: p != "" && host == p + suffix
  {
    var rule := "*." + suffix;
    assert rule[..2] == "*." && rule[2..] == suffix;
    if DomainAllows(rule, host) {
      assert host == host[..|host| - |suffix|] + suffix;
    }
    if p: string :| p != "" && host == p + suffix {
      assert host[|host| - |suffix|..] == suffix;
    }
  }

  /** What is left to check once the URL is split. */
  function Checked(policy: NavigationPolicy, scheme: string, authority: string, path: string)
    : Result<ValidatedUrl, PolicyError>
  {
    if '@' in authority then Err(UserInfoForbidden)
    else match HostPort(authority)
      case Err(e) => Err(e)
      case Ok((host, port)) =>
        if host == "" then Err(MissingHost)
        else if ".." in Split(path, '/') then Err(InvalidPathTraversal)
        else if policy.allowedDomains != [] && !exists rule <- policy.allowedDomains :: DomainAllows(rule, Lower(host))
        then Err(HostNotAllowed(Lower(host)))
        else Ok(ValidatedUrl(scheme, Lower(host), port, path))
  }

  function AfterTrim(policy: NavigationPolicy, trimmed: string): Result<ValidatedUrl, PolicyError> {
    if trimmed == "" then Err(EmptyUrl)
    else if exists c <- trimmed :: Control(c) then Err(InvalidCharacters)
    else match SplitOnce(trimmed, ':')
      case None => Err(MalformedUrl("missing scheme colon"))
      case Some((scheme, afterColon)) =>
        if Lower(scheme) !in policy.allowedSchemes then Err(DisallowedScheme(scheme))
        else if Lower(scheme) == "webgate" && !policy.allowCustomScheme then
          Err(DisallowedScheme("webgate scheme disabled"))
        else if |afterColon| < 2 || afterColon[..2] != "//" then Err(MalformedUrl("missing // after scheme"))
        else
          var rest := afterColon[2..];
          match SplitOnce(rest, '/')
          case Some((authority, path)) => Checked(policy, Lower(scheme), authority, "/" + path)
          case None => Checked(policy, Lower(scheme), rest, "/")
  }

  function ValidateUrl(policy: NavigationPolicy, raw: string): Result<ValidatedUrl, PolicyError> {
    AfterTrim(policy, Trim(raw))
  }

  function AuthorityOf(v: ValidatedUrl): string {
    match v.port
    case Some(p) => v.host + ":" + Decimal(p)
    case None => v.host
  }

  function AsUrlString(v: ValidatedUrl): string {
    v.scheme + "://" + AuthorityOf(v) + if v.path != "" && v.path[0] == '/' then v.path else "/" + v.path
  }

  // ---------------------------------------------------------------- printing and reading back

  lemma {:induction false} TrimStartParts(s: string)
    ensures TrimStart(s) <= s || exists k :: 0 <= k <= |s| && TrimStart(s) == s[k..]
    ensures TrimStart(s) != "" ==> !White(TrimStart(s)[0])
  {
    if s != "" && White(s[0]) {
      TrimStartParts(s[1..]);
    }
  }

  lemma {:induction false} TrimEndParts(s: string)
    ensures TrimEnd(s) <= s
    ensures TrimEnd(s) != "" ==> !White(TrimEnd(s)[|TrimEnd(s)| - 1])
  {
    if s != "" && White(s[|s| - 1]) {
      TrimEndParts(s[..|s| - 1]);
    }
  }

  /** A trimmed string begins and ends with something. */
  lemma TrimmedEnds(raw: string)
    ensures var t := Trim(raw); t != "" ==> !White(t[0]) && !White(t[|t| - 1])
  {
    TrimStartParts(raw);
    TrimEndParts(TrimStart(raw));
  }

  lemma TrimFixed(s: string)
    requires s != "" && !White(s[0]) && !White(s[|s| - 1])
    ensures Trim(s) == s
  {
  }

  lemma LowerTwice(s: string)
    ensures Lower(Lower(s)) == Lower(s)
  {
  }

  lemma LowerMember(s: string, c: char)
    requires c in Lower(s)
    ensures exists d <- s :: c == LowerChar(d)
  {
    var i :| 0 <= i < |s| && Lower(s)[i] == c;
    assert s[i] in s;
  }

  /** What an accepted URL looks like. */
  ghost predicate Accepted(policy: NavigationPolicy, v: ValidatedUrl) {
    && v.scheme in policy.allowedSchemes && (v.scheme == "webgate" ==> policy.allowCustomScheme)
    && Lower(v.scheme) == v.scheme && ':' !in v.scheme && (v.scheme != "" ==> !White(v.scheme[0]))
    && v.host != "" && Lower(v.host) == v.host && '/' !in v.host && '@' !in v.host
    && v.path != "" && v.path[0] == '/' && !White(v.path[|v.path| - 1]) && ".." !in Split(v.path, '/')
    && (policy.allowedDomains == [] || exists rule <- policy.allowedDomains :: DomainAllows(rule, v.host))
    && forall c <- v.scheme + v.host + v.path :: !Control(c)
  }

  lemma HostPortParts(authority: string)
    requires HostPort(authority).Ok?
    ensures forall c <- HostPort(authority).value.0 :: c in authority
  {
  }

  lemma LowerKeeps(s: string, t: string)
    requires (forall c <- s :: !Control(c)) && (forall c <- t :: c in s) && '/' !in t && '@' !in t
    ensures (forall c <- Lower(t) :: !Control(c)) && '/' !in Lower(t) && '@' !in Lower(t)
  {
    forall c <- Lower(t) ensures !Control(c) && c != '/' && c != '@' {
      LowerMember(t, c);
    }
  }

  lemma SchemeKeeps(s: string, scheme: string)
    requires (forall c <- s :: !Control(c)) && scheme <= s && ':' !in scheme && (s != "" ==> !White(s[0]))
    ensures (forall c <- Lower(scheme) :: !Control(c)) && ':' !in Lower(scheme)
    ensures scheme != "" ==> !White(Lower(scheme)[0])
  {
    forall c <- Lower(scheme) ensures !Control(c) && c != ':' {
      LowerMember(scheme, c);
    }
  }

  lemma CheckedAccepted(policy: NavigationPolicy, s: string, scheme: string, authority: string, path: string)
    requires Checked(policy, scheme, authority, path).Ok?
    requires forall c <- s :: !Control(c)
    requires (forall c <- authority :: c in s) && '/' !in authority
    requires path != "" && path[0] == '/' && !White(path[|path| - 1]) && forall c <- path :: !Control(c)
    requires scheme in policy.allowedSchemes && (scheme == "webgate" ==> policy.allowCustomScheme)
    requires Lower(scheme) == scheme && ':' !in scheme && (scheme != "" ==> !White(scheme[0]))
    requires forall c <- scheme :: !Control(c)
    ensures Accepted(policy, Checked(policy, scheme, authority, path).value)
  {
    hide HostPort, DomainAllows, Control, White, Lower, Split;
    var (host, port) := HostPort(authority).value;
    HostPortParts(authority);
    assert (forall c <- host :: c in s) && '/' !in host && '@' !in host;
    LowerKeeps(s, host);
    LowerTwice(host);
    AllPlain(scheme, Lower(host), path);
  }

  lemma AllPlain(a: string, b: string, c: string)
    requires (forall x <- a :: !Control(x)) && (forall x <- b :: !Control(x)) && (forall x <- c :: !Control(x))
    ensures forall x <- a + b + c :: !Control(x)
  {
    hide Control;
  }

  /** The split of a trimmed URL after its scheme. */
  lemma RestAccepted(policy: NavigationPolicy, s: string, scheme: string, rest: string)
    requires s == scheme + "://" + rest && !White(s[|s| - 1]) && (forall c <- s :: !Control(c))
    requires scheme in policy.allowedSchemes && (scheme == "webgate" ==> policy.allowCustomScheme)
    requires Lower(scheme) == scheme && ':' !in scheme && (scheme != "" ==> !White(scheme[0]))
    ensures match SplitOnce(rest, '/')
      case Some((authority, path)) =>
        var r := Checked(policy, scheme, authority, "/" + path); r.Ok? ==> Accepted(policy, r.value)
      case None =>
        var r := Checked(policy, scheme, rest, "/"); r.Ok? ==> Accepted(policy, r.value)
  {
    hide Checked, Control, White, Lower, Accepted;
    SlashPlain();
    assert forall c <- rest :: c in s;
    assert forall c <- scheme :: c in s;
    match SplitOnce(rest, '/') {
      case Some((authority, path)) =>
        assert rest == authority + ("/" + path);
        assert ("/" + path)[|path|] == s[|s| - 1];
        if Checked(policy, scheme, authority, "/" + path).Ok? {
          CheckedAccepted(policy, s, scheme, authority, "/" + path);
        }
      case None =>
        if Checked(policy, scheme, rest, "/").Ok? {
          CheckedAccepted(policy, s, scheme, rest, "/");
        }
    }
  }

  lemma LowerSplit(s: string, scheme: string, rest: string)
    requires s == scheme + "://" + rest && (forall c <- s :: !Control(c)) && ':' !in scheme
    requires !White(s[0]) && !White(s[|s| - 1])
    ensures var t := Lower(scheme) + "://" + rest;
      && !White(t[|t| - 1]) && (forall c <- t :: !Control(c))
      && ':' !in Lower(scheme) && (scheme != "" ==> !White(Lower(scheme)[0]))
  {
    hide Control, White, Lower;
    SlashPlain();
    SchemeKeeps(s, scheme);
    var t := Lower(scheme) + "://" + rest;
    assert t[|t| - 1] == s[|s| - 1];
    forall c <- t ensures !Control(c) {
      assert c in Lower(scheme) || c in "://" || c in rest;
      assert c in "://" ==> c == ':' || c == '/';
      assert c in rest ==> c in s;
    }
  }

  /** The pieces of an accepted URL. */
  lemma AcceptedPieces(policy: NavigationPolicy, s: string) returns (scheme: string, rest: string)
    requires AfterTrim(policy, s).Ok?
    ensures s == scheme + "://" + rest && (forall c <- s :: !Control(c)) && ':' !in scheme
    ensures Lower(scheme) in policy.allowedSchemes && (Lower(scheme) == "webgate" ==> policy.allowCustomScheme)
    ensures AfterTrim(policy, s) == match SplitOnce(rest, '/')
      case Some((authority, path)) => Checked(policy, Lower(scheme), authority, "/" + path)
      case None => Checked(policy, Lower(scheme), rest, "/")
  {
    hide Checked, Control, Lower;
    var afterColon := SplitOnce(s, ':').value.1;
    scheme, rest := SplitOnce(s, ':').value.0, afterColon[2..];
    assert s == scheme + [':'] + afterColon && afterColon == "//" + rest;
  }

  lemma ValidateAccepted(policy: NavigationPolicy, raw: string)
    requires ValidateUrl(policy, raw).Ok?
    ensures Accepted(policy, ValidateUrl(policy, raw).value)
  {
    hide Checked, Control, White, Trim, Lower, Accepted, AfterTrim, SplitOnce;
    TrimmedEnds(raw);
    var scheme, rest := AcceptedPieces(policy, Trim(raw));
    LowerSplit(Trim(raw), scheme, rest);
    LowerTwice(scheme);
    RestAccepted(policy, Lower(scheme) + "://" + rest, Lower(scheme), rest);
  }

  lemma SlashPlain()
    ensures !Control('/') && !White('/') && !Control(':') && !White(':')
  {
  }

  /** Hosts that survive printing: without a colon, and not opening a bracket. */
  predicate Reads(host: string) {
    ':' !in host && (host == "" || host[0] != '[')
  }

  lemma PortText(p: word16)
    ensures forall c <- Decimal(p) :: Digit(c)
    ensures ParseU16(Decimal(p)) == Some(p)
  {
    DecimalNumeral(p);
    DecimalParse(p);
  }

  /** The printed authority is read back exactly when the host reads. */
  lemma AuthorityReadBack(v: ValidatedUrl)
    requires v.host != ""
    ensures HostPort(AuthorityOf(v)) == Ok((v.host, v.port)) <==> Reads(v.host)
  {
    hide Decimal, ParseU16;
    var a := AuthorityOf(v);
    if v.port.Some? {
      PortText(v.port.value);
    }
    assert a[0] == v.host[0];
    if v.host[0] == '[' {
      if HostPort(a).Ok? {
        BracketLength(v);
      }
    } else if ':' in v.host {
      var (before, after) := SplitOnce(v.host, ':').value;
      var more := if v.port.Some? then ":" + Decimal(v.port.value) else "";
      assert a == before + [':'] + (after + more);
      SplitOnceAt(before, ':', after + more);
      assert |before| < |v.host|;
    } else if v.port.Some? {
      SplitOnceAt(v.host, ':', Decimal(v.port.value));
    } else {
      assert SplitOnce(a, ':').None?;
    }
  }

  /** After the host an authority has only a colon and digits. */
  lemma AuthorityTail(v: ValidatedUrl)
    ensures forall k :: |v.host| <= k < |AuthorityOf(v)| ==> AuthorityOf(v)[k] != ']'
  {
    hide Decimal;
    if v.port.Some? {
      PortText(v.port.value);
      var d := Decimal(v.port.value);
      forall k | |v.host| <= k < |AuthorityOf(v)| ensures AuthorityOf(v)[k] != ']' {
        if k > |v.host| {
          assert AuthorityOf(v)[k] == d[k - |v.host| - 1];
          assert d[k - |v.host| - 1] in d;
        }
      }
    }
  }

  /** Reading a bracketed host back takes at least its bracket away. */
  lemma BracketLength(v: ValidatedUrl)
    requires v.host != "" && v.host[0] == '[' && HostPort(AuthorityOf(v)).Ok?
    ensures |HostPort(AuthorityOf(v)).value.0| < |v.host|
  {
    hide Decimal, ParseU16;
    var a := AuthorityOf(v);
    AuthorityTail(v);
    assert a[0] == '[';
    var (before, after) := SplitOnce(a, ']').value;
    assert a[|before|] == ']';
  }

  lemma AssembledParts(scheme: string, authority: string, path: string)
    requires ':' !in scheme && '/' !in authority && path != "" && path[0] == '/'
    ensures SplitOnce(scheme + "://" + authority + path, ':') == Some((scheme, "//" + authority + path))
    ensures SplitOnce(("//" + authority + path)[2..], '/') == Some((authority, path[1..])) && "/" + path[1..] == path
  {
    hide SplitOnce;
    var rest := authority + path;
    assert scheme + "://" + authority + path == scheme + [':'] + ("//" + authority + path);
    SplitOnceAt(scheme, ':', "//" + authority + path);
    assert ("//" + authority + path)[2..] == authority + ['/'] + path[1..];
    SplitOnceAt(authority, '/', path[1..]);
  }

  lemma AssembledTrim(scheme: string, authority: string, path: string)
    requires (scheme != "" ==> !White(scheme[0])) && path != "" && !White(path[|path| - 1])
    requires (forall c <- scheme :: !Control(c)) && (forall c <- authority :: !Control(c))
        && (forall c <- path :: !Control(c))
    ensures var s := scheme + "://" + authority + path; Trim(s) == s && forall c <- s :: !Control(c)
  {
    hide White, Control, Trim;
    var s := scheme + "://" + authority + path;
    SlashPlain();
    forall c <- s ensures !Control(c) {
      assert c in scheme || c in "://" || c in authority || c in path;
      assert c in "://" ==> c == ':' || c == '/';
    }
    assert s[|s| - 1] == path[|path| - 1];
    TrimFixed(s);
  }

  /** A URL put together from a scheme, an authority and a path is taken apart the same way. */
  lemma ValidateAssembled(policy: NavigationPolicy, scheme: string, authority: string, path: string)
    requires Lower(scheme) == scheme && ':' !in scheme && '/' !in authority && path != "" && path[0] == '/'
    requires scheme in policy.allowedSchemes && (scheme == "webgate" ==> policy.allowCustomScheme)
    requires (scheme != "" ==> !White(scheme[0])) && !White(path[|path| - 1])
    requires (forall c <- scheme :: !Control(c)) && (forall c <- authority :: !Control(c))
        && (forall c <- path :: !Control(c))
    ensures ValidateUrl(policy, scheme + "://" + authority + path) == Checked(policy, scheme, authority, path)
  {
    hide White, Control, Lower, Trim, Checked, SplitOnce;
    AssembledTrim(scheme, authority, path);
    AssembledParts(scheme, authority, path);
  }

  lemma AuthorityPlain(v: ValidatedUrl)
    requires '/' !in v.host && '@' !in v.host && forall c <- v.host :: !Control(c)
    ensures '/' !in AuthorityOf(v) && '@' !in AuthorityOf(v) && forall c <- AuthorityOf(v) :: !Control(c)
  {
    hide Decimal;
    if v.port.Some? {
      PortText(v.port.value);
    }
  }

  lemma CheckedAgain(policy: NavigationPolicy, v: ValidatedUrl)
    requires Accepted(policy, v) && '@' !in AuthorityOf(v)
    ensures Checked(policy, v.scheme, AuthorityOf(v), v.path) == Ok(v) <==> Reads(v.host)
  {
    hide Control, White, Split, DomainAllows, HostPort, Reads;
    AuthorityReadBack(v);
    if HostPort(AuthorityOf(v)).Ok? {
      var (host, port) := HostPort(AuthorityOf(v)).value;
      if Checked(policy, v.scheme, AuthorityOf(v), v.path) == Ok(v) {
        assert Lower(host) == v.host && port == v.port;
        LowerReads(v, host);
      }
    }
  }

  /** A host read back in other letters than it was printed in cannot be: printing is lower-case. */
  lemma LowerReads(v: ValidatedUrl, host: string)
    requires HostPort(AuthorityOf(v)) == Ok((host, v.port)) && Lower(host) == v.host && v.host != ""
    ensures host == v.host
  {
    hide Decimal, ParseU16;
    var a := AuthorityOf(v);
    assert a[..|v.host|] == v.host;
    if a[0] == '[' {
      BracketLength(v);
      assert false;
    } else {
      assert host <= a;
    }
  }

  /**
   Printing an accepted URL and validating it again gives it back exactly when its host has no
   colon and opens no bracket; so always, unless the authority was a bracketed literal.
   */
  lemma RoundTrip(policy: NavigationPolicy, raw: string)
    requires ValidateUrl(policy, raw).Ok?
    ensures var v := ValidateUrl(policy, raw).value;
      ValidateUrl(policy, AsUrlString(v)) == Ok(v) <==> Reads(v.host)
  {
    hide ValidateUrl, Checked, Control, White, Reads, AuthorityOf, Lower, Split, DomainAllows;
    var v := ValidateUrl(policy, raw).value;
    ValidateAccepted(policy, raw);
    assert forall c <- v.scheme + v.host + v.path :: !Control(c);
    assert (forall c <- v.scheme :: c in v.scheme + v.host + v.path)
        && (forall c <- v.host :: c in v.scheme + v.host + v.path);
    assert forall c <- v.path :: c in v.scheme + v.host + v.path;
    AuthorityPlain(v);
    ValidateAssembled(policy, v.scheme, AuthorityOf(v), v.path);
    CheckedAgain(policy, v);
  }

  /** Was the authority a bracketed literal? */
  predicate Bracketed(raw: string) {
    match SplitOnce(Trim(raw), ':')
    case None => false
    case Some((scheme, afterColon)) => |afterColon| > 2 && afterColon[2] == '['
  }

  /** Every accepted URL whose authority is not a bracketed literal survives printing. */
  lemma UnbracketedRoundTrip(policy: NavigationPolicy, raw: string)
    requires ValidateUrl(policy, raw).Ok? && !Bracketed(raw)
    ensures ValidateUrl(policy, AsUrlString(ValidateUrl(policy, raw).value)) == ValidateUrl(policy, raw)
  {
    hide Trim, Control;
    RoundTrip(policy, raw);
    var (scheme, afterColon) := SplitOnce(Trim(raw), ':').value;
    var rest := afterColon[2..];
    var authority := match SplitOnce(rest, '/') case Some((a, p)) => a case None => rest;
    assert authority != "" ==> authority[0] == afterColon[2];
    var host := HostPort(authority).value.0;
    UnbracketedReads(authority);
    LowerColon(host);
  }

  lemma UnbracketedReads(authority: string)
    requires HostPort(authority).Ok? && (authority == "" || authority[0] != '[')
    ensures Reads(HostPort(authority).value.0)
  {
  }

  lemma LowerColon(host: string)
    requires Reads(host)
    ensures Reads(Lower(host))
  {
    if ':' in Lower(host) {
      LowerMember(host, ':');
      assert false;
    }
  }

  const DEFAULT_POLICY := NavigationPolicy(["https", "webgate"], [], true)

  lemma LowerOfLower(s: string)
    requires forall c <- s :: !('A' <= c <= 'Z')
    ensures Lower(s) == s
  {
    forall i | 0 <= i < |s| ensures Lower(s)[i] == s[i] {
      assert s[i] in s;
    }
  }

  /** An IPv6 literal is accepted, printed without its brackets, and then refused. */
  lemma Ipv6LiteralLost()
    ensures var v := ValidatedUrl("https", "::1", None, "/");
      && ValidateUrl(DEFAULT_POLICY, "https" + "://" + "[::1]" + "/") == Ok(v)
      && ValidateUrl(DEFAULT_POLICY, AsUrlString(v)) != Ok(v)
  {
    hide ValidateUrl, AsUrlString, HostPort, Split, Lower;
    LowerOfLower("https");
    LowerOfLower("::1");
    Ipv6HostPort();
    RootPath();
    Ipv6Lost("https", "::1", "[::1]", "/");
  }

  lemma Ipv6Lost(scheme: string, host: string, authority: string, path: string)
    requires Lower(scheme) == scheme && ':' !in scheme && scheme == "https" && !White(scheme[0])
    requires HostPort(authority) == Ok((host, None)) && host != "" && Lower(host) == host && !Reads(host)
    requires '@' !in authority && '/' !in authority && |path| == 1 && path[0] == '/' && !White(path[0])
    requires ".." !in Split(path, '/')
    requires (forall c <- scheme :: !Control(c)) && (forall c <- authority :: !Control(c))
        && (forall c <- path :: !Control(c))
    ensures var v := ValidatedUrl(scheme, host, None, path); var url := scheme + "://" + authority + path;
      ValidateUrl(DEFAULT_POLICY, url) == Ok(v) && ValidateUrl(DEFAULT_POLICY, AsUrlString(v)) != Ok(v)
  {
    hide HostPort, Split, Lower, ValidateUrl, White, Control, Reads, AsUrlString;
    ValidateAssembled(DEFAULT_POLICY, scheme, authority, path);
    RoundTrip(DEFAULT_POLICY, scheme + "://" + authority + path);
  }

  lemma Ipv6HostPort()
    ensures HostPort("[::1]") == Ok(("::1", None))
  {
    assert "[::1]" == "[::1" + [']'] + "";
    SplitOnceAt("[::1", ']', "");
    assert ("[::1")[1..] == "::1";
  }

  lemma RootPath()
    ensures ".." !in Split("/", '/')
  {
    assert "/" == "" + ['/'] + "";
    SplitOnceAt("", '/', "");
    assert Split("", '/') == [""];
    assert Split("/", '/') == [""] + [""];
  }
}

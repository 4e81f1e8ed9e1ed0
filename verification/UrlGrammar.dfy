/** What the navigation URL validator accepts and refuses, told as a grammar (crates/webgate-core/src/policy.rs). */
module UrlGrammar {
  import opened Decimals
  import opened NavigationUrls
  import opened Words
  import opened Wrappers

  // ---------------------------------------------------------------- trimming, splitting, lower case

  predicate AllWhite(s: string) {
    forall c <- s :: White(c)
  }

  /** t is what stands between the white space at both ends of s. */
  ghost predicate Between(s: string, t: string) {
    exists a, b: string :: s == a + t + b && AllWhite(a) && AllWhite(b)
      && (t == "" || (!White(t[0]) && !White(t[|t| - 1])))
  }

  lemma {:induction false} TrimStartWhite(a: string, s: string)
    requires AllWhite(a)
    ensures TrimStart(a + s) == TrimStart(s)
  {
    hide White;
    if a == "" {
      assert a + s == s;
    } else {
      assert a[0] in a && forall c <- a[1..] :: c in a;
      assert (a + s)[1..] == a[1..] + s;
      TrimStartWhite(a[1..], s);
    }
  }

  lemma {:induction false} TrimEndWhite(s: string, b: string)
    requires AllWhite(b)
    ensures TrimEnd(s + b) == TrimEnd(s)
  {
    hide White;
    if b == "" {
      assert s + b == s;
    } else {
      var n := |b| - 1;
      assert b[n] in b && forall c <- b[..n] :: c in b;
      assert (s + b)[..|s| + n] == s + b[..n];
      TrimEndWhite(s, b[..n]);
    }
  }

  lemma {:induction false} TrimStartRest(s: string) returns (a: string)
    ensures s == a + TrimStart(s) && AllWhite(a)
  {
    hide White;
    a := "";
    if s != "" && White(s[0]) {
      var rest := TrimStartRest(s[1..]);
      a := [s[0]] + rest;
    }
  }

  lemma {:induction false} TrimEndRest(s: string) returns (b: string)
    ensures s == TrimEnd(s) + b && AllWhite(b)
  {
    hide White;
    b := "";
    if s != "" && White(s[|s| - 1]) {
      var rest := TrimEndRest(s[..|s| - 1]);
      b := rest + [s[|s| - 1]];
    }
  }

  /** Trimming takes exactly the white space at both ends. */
  lemma TrimExactly(s: string, t: string)
    ensures Trim(s) == t <==> Between(s, t)
  {
    hide White, TrimStart, TrimEnd;
    var a := TrimStartRest(s);
    var b := TrimEndRest(TrimStart(s));
    TrimmedEnds(s);
    assert s == a + Trim(s) + b;
    assert Between(s, Trim(s));
    if Between(s, t) {
      var c, d: string :| s == c + t + d && AllWhite(c) && AllWhite(d)
          && (t == "" || (!White(t[0]) && !White(t[|t| - 1])));
      Trimmed(s, c, t, d);
    }
  }

  lemma Trimmed(s: string, a: string, t: string, b: string)
    requires s == a + t + b && AllWhite(a) && AllWhite(b) && (t == "" || (!White(t[0]) && !White(t[|t| - 1])))
    ensures Trim(s) == t
  {
    hide White;
    assert s == a + (t + b);
    TrimStartWhite(a, t + b);
    if t == "" {
      assert t + b == b + "";
      TrimStartWhite(b, "");
    } else {
      assert TrimStart(t + b) == t + b;
      TrimEndWhite(t, b);
    }
  }

  /** w stands in s after a and before b, with a separator or an end of s on either side. */
  predicate Cut(s: string, a: string, w: string, b: string, c: char) {
    s == a + w + b && (a == "" || a[|a| - 1] == c) && (b == "" || b[0] == c)
  }

  ghost predicate Segment(s: string, w: string, c: char) {
    exists a, b: string :: Cut(s, a, w, b, c)
  }

  lemma SegmentLonger(p: string, q: string, w: string, c: char)
    requires Segment(q, w, c)
    ensures Segment(p + [c] + q, w, c)
  {
    var a, b: string :| Cut(q, a, w, b, c);
    assert Cut(p + [c] + q, p + [c] + a, w, b, c);
  }

  lemma {:induction false} SplitSegment(s: string, w: string, c: char)
    requires w in Split(s, c)
    ensures Segment(s, w, c)
    decreases |s|
  {
    match SplitOnce(s, c) {
      case None =>
        assert Cut(s, "", w, "", c);
      case Some((p, q)) =>
        if w == p {
          assert Cut(s, "", w, [c] + q, c);
        } else {
          SplitSegment(q, w, c);
          SegmentLonger(p, q, w, c);
        }
    }
  }

  lemma FirstSeparator(s: string, c: char, k: nat)
    requires k < |s| && s[k] == c
    ensures SplitOnce(s, c).Some? && |SplitOnce(s, c).value.0| <= k
  {
    hide SplitOnce;
    assert c in s;
    var p := SplitOnce(s, c).value.0;
    assert forall i :: 0 <= i < |p| ==> p[i] in p && s[i] == p[i];
  }

  lemma FirstSegment(s: string, w: string, b: string, c: char)
    requires Cut(s, "", w, b, c) && c !in w
    ensures w in Split(s, c)
  {
    hide SplitOnce;
    if b == "" {
      assert s == w;
    } else {
      assert s == w + [c] + b[1..];
      SplitOnceAt(w, c, b[1..]);
    }
  }

  lemma CutRest(s: string, a: string, w: string, b: string, c: char, p: string, q: string)
    requires Cut(s, a, w, b, c) && s == p + [c] + q && |p| < |a|
    ensures Cut(q, a[|p| + 1..], w, b, c)
  {
    var n := |p| + 1;
    assert q == s[n..];
    assert s[n..] == (a + (w + b))[n..] == a[n..] + (w + b) by {
      assert s == a + (w + b);
    }
    assert a[n..] + w + b == a[n..] + (w + b);
  }

  lemma {:induction false} SegmentSplit(s: string, a: string, w: string, b: string, c: char)
    requires Cut(s, a, w, b, c) && c !in w
    ensures w in Split(s, c)
    decreases |s|
  {
    hide SplitOnce;
    if a == "" {
      FirstSegment(s, w, b, c);
    } else {
      assert s[|a| - 1] == c;
      FirstSeparator(s, c, |a| - 1);
      var (p, q) := SplitOnce(s, c).value;
      CutRest(s, a, w, b, c, p, q);
      SegmentSplit(q, a[|p| + 1..], w, b, c);
    }
  }

  /** A text without the separator is among the pieces exactly when it is such a piece. */
  lemma SplitExactly(s: string, w: string, c: char)
    requires c !in w
    ensures w in Split(s, c) <==> Segment(s, w, c)
  {
    if w in Split(s, c) {
      SplitSegment(s, w, c);
    }
    if Segment(s, w, c) {
      var a, b: string :| Cut(s, a, w, b, c);
      SegmentSplit(s, a, w, b, c);
    }
  }

  /** Lower case takes each of the 26 letters to its own and changes nothing else. */
  lemma LowerLetters(s: string, i: nat)
    requires i < |s|
    ensures |Lower(s)| == |s| && var c, r := s[i], Lower(s)[i];
      if 'A' <= c <= 'Z' then 'a' <= r <= 'z' && r as int - 'a' as int == c as int - 'A' as int else r == c
  {
    hide Lower;
  }

  // ---------------------------------------------------------------- the authority

  /** An authority is a host and a tail: the host in brackets, or without a colon and opening no bracket. */
  ghost predicate HostTail(authority: string, host: string, tail: string) {
    || (authority == "[" + host + "]" + tail && ']' !in host)
    || (authority == host + tail && ':' !in host && (authority == "" || authority[0] != '['))
  }

  /** The tail: nothing, or a colon and the text of a port. */
  ghost predicate PortTail(tail: string, port: Option<word16>) {
    match port
    case None => tail == ""
    case Some(p) => tail != "" && tail[0] == ':' && Spelled(tail[1..], p)
  }

  lemma TailOf(authority: string) returns (host: string, tail: string)
    requires HostPort(authority).Ok?
    ensures HostTail(authority, host, tail) && HostPort(authority).value.0 == host
    ensures match HostPort(authority).value.1
      case None => tail == ""
      case Some(p) => tail != "" && tail[0] == ':' && ParseU16(tail[1..]) == Some(p)
  {
    hide ParseU16;
    if authority != "" && authority[0] == '[' {
      var (before, remainder) := SplitOnce(authority, ']').value;
      host, tail := before[1..], remainder;
      assert before == "[" + host;
      assert authority == "[" + host + "]" + tail;
    } else {
      match SplitOnce(authority, ':') {
        case None =>
          host, tail := authority, "";
        case Some((h, digits)) =>
          host, tail := h, ":" + digits;
          assert tail[1..] == digits;
      }
    }
  }

  lemma HostPortOf(authority: string, host: string, tail: string, port: Option<word16>)
    requires HostTail(authority, host, tail)
    requires match port
      case None => tail == ""
      case Some(p) => tail != "" && tail[0] == ':' && ParseU16(tail[1..]) == Some(p)
    ensures HostPort(authority) == Ok((host, port))
  {
    hide ParseU16;
    if authority != "" && authority[0] == '[' {
      assert authority == ("[" + host) + [']'] + tail;
      SplitOnceAt("[" + host, ']', tail);
      assert ("[" + host)[1..] == host;
    } else if tail != "" {
      assert authority == host + [':'] + tail[1..];
      SplitOnceAt(host, ':', tail[1..]);
    } else {
      assert authority == host;
      assert SplitOnce(authority, ':').None?;
    }
  }

  /** Exactly the authorities of that grammar are read, as their host and port. */
  lemma AuthorityExactly(authority: string, host: string, port: Option<word16>)
    ensures HostPort(authority) == Ok((host, port))
      <==> exists tail :: HostTail(authority, host, tail) && PortTail(tail, port)
  {
    hide HostPort, ParseU16, Spelled;
    if HostPort(authority) == Ok((host, port)) {
      var h, tail := TailOf(authority);
      if port.Some? {
        ParseExactly(tail[1..], port.value);
      }
      assert HostTail(authority, host, tail) && PortTail(tail, port);
    }
    if exists tail :: HostTail(authority, host, tail) && PortTail(tail, port) {
      var tail :| HostTail(authority, host, tail) && PortTail(tail, port);
      if port.Some? {
        ParseExactly(tail[1..], port.value);
      }
      HostPortOf(authority, host, tail, port);
    }
  }

  // ---------------------------------------------------------------- the URL

  /** A rule that begins with "*." covers the hosts with something before its suffix, another just itself. */
  ghost predicate Covered(rule: string, host: string) {
    if "*." <= rule then exists p: string :: p != "" && host == p + rule[2..] else host == Lower(rule)
  }

  ghost predicate Allowed(policy: NavigationPolicy, host: string) {
    policy.allowedDomains == [] || exists rule <- policy.allowedDomains :: Covered(rule, host)
  }

  lemma AllowedExactly(policy: NavigationPolicy, host: string)
    ensures Allowed(policy, host)
      <==> (policy.allowedDomains == [] || exists rule <- policy.allowedDomains :: DomainAllows(rule, host))
  {
    hide Lower;
    forall rule <- policy.allowedDomains ensures Covered(rule, host) <==> DomainAllows(rule, host) {
      if "*." <= rule {
        assert rule == "*." + rule[2..];
        DomainMeaning(rule[2..], host);
      }
    }
  }

  /** A URL is a scheme without a colon, an authority without a slash, and a path that is rooted or missing. */
  predicate Parts(s: string, scheme: string, authority: string, path: string) {
    && s == scheme + "://" + authority + path && ':' !in scheme
    && '/' !in authority && (path == "" || path[0] == '/')
  }

  predicate Plain(s: string) {
    forall c <- s :: !Control(c)
  }

  predicate SchemeAllowed(policy: NavigationPolicy, scheme: string) {
    Lower(scheme) in policy.allowedSchemes && (Lower(scheme) == "webgate" ==> policy.allowCustomScheme)
  }

  function Rooted(path: string): string {
    if path == "" then "/" else path
  }

  /** An authority without user information that names a host and perhaps a port. */
  ghost predicate Names(authority: string, host: string, port: Option<word16>) {
    '@' !in authority && exists tail :: HostTail(authority, host, tail) && PortTail(tail, port)
  }

  /** The URLs of the grammar, and what they say. */
  ghost predicate Says(policy: NavigationPolicy, s: string, v: ValidatedUrl) {
    exists scheme, authority, path, host: string ::
      && Parts(s, scheme, authority, path) && SchemeAllowed(policy, scheme) && v.scheme == Lower(scheme)
      && Names(authority, host, v.port) && host != "" && v.host == Lower(host) && Allowed(policy, v.host)
      && v.path == Rooted(path) && !Segment(v.path, "..", '/')
  }

  lemma CheckedExactly(policy: NavigationPolicy, scheme: string, authority: string, path: string, v: ValidatedUrl)
    ensures Checked(policy, scheme, authority, path) == Ok(v)
      <==> v.scheme == scheme && v.path == path && !Segment(path, "..", '/') && Allowed(policy, v.host)
           && exists host :: Names(authority, host, v.port) && host != "" && v.host == Lower(host)
  {
    hide HostPort, Split, DomainAllows, Allowed, Lower, Segment, HostTail, PortTail;
    SplitExactly(path, "..", '/');
    AllowedExactly(policy, v.host);
    if HostPort(authority).Ok? {
      var (host, port) := HostPort(authority).value;
      AuthorityExactly(authority, host, port);
      AllowedExactly(policy, Lower(host));
    }
    if host :| Names(authority, host, v.port) && host != "" && v.host == Lower(host) {
      AuthorityExactly(authority, host, v.port);
    }
  }

  lemma PartsTaken(policy: NavigationPolicy, s: string, scheme: string, authority: string, path: string)
    requires Parts(s, scheme, authority, path) && Plain(s) && SchemeAllowed(policy, scheme)
    ensures AfterTrim(policy, s) == Checked(policy, Lower(scheme), authority, Rooted(path))
  {
    hide Control, Lower, Checked, SplitOnce;
    var rest := authority + path;
    assert s == scheme + [':'] + ("//" + rest);
    SplitOnceAt(scheme, ':', "//" + rest);
    assert ("//" + rest)[2..] == rest;
    if path == "" {
      assert rest == authority;
    } else {
      assert rest == authority + ['/'] + path[1..];
      SplitOnceAt(authority, '/', path[1..]);
      assert "/" + path[1..] == path;
    }
  }

  lemma PartsFound(policy: NavigationPolicy, s: string) returns (scheme: string, authority: string, path: string)
    requires AfterTrim(policy, s).Ok?
    ensures Parts(s, scheme, authority, path) && Plain(s) && SchemeAllowed(policy, scheme)
  {
    hide Control, Lower, Checked, AfterTrim;
    var rest;
    scheme, rest := AcceptedPieces(policy, s);
    match SplitOnce(rest, '/') {
      case Some((a, p)) =>
        authority, path := a, "/" + p;
        assert rest == authority + path;
      case None =>
        authority, path := rest, "";
        assert s == scheme + "://" + authority + path;
    }
  }

  /** Exactly the URLs of the grammar are accepted, once trimmed and if they hold no control character. */
  lemma ValidateExactly(policy: NavigationPolicy, raw: string, v: ValidatedUrl)
    ensures ValidateUrl(policy, raw) == Ok(v) <==> exists s :: Between(raw, s) && Plain(s) && Says(policy, s, v)
  {
    hide Control, White, Lower, Checked, AfterTrim, Between, Segment, Allowed, Names, Parts;
    var t := Trim(raw);
    TrimExactly(raw, t);
    if ValidateUrl(policy, raw) == Ok(v) {
      var scheme, authority, path := PartsFound(policy, t);
      PartsTaken(policy, t, scheme, authority, path);
      CheckedExactly(policy, Lower(scheme), authority, Rooted(path), v);
      assert Says(policy, t, v);
    }
    if s :| Between(raw, s) && Plain(s) && Says(policy, s, v) {
      TrimExactly(raw, s);
      var scheme, authority, path, host: string :| Parts(s, scheme, authority, path) && SchemeAllowed(policy, scheme)
          && v.scheme == Lower(scheme) && Names(authority, host, v.port) && host != "" && v.host == Lower(host)
          && Allowed(policy, v.host) && v.path == Rooted(path) && !Segment(v.path, "..", '/');
      PartsTaken(policy, s, scheme, authority, path);
      CheckedExactly(policy, Lower(scheme), authority, Rooted(path), v);
    }
  }

  /** A URL is printed with its own path, or with a slash before it where it is not rooted. */
  lemma Printed(v: ValidatedUrl) returns (path: string)
    requires ':' !in v.scheme && '/' !in AuthorityOf(v)
    ensures Parts(AsUrlString(v), v.scheme, AuthorityOf(v), path)
    ensures path != "" && (path == v.path || (path == "/" + v.path && !("/" <= v.path)))
  {
    hide AuthorityOf;
    path := if "/" <= v.path then v.path else "/" + v.path;
  }

  // ---------------------------------------------------------------- the refusals

  /** What each refusal of an authority and a path means. */
  ghost predicate Faulty(policy: NavigationPolicy, authority: string, path: string, e: PolicyError) {
    match e
    case UserInfoForbidden => '@' in authority
    case InvalidPort(n) => n == 0 && '@' !in authority && exists host, digits: string ::
      HostTail(authority, host, ":" + digits) && forall p :: !Spelled(digits, p)
    case MalformedUrl(why) => '@' !in authority && "[" <= authority
      && if ']' in authority then why == "invalid IPv6 authority format" && exists host, tail: string ::
        HostTail(authority, host, tail) && tail != "" && tail[0] != ':'
      else why == "unclosed IPv6 bracket"
    case MissingHost => exists port :: Names(authority, "", port)
    case InvalidPathTraversal =>
      (exists host, port :: host != "" && Names(authority, host, port)) && Segment(path, "..", '/')
    case HostNotAllowed(name) =>
      && (exists host, port :: host != "" && Names(authority, host, port) && name == Lower(host))
      && !Segment(path, "..", '/') && !Allowed(policy, name)
    case _ => false
  }

  lemma HostPortFaulty(policy: NavigationPolicy, authority: string, path: string)
    requires '@' !in authority && HostPort(authority).Err?
    ensures Faulty(policy, authority, path, HostPort(authority).error)
  {
    hide ParseU16, Spelled, Segment, Allowed, Names;
    if authority != "" && authority[0] == '[' {
      if SplitOnce(authority, ']').Some? {
        var (before, tail) := SplitOnce(authority, ']').value;
        var host := before[1..];
        assert before == "[" + host;
        assert HostTail(authority, host, tail);
        if tail[0] == ':' {
          assert tail == ":" + tail[1..];
          Unspelled(tail[1..]);
        }
      }
    } else {
      var (host, digits) := SplitOnce(authority, ':').value;
      assert HostTail(authority, host, ":" + digits);
      Unspelled(digits);
    }
  }

  lemma Unspelled(digits: string)
    requires ParseU16(digits).None?
    ensures forall p :: !Spelled(digits, p)
  {
    forall p ensures !Spelled(digits, p) {
      ParseExactly(digits, p);
    }
  }

  lemma CheckedFaulty(policy: NavigationPolicy, scheme: string, authority: string, path: string)
    requires Checked(policy, scheme, authority, path).Err?
    ensures Faulty(policy, authority, path, Checked(policy, scheme, authority, path).error)
  {
    hide HostPort, Split, DomainAllows, Allowed, Lower, Segment, HostTail, PortTail;
    if '@' !in authority {
      if HostPort(authority).Err? {
        HostPortFaulty(policy, authority, path);
      } else {
        var (host, port) := HostPort(authority).value;
        AuthorityExactly(authority, host, port);
        assert Names(authority, host, port);
        SplitExactly(path, "..", '/');
        AllowedExactly(policy, Lower(host));
      }
    }
  }

  /** What each refusal means once the scheme is split off. */
  ghost predicate Barred(policy: NavigationPolicy, scheme: string, rest: string, e: PolicyError) {
    if Lower(scheme) !in policy.allowedSchemes then e == DisallowedScheme(scheme)
    else if !SchemeAllowed(policy, scheme) then e == DisallowedScheme("webgate scheme disabled")
    else if !("//" <= rest) then e == MalformedUrl("missing // after scheme")
    else exists authority, path: string ::
      Parts(scheme + ":" + rest, scheme, authority, path) && Faulty(policy, authority, Rooted(path), e)
  }

  /** What each refusal means, for the URL without the white space around it. */
  ghost predicate Refused(policy: NavigationPolicy, s: string, e: PolicyError) {
    if s == "" then e == EmptyUrl
    else if !Plain(s) then e == InvalidCharacters
    else if ':' !in s then e == MalformedUrl("missing scheme colon")
    else exists scheme, rest: string ::
      s == scheme + ":" + rest && ':' !in scheme && Barred(policy, scheme, rest, e)
  }

  lemma SchemeRefused(policy: NavigationPolicy, s: string, scheme: string, rest: string)
    requires s == scheme + ":" + rest && ':' !in scheme && Plain(s)
    requires AfterTrim(policy, s).Err?
    ensures Refused(policy, s, AfterTrim(policy, s).error)
  {
    hide Control, Lower, Checked, SplitOnce, Faulty;
    var e := AfterTrim(policy, s).error;
    assert s[|scheme|] == ':';
    SplitOnceAt(scheme, ':', rest);
    if SchemeAllowed(policy, scheme) && "//" <= rest {
      var after := rest[2..];
      assert rest == "//" + after;
      var authority, path := after, "";
      if SplitOnce(after, '/').Some? {
        authority, path := SplitOnce(after, '/').value.0, "/" + SplitOnce(after, '/').value.1;
      }
      assert after == authority + path;
      assert Parts(s, scheme, authority, path);
      PartsTaken(policy, s, scheme, authority, path);
      CheckedFaulty(policy, Lower(scheme), authority, Rooted(path));
    }
  }

  /** Whatever is refused is refused with the error that says what is wrong with it. */
  lemma RefusedFor(policy: NavigationPolicy, raw: string)
    requires ValidateUrl(policy, raw).Err?
    ensures Refused(policy, Trim(raw), ValidateUrl(policy, raw).error)
  {
    hide Control, Lower, Checked, Faulty, Trim, SchemeAllowed;
    var s := Trim(raw);
    if s != "" && Plain(s) && ':' in s {
      var (scheme, rest) := SplitOnce(s, ':').value;
      assert s == scheme + ":" + rest;
      SchemeRefused(policy, s, scheme, rest);
    }
  }
}

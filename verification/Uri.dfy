/** The URI parser and printer of the HTTP client
    (source/kernel/utils/httpClient/uriparser.c), after RFC 3986. */
module Uri {
  import opened CStrings

  const MAX_SCHEME_LENGTH: nat := 32
  const MAX_USERINFO_LENGTH: nat := 256
  const MAX_HOST_LENGTH: nat := 256
  const MAX_PORT_LENGTH: nat := 6
  const MAX_PATH_LENGTH: nat := 2048
  const MAX_QUERY_LENGTH: nat := 2048
  const MAX_FRAGMENT_LENGTH: nat := 256

  datatype Record = Record(scheme: string, userInfo: string, host: string, port: string,
                           path: string, query: string, fragment: string)

  const Blank: Record := Record("", "", "", "", "", "", "")

  // ----- scanning

  predicate IsSchemeChar(c: char) {
    'A' <= c <= 'Z' || 'a' <= c <= 'z' || '0' <= c <= '9' || c == '+' || c == '-' || c == '.'
  }

  /** First index at or after i of a character in stop, or the length of s. */
  function Scan(s: string, i: nat, stop: set<char>): (r: nat)
    requires i <= |s|
    ensures i <= r <= |s|
    decreases |s| - i
  {
    if i == |s| || s[i] in stop then i else Scan(s, i + 1, stop)
  }

  function ScanScheme(s: string, i: nat): (r: nat)
    requires i <= |s|
    ensures i <= r <= |s|
    decreases |s| - i
  {
    if i == |s| || !IsSchemeChar(s[i]) then i else ScanScheme(s, i + 1)
  }

  lemma {:induction false} ScanIs(s: string, i: nat, stop: set<char>, r: nat)
    requires i <= r <= |s| && (r < |s| ==> s[r] in stop)
    requires forall k :: i <= k < r ==> s[k] !in stop
    ensures Scan(s, i, stop) == r
    decreases r - i
  {
    if i < r {
      ScanIs(s, i + 1, stop, r);
    }
  }

  /** No character before the index found is in stop. */
  lemma {:induction false} ScanAtMost(s: string, i: nat, stop: set<char>, j: nat)
    requires i <= j < |s| && s[j] in stop
    ensures Scan(s, i, stop) <= j
    decreases j - i
  {
    if i < j {
      ScanAtMost(s, i + 1, stop, j);
    }
  }

  lemma {:induction false} ScanSchemeIs(s: string, i: nat, r: nat)
    requires i <= r <= |s| && (r < |s| ==> !IsSchemeChar(s[r]))
    requires forall k :: i <= k < r ==> IsSchemeChar(s[k])
    ensures ScanScheme(s, i) == r
    decreases r - i
  {
    if i < r {
      ScanSchemeIs(s, i + 1, r);
    }
  }

  /** A field keeps its old (blank) value when the text does not fit its array. */
  function Fit(t: string, max: nat): (r: string)
    ensures |r| <= |t|
  {
    if |t| < max then t else ""
  }

  // ----- what parsing yields

  datatype Outcome =
    | Parsed(uri: Record)
    | Rejected          // the 0 result
    | Overrun           // a copy ran past the host array: nothing more is said

  /** Host, port and end position, the host ending at hostEnd. */
  function ParseHost(s: string, start: nat, hostEnd: nat): (r: (string, string, nat))
    requires start <= hostEnd < |s|
    ensures hostEnd <= r.2 <= |s|
  {
    var host := Fit(s[start..hostEnd], MAX_HOST_LENGTH);
    if s[hostEnd] == ':' then
      var portEnd := Scan(s, hostEnd + 1, {'/', '?', '#'});
      (host, Fit(s[hostEnd + 1..portEnd], MAX_PORT_LENGTH), portEnd)
    else (host, "", hostEnd)
  }

  /** Fields and end position of an authority that starts at a. */
  datatype Authority = Authority(userInfo: string, host: string, port: string, next: nat) | TooLong

  function ParseAuthority(s: string, a: nat): (r: Authority)
    requires a <= |s|
    ensures r.Authority? ==> a <= r.next <= |s|
  {
    var at := Scan(s, a, {'@'});
    var hostEnd := Scan(s, if at < |s| then at + 1 else a, {':', '/'});
    var user := at < |s| && hostEnd < |s|;
    var userInfo := if user then Fit(s[a..at], MAX_USERINFO_LENGTH) else "";
    var start := if user then at + 1 else a;
    if hostEnd == |s| then
      if |s| - start < MAX_HOST_LENGTH then Authority(userInfo, s[start..], "", |s|) else TooLong
    else
      var (host, port, next) := ParseHost(s, start, hostEnd);
      Authority(userInfo, host, port, next)
  }

  function ParsePath(s: string, i: nat): (r: (string, nat))
    requires i <= |s|
    ensures i <= r.1 <= |s|
  {
    var end := Scan(s, i, {'?', '#'});
    (Fit(s[i..end], MAX_PATH_LENGTH), end)
  }

  function ParseQuery(s: string, i: nat): (r: (string, nat))
    requires i <= |s|
    ensures i <= r.1 <= |s|
  {
    if At(s, i) == '?' then
      var end := Scan(s, i + 1, {'#'});
      (Fit(s[i + 1..end], MAX_QUERY_LENGTH), end)
    else ("", i)
  }

  function ParseFragment(s: string, i: nat): string
    requires i <= |s|
  {
    if At(s, i) == '#' then Fit(s[i + 1..], MAX_FRAGMENT_LENGTH) else ""
  }

  /** Path, query and fragment from position i on. */
  function ParseTail(s: string, i: nat): (string, string, string)
    requires i <= |s|
  {
    var (path, i1) := ParsePath(s, i);
    var (query, i2) := ParseQuery(s, i1);
    (path, query, ParseFragment(s, i2))
  }

  function Parse(s: string): Outcome {
    var k := ScanScheme(s, 0);
    if At(s, k) == ':' && k < MAX_SCHEME_LENGTH then
      if At(s, k + 1) == '/' && At(s, k + 2) == '/' then
        match ParseAuthority(s, k + 3)
        case TooLong => Overrun
        case Authority(userInfo, host, port, next) =>
          var (path, query, fragment) := ParseTail(s, next);
          Parsed(Record(s[..k], userInfo, host, port, path, query, fragment))
      else Rejected
    else
      var (path, query, fragment) := ParseTail(s, 0);
      Parsed(Blank.(path := path, query := query, fragment := fragment))
  }

  // ----- what printing yields

  function UserText(u: Record): string {
    if u.userInfo != "" then u.userInfo + "@" else ""
  }

  function AuthorityText(u: Record): string {
    UserText(u) + u.host + Marked(':', u.port)
  }

  function Marked(mark: char, t: string): string {
    if t != "" then [mark] + t else ""
  }

  function TailText(u: Record): string {
    u.path + Marked('?', u.query) + Marked('#', u.fragment)
  }

  function Text(u: Record): string {
    (if u.scheme != "" then u.scheme + ":" else "")
    + (if u.host != "" then "//" + AuthorityText(u) else "") + TailText(u)
  }

  // ----- round trip

  predicate Free(t: string, stop: set<char>) {
    forall k :: 0 <= k < |t| ==> t[k] !in stop
  }

  /** The characters of a scheme: ALPHA, DIGIT and three marks, section 3.1 of RFC 3986, with the
      codes of RFC 5234, appendix B.1. */
  predicate SchemeChar(c: char) {
    var x := c as int;
    0x41 <= x <= 0x5A || 0x61 <= x <= 0x7A || 0x30 <= x <= 0x39 || x == 0x2B || x == 0x2D || x == 0x2E
  }

  lemma SchemeChars(c: char)
    ensures SchemeChar(c) <==> IsSchemeChar(c)
  {
  }

  /** Each field is free of the characters that end it. */
  ghost predicate Shaped(u: Record) {
    && 0 < |u.scheme| < MAX_SCHEME_LENGTH && (forall k :: 0 <= k < |u.scheme| ==> SchemeChar(u.scheme[k]))
    && u.host != "" && Free(u.host, {':', '/'}) && Free(u.port, {'/', '?', '#'})
    && (u.path != "" ==> u.path[0] == '/') && Free(u.path, {'?', '#'}) && Free(u.query, {'#'})
  }

  /** Each field fits its array. */
  predicate Fits(u: Record) {
    && |u.userInfo| < MAX_USERINFO_LENGTH && |u.host| < MAX_HOST_LENGTH && |u.port| < MAX_PORT_LENGTH
    && |u.path| < MAX_PATH_LENGTH && |u.query| < MAX_QUERY_LENGTH && |u.fragment| < MAX_FRAGMENT_LENGTH
  }

  ghost predicate WellFormed(u: Record) {
    Shaped(u) && Fits(u)
  }

  /** A field that does not fit its array, with its terminator, is left blank. */
  function OrBlank(t: string, size: nat): string {
    if |t| + 1 > size then "" else t
  }

  function Stored(u: Record): Record {
    Record(u.scheme, OrBlank(u.userInfo, 256), OrBlank(u.host, 256), OrBlank(u.port, 6),
           OrBlank(u.path, 2048), OrBlank(u.query, 2048), OrBlank(u.fragment, 256))
  }

  lemma StoredIs(u: Record)
    ensures Stored(u) == Record(u.scheme, Fit(u.userInfo, MAX_USERINFO_LENGTH), Fit(u.host, MAX_HOST_LENGTH),
                                Fit(u.port, MAX_PORT_LENGTH), Fit(u.path, MAX_PATH_LENGTH),
                                Fit(u.query, MAX_QUERY_LENGTH), Fit(u.fragment, MAX_FRAGMENT_LENGTH))
    ensures Fits(u) ==> Stored(u) == u
  {
  }

  /** No '@' inside the user information and, when there is none to end, no '@' at all:
      the parser takes the first '@' of everything after "//" as the end of that field. */
  predicate AtSignsHarmless(u: Record) {
    && Free(u.userInfo, {'@'})
    && (u.userInfo == "" ==>
          && Free(u.host, {'@'}) && Free(u.port, {'@'}) && Free(u.path, {'@'})
          && Free(u.query, {'@'}) && Free(u.fragment, {'@'}))
  }

  lemma FreeJoin(a: string, b: string, stop: set<char>)
    ensures Free(a + b, stop) <==> Free(a, stop) && Free(b, stop)
  {
    assert forall k :: 0 <= k < |a| ==> (a + b)[k] == a[k];
    assert forall k :: 0 <= k < |b| ==> (a + b)[|a| + k] == b[k];
  }

  /** The text after "//". */
  function Body(u: Record): string {
    AuthorityText(u) + TailText(u)
  }

  lemma BodyFree(u: Record)
    requires u.userInfo == ""
    ensures Free(Body(u), {'@'}) <==> AtSignsHarmless(u)
  {
    var p, q, f := Marked(':', u.port), Marked('?', u.query), Marked('#', u.fragment);
    MarkedFree(':', u.port);
    MarkedFree('?', u.query);
    MarkedFree('#', u.fragment);
    FreeJoin(u.path, q, {'@'});
    FreeJoin(u.path + q, f, {'@'});
    assert "" + u.host == u.host;
    FreeJoin(u.host, p, {'@'});
    FreeJoin(AuthorityText(u), TailText(u), {'@'});
  }

  lemma MarkedFree(mark: char, t: string)
    requires mark != '@'
    ensures Free(Marked(mark, t), {'@'}) <==> Free(t, {'@'})
  {
    FreeJoin([mark], t, {'@'});
  }

  lemma Middle(pre: string, mid: string, post: string)
    ensures (pre + mid + post)[|pre|..|pre| + |mid|] == mid
  {
  }

  lemma Join(a: string, b: string, c: string)
    ensures (a + b) + c == a + (b + c)
  {
  }

  lemma PathRoundTrip(pre: string, path: string, rest: string)
    requires Free(path, {'?', '#'}) && (rest != "" ==> rest[0] in {'?', '#'})
    ensures ParsePath(pre + path + rest, |pre|) == (Fit(path, MAX_PATH_LENGTH), |pre| + |path|)
  {
    var s := pre + path + rest;
    Middle(pre, path, rest);
    ScanIs(s, |pre|, {'?', '#'}, |pre| + |path|);
  }

  lemma QueryRoundTrip(pre: string, query: string, rest: string)
    requires Free(query, {'#'}) && (rest != "" ==> rest[0] == '#')
    ensures ParseQuery(pre + Marked('?', query) + rest, |pre|)
         == (Fit(query, MAX_QUERY_LENGTH), |pre| + |Marked('?', query)|)
  {
    var s := pre + Marked('?', query) + rest;
    if query != "" {
      assert s == (pre + "?") + query + rest;
      Middle(pre + "?", query, rest);
      ScanIs(s, |pre| + 1, {'#'}, |pre| + 1 + |query|);
    }
  }

  lemma FragmentRoundTrip(pre: string, fragment: string)
    ensures ParseFragment(pre + Marked('#', fragment), |pre|) == Fit(fragment, MAX_FRAGMENT_LENGTH)
  {
    if fragment != "" {
      assert (pre + Marked('#', fragment))[|pre| + 1..] == fragment;
    }
  }

  /** The tail as printed parses back, up to fields that do not fit. */
  lemma TailRoundTrip(u: Record, pre: string)
    requires Free(u.path, {'?', '#'}) && Free(u.query, {'#'})
    ensures ParseTail(pre + TailText(u), |pre|) == (Stored(u).path, Stored(u).query, Stored(u).fragment)
  {
    var s, q, f := pre + TailText(u), Marked('?', u.query), Marked('#', u.fragment);
    assert s == pre + u.path + (q + f) == (pre + u.path) + q + f == (pre + u.path + q) + f;
    PathRoundTrip(pre, u.path, q + f);
    QueryRoundTrip(pre + u.path, u.query, f);
    FragmentRoundTrip(pre + u.path + q, u.fragment);
  }

  lemma HostLocated(s: string, pre: string, host: string, rest: string)
    requires s == pre + host + rest
    requires Free(host, {':', '/'}) && rest != "" && rest[0] in {':', '/'}
    ensures Scan(s, |pre|, {':', '/'}) == |pre| + |host| < |s|
    ensures s[|pre|..|pre| + |host|] == host && s[|pre| + |host|] == rest[0]
  {
    Middle(pre, host, rest);
    ScanIs(s, |pre|, {':', '/'}, |pre| + |host|);
  }

  lemma PortLocated(s: string, pre: string, port: string, tail: string)
    requires s == pre + port + tail
    requires Free(port, {'/', '?', '#'}) && (tail != "" ==> tail[0] in {'/', '?', '#'})
    ensures Scan(s, |pre|, {'/', '?', '#'}) == |pre| + |port| && s[|pre|..|pre| + |port|] == port
  {
    Middle(pre, port, tail);
    ScanIs(s, |pre|, {'/', '?', '#'}, |pre| + |port|);
  }

  lemma HostAlone(s: string, pre: string, host: string, rest: string, start: nat, hostEnd: nat)
    requires s == pre + host + rest && start == |pre| && hostEnd == start + |host|
    requires Free(host, {':', '/'}) && rest != "" && rest[0] == '/'
    ensures Scan(s, start, {':', '/'}) == hostEnd < |s|
    ensures ParseHost(s, start, hostEnd) == (Fit(host, MAX_HOST_LENGTH), "", hostEnd)
  {
    HostLocated(s, pre, host, rest);
  }

  /** ParseHost once the ends of its fields are known. */
  lemma HostFrom(s: string, start: nat, hostEnd: nat, portEnd: nat, host: string, port: string)
    requires start <= hostEnd < |s| && s[hostEnd] == ':' && portEnd == Scan(s, hostEnd + 1, {'/', '?', '#'})
    requires s[start..hostEnd] == host && s[hostEnd + 1..portEnd] == port
    ensures ParseHost(s, start, hostEnd) == (Fit(host, MAX_HOST_LENGTH), Fit(port, MAX_PORT_LENGTH), portEnd)
  {
  }

  lemma HostWithPort(s: string, pre: string, host: string, port: string, tail: string,
                     start: nat, hostEnd: nat, portEnd: nat)
    requires s == pre + host + ([':'] + port + tail)
    requires start == |pre| && hostEnd == start + |host| && portEnd == hostEnd + 1 + |port|
    requires Free(host, {':', '/'}) && Free(port, {'/', '?', '#'})
    requires tail != "" ==> tail[0] in {'/', '?', '#'}
    ensures Scan(s, start, {':', '/'}) == hostEnd < |s|
    ensures ParseHost(s, start, hostEnd) == (Fit(host, MAX_HOST_LENGTH), Fit(port, MAX_PORT_LENGTH), portEnd)
  {
    assert s[start..hostEnd] == host && Scan(s, start, {':', '/'}) == hostEnd < |s| && s[hostEnd] == ':' by {
      HostLocated(s, pre, host, [':'] + port + tail);
    }
    assert Scan(s, hostEnd + 1, {'/', '?', '#'}) == portEnd && s[hostEnd + 1..portEnd] == port by {
      assert s == pre + host + [':'] + port + tail;
      PortLocated(s, pre + host + [':'], port, tail);
    }
    HostFrom(s, start, hostEnd, portEnd, host, port);
  }

  /** A port or a path ends the host. */
  lemma HostRoundTrip(s: string, pre: string, host: string, port: string, tail: string,
                      start: nat, hostEnd: nat, portEnd: nat)
    requires s == pre + host + (Marked(':', port) + tail)
    requires start == |pre| && hostEnd == start + |host| && portEnd == hostEnd + |Marked(':', port)|
    requires Free(host, {':', '/'}) && Free(port, {'/', '?', '#'})
    requires (tail != "" ==> tail[0] in {'/', '?', '#'}) && (port == "" ==> tail != "" && tail[0] == '/')
    ensures Scan(s, start, {':', '/'}) == hostEnd < |s|
    ensures ParseHost(s, start, hostEnd) == (Fit(host, MAX_HOST_LENGTH), Fit(port, MAX_PORT_LENGTH), portEnd)
  {
    if port == "" {
      assert Marked(':', port) + tail == tail;
      HostAlone(s, pre, host, tail, start, hostEnd);
    } else {
      HostWithPort(s, pre, host, port, tail, start, hostEnd, portEnd);
    }
  }

  /** ParseAuthority once its delimiters are known and the host ends before the text does. */
  lemma AuthorityFrom(s: string, a: nat, at: nat, start: nat, hostEnd: nat)
    requires a <= |s| && at == Scan(s, a, {'@'}) && start == (if at < |s| then at + 1 else a)
    requires hostEnd == Scan(s, start, {':', '/'}) < |s|
    ensures ParseAuthority(s, a) ==
            var (host, port, next) := ParseHost(s, start, hostEnd);
            Authority(if at < |s| then Fit(s[a..at], MAX_USERINFO_LENGTH) else "", host, port, next)
  {
  }

  /** ParseAuthority when neither a colon nor a slash ends the host. */
  lemma AuthorityOpen(s: string, a: nat, start: nat)
    requires a <= |s| && start == (if Scan(s, a, {'@'}) < |s| then Scan(s, a, {'@'}) + 1 else a)
    requires Scan(s, start, {':', '/'}) == |s|
    ensures ParseAuthority(s, a) == if |s| - a < MAX_HOST_LENGTH then Authority("", s[a..], "", |s|) else TooLong
  {
  }

  /** The '@' the parser finds is the one that ends the user information. */
  lemma UserLocated(s: string, pre: string, user: string, rest: string)
    requires s == (pre + user + "@") + rest && Free(user, {'@'})
    ensures Scan(s, |pre|, {'@'}) == |pre| + |user| < |s| && s[|pre|..|pre| + |user|] == user
  {
    Join(pre + user, "@", rest);
    Middle(pre, user, "@" + rest);
    ScanIs(s, |pre|, {'@'}, |pre| + |user|);
  }

  lemma NoAtSign(s: string, pre: string, rest: string)
    requires s == pre + rest && Free(rest, {'@'})
    ensures Scan(s, |pre|, {'@'}) == |s|
  {
    assert forall k :: |pre| <= k < |s| ==> s[k] == rest[k - |pre|];
    ScanIs(s, |pre|, {'@'}, |s|);
  }

  /** Something follows the host that ends it. */
  predicate HostEnds(u: Record) {
    u.path != "" || u.port != ""
  }

  lemma TailStart(u: Record)
    requires Shaped(u)
    ensures TailText(u) != "" ==> TailText(u)[0] in {'/', '?', '#'}
    ensures u.path != "" ==> TailText(u) != "" && TailText(u)[0] == '/'
  {
  }

  lemma AuthorityWithUser(s: string, pre: string, u: Record, a: nat, next: nat)
    requires Shaped(u) && HostEnds(u) && u.userInfo != "" && Free(u.userInfo, {'@'})
    requires s == (pre + u.userInfo + "@") + u.host + (Marked(':', u.port) + TailText(u))
    requires a == |pre| && next == a + |u.userInfo| + 1 + |u.host| + |Marked(':', u.port)|
    ensures ParseAuthority(s, a) == Authority(Stored(u).userInfo, Stored(u).host, Stored(u).port, next)
  {
    var front, rest := pre + u.userInfo + "@", Marked(':', u.port) + TailText(u);
    var at := a + |u.userInfo|;
    var start := at + 1;
    assert Scan(s, a, {'@'}) == at < |s| && s[a..at] == u.userInfo by {
      Join(front, u.host, rest);
      UserLocated(s, pre, u.userInfo, u.host + rest);
    }
    TailStart(u);
    HostRoundTrip(s, front, u.host, u.port, TailText(u), start, start + |u.host|, next);
    AuthorityFrom(s, a, at, start, start + |u.host|);
  }

  lemma AuthorityWithoutUser(s: string, pre: string, u: Record, a: nat, next: nat)
    requires Shaped(u) && HostEnds(u)
    requires s == pre + u.host + (Marked(':', u.port) + TailText(u)) && a == |pre| && Scan(s, a, {'@'}) == |s|
    requires next == a + |u.host| + |Marked(':', u.port)|
    ensures ParseAuthority(s, a) == Authority("", Stored(u).host, Stored(u).port, next)
  {
    TailStart(u);
    HostRoundTrip(s, pre, u.host, u.port, TailText(u), a, a + |u.host|, next);
    AuthorityFrom(s, a, |s|, a, a + |u.host|);
  }

  /** The authority as printed parses back when '@' signs do no harm. */
  lemma AuthorityRoundTrip(u: Record, s: string, pre: string, a: nat, next: nat)
    requires Shaped(u) && HostEnds(u) && AtSignsHarmless(u) && s == pre + Body(u)
    requires a == |pre| && next == a + |AuthorityText(u)|
    ensures ParseAuthority(s, a) == Authority(Stored(u).userInfo, Stored(u).host, Stored(u).port, next)
  {
    var user, p, tail := UserText(u), Marked(':', u.port), TailText(u);
    BodySplit(s, pre, user, u.host, p, tail);
    if u.userInfo != "" {
      Join(pre, u.userInfo, "@");
      AuthorityWithUser(s, pre, u, a, next);
    } else {
      BodyFree(u);
      NoAtSign(s, pre, Body(u));
      assert pre + user == pre;
      AuthorityWithoutUser(s, pre, u, a, next);
    }
  }

  lemma BodySplit(s: string, pre: string, user: string, host: string, port: string, tail: string)
    requires s == pre + ((user + host + port) + tail)
    ensures s == (pre + user) + host + (port + tail)
  {
  }

  /** Everything before the authority: scheme, colon, two slashes. */
  lemma SchemeRoundTrip(s: string, scheme: string, rest: string)
    requires s == scheme + "://" + rest && forall k :: 0 <= k < |scheme| ==> SchemeChar(scheme[k])
    ensures ScanScheme(s, 0) == |scheme| && |s| >= |scheme| + 3 && s[..|scheme|] == scheme
    ensures var k := |scheme|; At(s, k) == ':' && At(s, k + 1) == '/' && At(s, k + 2) == '/'
  {
    forall k | 0 <= k < |scheme| ensures IsSchemeChar(s[k]) {
      assert s[k] == scheme[k];
      SchemeChars(s[k]);
    }
    ScanSchemeIs(s, 0, |scheme|);
  }

  lemma TextSplit(u: Record)
    requires Shaped(u)
    ensures Text(u) == (u.scheme + "://") + Body(u)
  {
    var a, t := AuthorityText(u), TailText(u);
    assert u.scheme + ":" + ("//" + a) + t == (u.scheme + "://") + (a + t);
  }

  /** What Parse makes of a text that starts with a scheme and "://". */
  lemma ParseFrom(s: string, scheme: string, rest: string)
    requires s == (scheme + "://") + rest && |scheme| < MAX_SCHEME_LENGTH
    requires forall k :: 0 <= k < |scheme| ==> SchemeChar(scheme[k])
    ensures |scheme| + 3 <= |s|
    ensures Parse(s) == match ParseAuthority(s, |scheme| + 3)
                        case TooLong => Overrun
                        case Authority(userInfo, host, port, next) =>
                          var (path, query, fragment) := ParseTail(s, next);
                          Parsed(Record(scheme, userInfo, host, port, path, query, fragment))
  {
    SchemeRoundTrip(s, scheme, rest);
  }

  /** Printing then parsing gives back every field that fits, and blanks the others. */
  lemma RoundTrip(u: Record)
    requires Shaped(u) && HostEnds(u) && AtSignsHarmless(u)
    ensures Parse(Text(u)) == Parsed(Stored(u))
  {
    var s, pre, a, t := Text(u), u.scheme + "://", AuthorityText(u), TailText(u);
    TextSplit(u);
    ParseFrom(s, u.scheme, Body(u));
    AuthorityRoundTrip(u, s, pre, |pre|, |pre + a|);
    Join(pre, a, t);
    TailRoundTrip(u, pre + a);
  }

  // ----- and nowhere else

  lemma HostLength(s: string, start: nat, hostEnd: nat)
    requires start <= hostEnd < |s|
    ensures var (host, port, next) := ParseHost(s, start, hostEnd);
            |host| + |Marked(':', port)| <= next - start
  {
  }

  lemma TailLength(s: string, i: nat)
    requires i <= |s|
    ensures var (path, query, fragment) := ParseTail(s, i);
            |path| + |Marked('?', query)| + |Marked('#', fragment)| <= |s| - i
  {
    var (path, i1) := ParsePath(s, i);
    var (query, i2) := ParseQuery(s, i1);
    assert |path| <= i1 - i;
    assert |Marked('?', query)| <= i2 - i1;
  }

  /** An '@' inside the user information ends that field early. */
  lemma UserCut(s: string, pre: string, user: string, rest: string)
    requires s == pre + (user + rest) && !Free(user, {'@'})
    ensures var r := ParseAuthority(s, |pre|); r.Authority? ==> r.userInfo != user
  {
    var j :| 0 <= j < |user| && user[j] == '@';
    assert s[|pre| + j] == '@';
    ScanAtMost(s, |pre|, {'@'}, |pre| + j);
  }

  /** Without user information, an '@' further on swallows what precedes it. */
  lemma HostCut(s: string, pre: string, rest: string)
    requires s == pre + rest && !Free(rest, {'@'})
    ensures var r := ParseAuthority(s, |pre|);
            r.Authority? && r.userInfo == "" ==>
              r.host == rest || |r.host| + |Marked(':', r.port)| < r.next - |pre|
  {
    var a := |pre|;
    var j :| 0 <= j < |rest| && rest[j] == '@';
    assert s[a + j] == '@';
    ScanAtMost(s, a, {'@'}, a + j);
    var at := Scan(s, a, {'@'});
    var hostEnd := Scan(s, at + 1, {':', '/'});
    if hostEnd < |s| {
      HostLength(s, at + 1, hostEnd);
      AuthorityFrom(s, a, at, at + 1, hostEnd);
    } else {
      AuthorityOpen(s, a, at + 1);
      assert s[a..] == rest;
    }
  }

  /** The record parsed after an unmarked '@' is shorter than the one printed. */
  lemma HarmWithoutUser(u: Record, s: string, pre: string, a: nat, r: Authority)
    requires Shaped(u) && HostEnds(u) && u.userInfo == "" && !AtSignsHarmless(u)
    requires s == pre + Body(u) && a == |pre| && r == ParseAuthority(s, a) && r.Authority?
    ensures var (path, query, fragment) := ParseTail(s, r.next);
            (r.userInfo, r.host, r.port, path, query, fragment) !=
            (u.userInfo, u.host, u.port, u.path, u.query, u.fragment)
  {
    BodyFree(u);
    HostCut(s, pre, Body(u));
    TailLength(s, r.next);
    BodyLength(u);
  }

  lemma BodyLength(u: Record)
    ensures |Body(u)| == |UserText(u)| + |u.host| + |Marked(':', u.port)|
                        + |u.path| + |Marked('?', u.query)| + |Marked('#', u.fragment)|
    ensures HostEnds(u) ==> |Body(u)| > |u.host|
  {
  }

  lemma HarmWithUser(u: Record, s: string, pre: string, a: nat)
    requires u.userInfo != "" && !AtSignsHarmless(u)
    requires s == pre + Body(u) && a == |pre|
    ensures var r := ParseAuthority(s, a); r.Authority? ==> r.userInfo != u.userInfo
  {
    var p := Marked(':', u.port);
    var rest := "@" + u.host + p + TailText(u);
    UserFirst(u.userInfo, u.host, p, TailText(u));
    UserCut(s, pre, u.userInfo, rest);
  }

  lemma UserFirst(user: string, host: string, port: string, tail: string)
    ensures (user + "@" + host + port) + tail == user + ("@" + host + port + tail)
  {
  }

  lemma HarmDone(u: Record)
    requires Shaped(u) && HostEnds(u) && !AtSignsHarmless(u)
    ensures Parse(Text(u)) != Parsed(u)
  {
    var s, pre := Text(u), u.scheme + "://";
    TextSplit(u);
    ParseFrom(s, u.scheme, Body(u));
    var a := |pre|;
    var r := ParseAuthority(s, a);
    if u.userInfo != "" {
      HarmWithUser(u, s, pre, a);
    } else if r.Authority? {
      HarmWithoutUser(u, s, pre, a, r);
    }
  }

  // ----- a host that nothing ends

  lemma OpenHostBack(u: Record)
    requires WellFormed(u) && !HostEnds(u) && u.userInfo == "" && u.query == "" && u.fragment == ""
    ensures Parse(Text(u)) == Parsed(u)
  {
    TextSplit(u);
    assert Body(u) == u.host;
    ParseFrom(Text(u), u.scheme, u.host);
    HostToEnd(Text(u), |u.scheme| + 3, u.host);
  }

  lemma HostToEnd(s: string, a: nat, host: string)
    requires a <= |s| && s[a..] == host && Free(host, {':', '/'}) && |host| < MAX_HOST_LENGTH
    ensures ParseAuthority(s, a) == Authority("", host, "", |s|)
  {
    var at := Scan(s, a, {'@'});
    var start := if at < |s| then at + 1 else a;
    assert forall k :: a <= k < |s| ==> s[k] == host[k - a];
    ScanIs(s, start, {':', '/'}, |s|);
    AuthorityOpen(s, a, start);
  }

  /** When a colon or a slash ends the host found, and neither port nor path comes of it,
      something of the text is lost. */
  lemma EndLost(s: string, a: nat, r: Authority)
    requires a <= |s| && r == ParseAuthority(s, a) && r.Authority? && r.port == ""
    requires var start := if Scan(s, a, {'@'}) < |s| then Scan(s, a, {'@'}) + 1 else a; Scan(s, start, {':', '/'}) < |s|
    requires ParseTail(s, r.next).0 == ""
    ensures var (path, query, fragment) := ParseTail(s, r.next);
            UserLength(r) + |r.host| + |Marked('?', query)| + |Marked('#', fragment)| < |s| - a
  {
    var at := Scan(s, a, {'@'});
    var start := if at < |s| then at + 1 else a;
    var hostEnd := Scan(s, start, {':', '/'});
    ScanFinds(s, start, {':', '/'});
    FrontLength(s, a, r, at, start, hostEnd);
    TailLength(s, r.next);
    if s[hostEnd] == '/' {
      PathMoves(s, r.next);
    }
  }

  function UserLength(r: Authority): nat
    requires r.Authority?
  {
    if r.userInfo != "" then |r.userInfo| + 1 else 0
  }

  lemma FrontLength(s: string, a: nat, r: Authority, at: nat, start: nat, hostEnd: nat)
    requires a <= |s| && r == ParseAuthority(s, a) && r.Authority? && r.port == "" && at == Scan(s, a, {'@'})
    requires start == (if at < |s| then at + 1 else a) && hostEnd == Scan(s, start, {':', '/'}) < |s|
    ensures UserLength(r) + |r.host| <= r.next - a
    ensures if s[hostEnd] == ':' then UserLength(r) + |r.host| < r.next - a else r.next == hostEnd
  {
    AuthorityFrom(s, a, at, start, hostEnd);
    HostLength(s, start, hostEnd);
    assert UserLength(r) <= start - a;
  }

  lemma {:induction false} ScanFinds(s: string, i: nat, stop: set<char>)
    requires i <= |s|
    ensures Scan(s, i, stop) < |s| ==> s[Scan(s, i, stop)] in stop
    decreases |s| - i
  {
    if i < |s| && s[i] !in stop {
      ScanFinds(s, i + 1, stop);
    }
  }

  lemma PathMoves(s: string, i: nat)
    requires i < |s| && s[i] == '/' && ParsePath(s, i).0 == ""
    ensures var (path, query, fragment) := ParseTail(s, i);
            |path| + |Marked('?', query)| + |Marked('#', fragment)| < |s| - i
  {
    var (path, i1) := ParsePath(s, i);
    assert i1 > i;
    var (query, i2) := ParseQuery(s, i1);
    assert |Marked('?', query)| <= i2 - i1;
  }

  lemma OpenHostLost(u: Record)
    requires Shaped(u) && !HostEnds(u) && (u.userInfo != "" || u.query != "" || u.fragment != "")
    ensures Parse(Text(u)) != Parsed(u)
  {
    var s, pre := Text(u), u.scheme + "://";
    TextSplit(u);
    ParseFrom(s, u.scheme, Body(u));
    var r := ParseAuthority(s, |pre|);
    if r.Authority? {
      OpenHostDiffers(u, s, pre, |pre|, r);
    }
  }

  /** What is parsed where nothing ends the host differs from a record with more than a host. */
  lemma OpenHostDiffers(u: Record, s: string, pre: string, a: nat, r: Authority)
    requires !HostEnds(u) && (u.userInfo != "" || u.query != "" || u.fragment != "")
    requires s == pre + Body(u) && a == |pre| && r == ParseAuthority(s, a) && r.Authority?
    ensures var (path, query, fragment) := ParseTail(s, r.next);
            (r.userInfo, r.host, r.port, path, query, fragment) !=
            (u.userInfo, u.host, u.port, u.path, u.query, u.fragment)
  {
    BodyLength(u);
    var at := Scan(s, a, {'@'});
    var start := if at < |s| then at + 1 else a;
    if Scan(s, start, {':', '/'}) == |s| {
      AuthorityOpen(s, a, start);
      assert s[a..] == Body(u);
    } else if r.port == "" && ParseTail(s, r.next).0 == "" {
      EndLost(s, a, r);
    }
  }

  /** Printing then parsing gives the record back exactly when no '@' is misread; and, where
      neither port nor path ends the host, when there is nothing but a scheme and a host. */
  lemma RoundTripIff(u: Record)
    requires WellFormed(u)
    ensures Parse(Text(u)) == Parsed(u) <==>
            if HostEnds(u) then AtSignsHarmless(u) else u.userInfo == "" && u.query == "" && u.fragment == ""
  {
    if HostEnds(u) {
      StoredIs(u);
      if AtSignsHarmless(u) {
        RoundTrip(u);
      } else {
        HarmDone(u);
      }
    } else if u.userInfo == "" && u.query == "" && u.fragment == "" {
      OpenHostBack(u);
    } else {
      OpenHostLost(u);
    }
  }

  /** A record that does not survive: its user information holds an '@'. */
  lemma AtSignLost()
    ensures var u := Record("http", "a@b", "h", "", "/", "", "");
            WellFormed(u) && !AtSignsHarmless(u) && Parse(Text(u)) != Parsed(u)
  {
    var u := Record("http", "a@b", "h", "", "/", "", "");
    assert "a@b"[1] == '@';
    HarmDone(u);
  }

  /** And another: the query is taken for part of the host. */
  lemma QueryInHost()
    ensures var u := Record("http", "", "h", "", "", "q", "");
            WellFormed(u) && AtSignsHarmless(u) && Parse(Text(u)) != Parsed(u)
  {
    RoundTripIff(Record("http", "", "h", "", "", "q", ""));
  }
}

/** What the URI parser does with texts that have no authority, and which texts it refuses
    (source/kernel/utils/httpClient/uriparser.c). */
module UriReferences {
  import opened CStrings
  import opened Uri

  /** t starts with k scheme characters, few enough for the scheme array, and a colon. */
  ghost predicate SchemeEnds(t: string, k: nat) {
    k < |t| && k < MAX_SCHEME_LENGTH && t[k] == ':' && forall i :: 0 <= i < k ==> SchemeChar(t[i])
  }

  ghost predicate TakenForScheme(t: string) {
    exists k :: SchemeEnds(t, k)
  }

  lemma SchemeBranch(s: string)
    ensures var k := ScanScheme(s, 0); At(s, k) == ':' && k < MAX_SCHEME_LENGTH <==> SchemeEnds(s, k)
    ensures forall k :: SchemeEnds(s, k) ==> k == ScanScheme(s, 0)
  {
    SchemeRun(s, 0);
    forall k | SchemeEnds(s, k) ensures k == ScanScheme(s, 0) {
      forall i | 0 <= i < k ensures IsSchemeChar(s[i]) {
        SchemeChars(s[i]);
      }
      ScanSchemeIs(s, 0, k);
    }
  }

  lemma {:induction false} SchemeRun(s: string, i: nat)
    requires i <= |s|
    ensures forall k :: i <= k < ScanScheme(s, i) ==> SchemeChar(s[k])
    decreases |s| - i
  {
    if i < |s| {
      SchemeChars(s[i]);
      if IsSchemeChar(s[i]) {
        SchemeRun(s, i + 1);
      }
    }
  }

  // ----- references without scheme and host

  ghost predicate Reference(u: Record) {
    && u.scheme == "" && u.userInfo == "" && u.host == "" && u.port == ""
    && Free(u.path, {'?', '#'}) && Free(u.query, {'#'})
  }

  lemma ReferenceText(u: Record)
    requires Reference(u)
    ensures Text(u) == TailText(u) && |Text(u)| == |u.path| + |Marked('?', u.query)| + |Marked('#', u.fragment)|
  {
    assert "" + "" + TailText(u) == TailText(u);
  }

  /** Only the path can look like a scheme: what follows it starts with a mark. */
  lemma SchemeInPath(u: Record)
    requires Reference(u)
    ensures TakenForScheme(Text(u)) <==> TakenForScheme(u.path)
  {
    ReferenceText(u);
    var s := Text(u);
    assert u.path <= s;
    if k :| SchemeEnds(s, k) {
      if |u.path| <= k {
        assert s[|u.path|] in {'?', '#'};
        SchemeChars(s[|u.path|]);
      }
      assert SchemeEnds(u.path, k);
    }
    if k :| SchemeEnds(u.path, k) {
      assert SchemeEnds(s, k);
    }
  }

  /** Printing then parsing gives back every field that fits, and blanks the others. */
  lemma ReferenceRoundTrip(u: Record)
    requires Reference(u) && !TakenForScheme(u.path)
    ensures Parse(Text(u)) == Parsed(Stored(u))
  {
    ReferenceText(u);
    SchemeInPath(u);
    SchemeBranch(Text(u));
    TailRoundTrip(u, "");
    assert "" + TailText(u) == TailText(u);
  }

  lemma ReferenceTaken(u: Record)
    requires Reference(u) && TakenForScheme(u.path)
    ensures Parse(Text(u)) != Parsed(u)
  {
    ReferenceText(u);
    SchemeInPath(u);
    SchemeBranch(Text(u));
    if Parse(Text(u)).Parsed? {
      Shortened(Text(u), ScanScheme(Text(u), 0));
    }
  }

  /** What follows a scheme is shorter than the text. */
  lemma Shortened(s: string, k: nat)
    requires SchemeEnds(s, k) && k == ScanScheme(s, 0) && Parse(s).Parsed?
    ensures var u := Parse(s).uri; |u.path| + |Marked('?', u.query)| + |Marked('#', u.fragment)| < |s|
  {
    TailLength(s, ParseAuthority(s, k + 3).next);
  }

  /** A record without scheme and host comes back exactly when its path does not start with
      scheme characters and a colon. */
  lemma ReferenceRoundTripIff(u: Record)
    requires Reference(u) && Fits(u)
    ensures Parse(Text(u)) == Parsed(u) <==> !TakenForScheme(u.path)
  {
    if TakenForScheme(u.path) {
      ReferenceTaken(u);
    } else {
      ReferenceRoundTrip(u);
      StoredIs(u);
    }
  }

  /** A path whose first part is taken for a scheme. */
  lemma PathTaken()
    ensures var u := Blank.(path := "a:b"); Reference(u) && Fits(u) && Parse(Text(u)) != Parsed(u)
  {
    assert SchemeEnds("a:b", 1);
    ReferenceRoundTripIff(Blank.(path := "a:b"));
  }

  // ----- records with only one of scheme and host

  /** Without a scheme, an authority comes back as part of the path. */
  lemma HostInPath(u: Record, v: Record)
    requires u.scheme == "" && u.host != "" && Free(u.path, {'?', '#'}) && Free(u.query, {'#'})
    requires Free(u.userInfo, {'?', '#'}) && Free(u.host, {'?', '#'}) && Free(u.port, {'?', '#'})
    requires v == Blank.(path := "//" + (if u.userInfo != "" then u.userInfo + "@" else "") + u.host
                                 + (if u.port != "" then ":" + u.port else "") + u.path,
                         query := u.query, fragment := u.fragment)
    ensures Parse(Text(u)) == Parsed(Stored(v))
  {
    PathFree(u, v.path);
    ReferenceText(v);
    Regrouped("//", UserText(u), u.host, Marked(':', u.port), u.path, Marked('?', u.query), Marked('#', u.fragment));
    assert v.path[0] == '/';
    ReferenceRoundTrip(v);
  }

  lemma PathFree(u: Record, path: string)
    requires Free(u.path, {'?', '#'})
    requires Free(u.userInfo, {'?', '#'}) && Free(u.host, {'?', '#'}) && Free(u.port, {'?', '#'})
    requires path == "//" + UserText(u) + u.host + Marked(':', u.port) + u.path
    ensures Free(path, {'?', '#'})
  {
    var user, port := UserText(u), Marked(':', u.port);
    FreeJoin(u.userInfo, "@", {'?', '#'});
    FreeJoin(":", u.port, {'?', '#'});
    FreeJoin("//", user, {'?', '#'});
    FreeJoin("//" + user, u.host, {'?', '#'});
    FreeJoin("//" + user + u.host, port, {'?', '#'});
    FreeJoin("//" + user + u.host + port, u.path, {'?', '#'});
  }

  lemma Regrouped(a: string, b: string, c: string, d: string, e: string, f: string, g: string)
    ensures "" + (a + (b + c + d)) + (e + f + g) == (a + b + c + d + e) + f + g
  {
  }

  /** Without a host, a scheme makes the text one that the parser refuses, unless two slashes
      happen to follow. */
  lemma SchemeAlone(u: Record)
    requires 0 < |u.scheme| < MAX_SCHEME_LENGTH && (forall k :: 0 <= k < |u.scheme| ==> SchemeChar(u.scheme[k]))
    requires u.host == ""
    ensures Text(u) == u.scheme + ":" + TailText(u)
    ensures Parse(Text(u)) == Rejected <==> !("//" <= TailText(u))
  {
    var s, k := Text(u), |u.scheme|;
    assert s == u.scheme + ":" + TailText(u);
    assert SchemeEnds(s, k);
    SchemeBranch(s);
    RejectedIff(s);
    assert s[k + 1..] == TailText(u);
  }

  // ----- texts the parser refuses, and texts it overruns an array with

  /** A text is rejected exactly when a scheme is not followed by two slashes. */
  lemma RejectedIff(s: string)
    ensures Parse(s) == Rejected <==> exists k :: SchemeEnds(s, k) && !("//" <= s[k + 1..])
  {
    SchemeBranch(s);
    var k := ScanScheme(s, 0);
    SlashesAt(s, k);
  }

  lemma SlashesAt(s: string, k: nat)
    requires k <= |s|
    ensures k < |s| ==> ("//" <= s[k + 1..] <==> At(s, k + 1) == '/' && At(s, k + 2) == '/')
  {
    if k < |s| && At(s, k + 1) == '/' && At(s, k + 2) == '/' {
      assert s[k + 1..][..2] == "//";
    }
  }

  /** Neither a colon nor a slash comes after the first '@', or at all when there is none. */
  ghost predicate NoHostEnd(t: string) {
    forall j :: 0 <= j < |t| && t[j] in {':', '/'} ==> Free(t[..j], {'@'}) && !Free(t[j..], {'@'})
  }

  /** A scheme of k characters and two slashes, then a host that nothing ends and that does not
      fit its array. */
  ghost predicate Overlong(s: string, k: nat) {
    SchemeEnds(s, k) && "//" <= s[k + 1..] && |s[k + 3..]| >= MAX_HOST_LENGTH && NoHostEnd(s[k + 3..])
  }

  /** The copy of the host runs past its array exactly when nothing ends the host and the rest
      of the text does not fit. */
  lemma OverrunIff(s: string)
    ensures Parse(s) == Overrun <==> exists k :: Overlong(s, k)
  {
    SchemeBranch(s);
    var k := ScanScheme(s, 0);
    SlashesAt(s, k);
    if SchemeEnds(s, k) && "//" <= s[k + 1..] {
      OverrunAfter(s, k);
      assert Parse(s) == Overrun <==> Overlong(s, k);
    }
  }

  lemma OverrunAfter(s: string, k: nat)
    requires SchemeEnds(s, k) && k == ScanScheme(s, 0) && At(s, k + 1) == '/' && At(s, k + 2) == '/'
    ensures k + 3 <= |s|
    ensures Parse(s) == Overrun <==> |s[k + 3..]| >= MAX_HOST_LENGTH && NoHostEnd(s[k + 3..])
  {
    TooLongIff(s, k + 3);
  }

  lemma TooLongIff(s: string, a: nat)
    requires a <= |s|
    ensures ParseAuthority(s, a).TooLong? <==> |s[a..]| >= MAX_HOST_LENGTH && NoHostEnd(s[a..])
  {
    var at := Scan(s, a, {'@'});
    var start := if at < |s| then at + 1 else a;
    var end := Scan(s, start, {':', '/'});
    if end < |s| {
      EndSeen(s, a, at, start, end);
      AuthorityFrom(s, a, at, start, end);
    } else {
      NoEndSeen(s, a, at, start);
      AuthorityOpen(s, a, start);
    }
  }

  lemma EndSeen(s: string, a: nat, at: nat, start: nat, end: nat)
    requires a <= |s| && at == Scan(s, a, {'@'}) && start == if at < |s| then at + 1 else a
    requires end == Scan(s, start, {':', '/'}) < |s|
    ensures !NoHostEnd(s[a..])
  {
    var t := s[a..];
    ScanFinds(s, a, {'@'});
    ScanFinds(s, start, {':', '/'});
    ScanPasses(s, a, {'@'});
    assert t[end - a] in {':', '/'};
    if at < |s| {
      assert t[..end - a][at - a] == '@';
    } else {
      assert Free(t[end - a..], {'@'});
    }
  }

  lemma NoEndSeen(s: string, a: nat, at: nat, start: nat)
    requires a <= |s| && at == Scan(s, a, {'@'}) && start == if at < |s| then at + 1 else a
    requires Scan(s, start, {':', '/'}) == |s|
    ensures NoHostEnd(s[a..])
  {
    var t := s[a..];
    ScanFinds(s, a, {'@'});
    ScanPasses(s, a, {'@'});
    ScanPasses(s, start, {':', '/'});
    forall j | 0 <= j < |t| && t[j] in {':', '/'} ensures Free(t[..j], {'@'}) && !Free(t[j..], {'@'}) {
      assert s[a + j] == t[j];
      assert t[j..][at - a - j] == '@';
    }
  }

  lemma {:induction false} ScanPasses(s: string, i: nat, stop: set<char>)
    requires i <= |s|
    ensures forall k :: i <= k < Scan(s, i, stop) ==> s[k] !in stop
    decreases |s| - i
  {
    if i < |s| && s[i] !in stop {
      ScanPasses(s, i + 1, stop);
    }
  }
}

/** The parser and printer as the C code runs them: a cursor moved through the text,
    record fields and an output buffer filled in place. */
module UriCode {
  import opened CStrings
  import opened Uri

  /** A pointer result of the string routines. */
  datatype Pointer = Null | To(index: nat)

  /** The answer of uri_parse; Spilled stands for a copy past the end of the host array. */
  datatype Answer = Zero | One | Spilled

  /** What strchr and strpbrk return when the scan from i for stop ends at r. */
  function Found(s: string, r: nat): Pointer {
    if r < |s| then To(r) else Null
  }

  /** strchr, from position i of s. */
  method Strchr(s: string, i: nat, c: char) returns (p: Pointer)
    requires i <= |s|
    ensures p == Found(s, Scan(s, i, {c}))
  {
    var k := i;
    while k < |s|
      invariant i <= k <= |s| && Scan(s, i, {c}) == Scan(s, k, {c})
    {
      if s[k] == c { return To(k); }
      k := k + 1;
    }
    return Null;
  }

  /** strpbrk, from position i of s. */
  method Strpbrk(s: string, i: nat, accept: string) returns (p: Pointer)
    requires i <= |s|
    ensures p == Found(s, Scan(s, i, set c | c in accept))
  {
    var k := i;
    ghost var stop := set c | c in accept;
    while k < |s|
      invariant i <= k <= |s| && Scan(s, i, stop) == Scan(s, k, stop)
    {
      var j := 0;
      while j < |accept|
        invariant 0 <= j <= |accept| && s[k] !in accept[..j]
      {
        if s[k] == accept[j] { return To(k); }
        j := j + 1;
      }
      k := k + 1;
    }
    return Null;
  }

  /** A URI under construction, with the cursor uri_parse moves. */
  class Parser {
    const text: string
    var current: nat
    var scheme: string
    var userInfo: string
    var host: string
    var port: string
    var path: string
    var query: string
    var fragment: string

    ghost predicate Valid()
      reads this
    {
      current <= |text|
    }

    ghost function Fields(): Record
      reads this
    {
      Record(scheme, userInfo, host, port, path, query, fragment)
    }

    /** uri_init and the first assignment of uri_parse. */
    constructor (s: string)
      ensures Valid() && text == s && current == 0 && Fields() == Blank
    {
      text, current := s, 0;
      scheme, userInfo, host, port, path, query, fragment := "", "", "", "", "", "", "";
    }

    method ParseScheme() returns (ok: bool)
      requires Valid()
      modifies this
      ensures Valid()
      ensures var end := ScanScheme(text, old(current));
              && ok == (At(text, end) == ':' && end - old(current) < MAX_SCHEME_LENGTH)
              && current == (if ok then end + 1 else old(current))
              && Fields() == if ok then old(Fields()).(scheme := text[old(current)..end]) else old(Fields())
    {
      var start := current;
      while IsSchemeChar(At(text, current))
        invariant Valid() && start <= current && Fields() == old(Fields())
        invariant ScanScheme(text, start) == ScanScheme(text, current)
        decreases |text| - current
      {
        current := current + 1;
      }
      if At(text, current) == ':' && current - start < MAX_SCHEME_LENGTH {
        scheme := text[start..current];
        current := current + 1;
        return true;
      }
      current := start;
      return false;
    }

    /** The copy of one field, left out when it does not fit. */
    method ParsePath()
      requires Valid() && path == ""
      modifies `current, `path
      ensures Valid() && (path, current) == Uri.ParsePath(text, old(current))
    {
      var p := Strpbrk(text, current, "?#");
      SetOf2('?', '#');
      var end := if p == Null then |text| else p.index;
      if end - current < MAX_PATH_LENGTH {
        path := text[current..end];
      }
      current := end;
    }

    method ParseQuery()
      requires Valid() && query == ""
      modifies `current, `query
      ensures Valid() && (query, current) == Uri.ParseQuery(text, old(current))
    {
      if At(text, current) == '?' {
        current := current + 1;
        var p := Strchr(text, current, '#');
        var end := if p == Null then |text| else p.index;
        if end - current < MAX_QUERY_LENGTH {
          query := text[current..end];
        }
        current := end;
      }
    }

    method ParseFragment()
      requires Valid() && fragment == ""
      modifies `current, `fragment
      ensures Valid() && fragment == Uri.ParseFragment(text, old(current))
    {
      if At(text, current) == '#' {
        current := current + 1;
        if |text| - current < MAX_FRAGMENT_LENGTH {
          fragment := text[current..];
        }
      }
    }

    /** The part of parse_authority after the host has been found to end at hostEnd. */
    method ParseHostAndPort(start: nat, hostEnd: nat)
      requires start <= hostEnd < |text| && host == "" && port == ""
      modifies `current, `host, `port
      ensures Valid() && (host, port, current) == ParseHost(text, start, hostEnd)
    {
      if hostEnd - start < MAX_HOST_LENGTH {
        host := text[start..hostEnd];
      }
      if text[hostEnd] == ':' {
        var portStart := hostEnd + 1;
        var p := Strpbrk(text, portStart, "/?#");
        SetOf3('/', '?', '#');
        var portEnd := if p == Null then |text| else p.index;
        if portEnd - portStart < MAX_PORT_LENGTH {
          port := text[portStart..portEnd];
        }
        current := portEnd;
      } else {
        current := hostEnd;
      }
    }

    /** The user information, if an '@' ends it before the host ends; a null host end
        compares below every pointer. */
    method TakeUser(start: nat, at: Pointer, hostEnd: Pointer, ghost scan: nat) returns (hostStart: nat)
      requires start <= scan <= |text| && at == Found(text, scan) && userInfo == ""
      requires at.To? && hostEnd.To? ==> at.index < hostEnd.index
      modifies `userInfo
      ensures hostStart == if scan < |text| && hostEnd.To? then scan + 1 else start
      ensures userInfo == if scan < |text| && hostEnd.To? then Fit(text[start..scan], MAX_USERINFO_LENGTH) else ""
    {
      hostStart := start;
      if at != Null && hostEnd != Null && at.index < hostEnd.index {
        if at.index - start < MAX_USERINFO_LENGTH {
          userInfo := text[start..at.index];
        }
        hostStart := at.index + 1;
      }
    }

    /** What parse_authority has to leave when the text after the slashes starts at a. */
    ghost predicate Answered(a: nat, answer: Answer)
      reads this
      requires a <= |text|
    {
      match Uri.ParseAuthority(text, a)
      case TooLong => answer == Spilled
      case Authority(user, h, p, next) =>
        answer == One && (userInfo, host, port, current) == (user, h, p, next)
    }

    method ParseAuthority() returns (answer: Answer)
      requires Valid() && userInfo == "" && host == "" && port == ""
      modifies `current, `userInfo, `host, `port
      ensures Valid()
      ensures answer.Zero? <==> !(At(text, old(current)) == '/' && At(text, old(current) + 1) == '/')
      ensures answer.Zero? ==> Fields() == old(Fields()) && current == old(current)
      ensures !answer.Zero? ==> old(current) + 2 <= |text| && Answered(old(current) + 2, answer)
    {
      if At(text, current) != '/' || At(text, current + 1) != '/' {
        return Zero;
      }
      current := current + 2;
      answer := AfterSlashes();
    }

    /** The rest of parse_authority. */
    method AfterSlashes() returns (answer: Answer)
      requires Valid() && userInfo == "" && host == "" && port == ""
      modifies `current, `userInfo, `host, `port
      ensures Valid() && !answer.Zero? && Answered(old(current), answer)
    {
      var start := current;
      var at := Strchr(text, start, '@');
      var from := if at == Null then start else at.index + 1;
      var hostEnd := Strpbrk(text, from, ":/");
      SetOf2(':', '/');
      start := TakeUser(start, at, hostEnd, Scan(text, start, {'@'}));
      if hostEnd != Null {
        AuthorityFrom(text, current, Scan(text, current, {'@'}), from, hostEnd.index);
        ghost var a := current;
        ParseHostAndPort(start, hostEnd.index);
        assert Uri.ParseAuthority(text, a) == Authority(userInfo, host, port, current);
        return One;
      } else {
        AuthorityOpen(text, current, from);
        if |text| - start >= MAX_HOST_LENGTH {
          return Spilled;
        }
        host := text[start..];
        current := current + (|text| - start);
        return One;
      }
    }

    /** The three parsers uri_parse runs last. */
    method ParseRest()
      requires Valid() && path == "" && query == "" && fragment == ""
      modifies `current, `path, `query, `fragment
      ensures Valid() && (path, query, fragment) == ParseTail(text, old(current))
    {
      ParsePath();
      ParseQuery();
      ParseFragment();
    }

    method UriParse() returns (answer: Answer)
      requires Valid() && current == 0 && Fields() == Blank
      modifies this
      ensures match Parse(text)
              case Parsed(u) => answer == One && Fields() == u
              case Rejected => answer == Zero && Fields() == Blank.(scheme := text[..ScanScheme(text, 0)])
              case Overrun => answer == Spilled
    {
      var ok := ParseScheme();
      if ok {
        answer := ParseAuthority();
        if answer != One { return; }
      }
      ghost var before, start := Fields(), current;
      ParseRest();
      assert Fields() == before.(path := path, query := query, fragment := fragment);
      assert (path, query, fragment) == ParseTail(text, start);
      answer := One;
    }
  }

  lemma SetOf2(a: char, b: char)
    ensures (set c | c in [a, b]) == {a, b}
  {
  }

  lemma SetOf3(a: char, b: char, d: char)
    ensures (set c | c in [a, b, d]) == {a, b, d}
  {
  }

  // ----- printing

  /** What a format with one string argument stands for: the conversions the printer
      uses are %s and, as the default case has it, % before any other character. */
  function Expand(format: string, arg: string): string {
    if format == "" then ""
    else if format[0] != '%' then [format[0]] + Expand(format[1..], arg)
    else if |format| == 1 then ""
    else (if format[1] == 's' then arg else [format[1]]) + Expand(format[2..], arg)
  }

  /** What is not a conversion stands for itself, up to the first %. */
  lemma {:induction false} ExpandParts(text: string, tail: string, arg: string)
    requires Free(text, {'%'})
    ensures Expand(text + tail, arg) == text + Expand(tail, arg)
    decreases text
  {
    if text == "" {
      assert text + tail == tail;
    } else {
      assert (text + tail)[1..] == text[1..] + tail;
      ExpandParts(text[1..], tail, arg);
    }
  }

  lemma ExpandConversion(c: char, rest: string, arg: string)
    ensures Expand(['%', c] + rest, arg) == (if c == 's' then arg else [c]) + Expand(rest, arg)
  {
    assert (['%', c] + rest)[2..] == rest;
  }

  /** Every % is followed by a character, and not by the d of the integer conversion. */
  predicate StringFormat(format: string) {
    format != "" ==>
      if format[0] != '%' then StringFormat(format[1..])
      else |format| > 1 && format[1] != 'd' && StringFormat(format[2..])
  }

  function Clip(t: string, room: nat): (r: string)
    ensures |r| <= room && r <= t && (r == t <==> |t| <= room)
  {
    if |t| <= room then t else t[..room]
  }

  /** Clipping piece by piece clips the whole. */
  lemma ClipJoin(a: string, b: string, room: nat)
    ensures Clip(a + b, room) == Clip(a, room) + Clip(b, room - |Clip(a, room)|)
  {
  }

  predicate Holds(before: seq<char>, now: seq<char>, at: nat, t: string) {
    && at + |t| <= |now| == |before|
    && now[..at] == before[..at] && now[at..at + |t|] == t && now[at + |t|..] == before[at + |t|..]
  }

  method CopyChars(buffer: array<char>, at: nat, s: string, len: nat)
    requires len <= |s| && at + len <= buffer.Length
    modifies buffer
    ensures Holds(old(buffer[..]), buffer[..], at, s[..len])
  {
    var k := 0;
    while k < len
      invariant 0 <= k <= len && Holds(old(buffer[..]), buffer[..], at, s[..k])
    {
      buffer[at + k] := s[k];
      k := k + 1;
    }
  }

  /** What the directive at position f stands for. */
  function Directive(format: string, f: nat, arg: string): string
    requires f < |format| && StringFormat(format[f..])
  {
    if format[f] != '%' then [format[f]] else if format[f + 1] == 's' then arg else [format[f + 1]]
  }

  /** Where the format goes on after it. */
  function After(format: string, f: nat): nat
    requires f < |format|
  {
    if format[f] != '%' then f + 1 else f + 2
  }

  lemma ExpandStep(format: string, f: nat, arg: string)
    requires f < |format| && StringFormat(format[f..])
    ensures After(format, f) <= |format| && StringFormat(format[After(format, f)..])
    ensures Expand(format[f..], arg) == Directive(format, f, arg) + Expand(format[After(format, f)..], arg)
  {
    assert format[f..][1..] == format[f + 1..];
    if format[f] == '%' {
      assert format[f..][2..] == format[f + 2..];
    }
  }

  /** A piece written right after another extends it. */
  lemma HoldsMore(before: seq<char>, mid: seq<char>, now: seq<char>, at: nat, t: string, pos: nat, piece: string)
    requires pos == at + |t| && Holds(before, mid, at, t) && Holds(mid, now, pos, piece)
    ensures Holds(before, now, at, t + piece)
  {
    assert before[at + |t|..][|piece|..] == before[at + |t| + |piece|..];
    assert mid[at + |t|..][|piece|..] == mid[at + |t| + |piece|..];
    assert now[..at] == now[..at + |t|][..at];
    assert mid[..at] == mid[..at + |t|][..at];
    assert now[at..at + |t|] == now[..at + |t|][at..];
    assert mid[at..at + |t|] == mid[..at + |t|][at..];
    assert now[at..at + |t| + |piece|] == now[at..at + |t|] + now[at + |t|..at + |t| + |piece|];
  }

  /** One turn of snprintf's loop. */
  method Emit(buffer: array<char>, at: nat, room: nat, format: string, f: nat, arg: string)
    returns (next: nat, written: nat)
    requires 0 < room && at + room <= buffer.Length && f < |format| && StringFormat(format[f..])
    modifies buffer
    ensures next == After(format, f)
    ensures var t := Clip(Directive(format, f, arg), room);
            written == |t| && Holds(old(buffer[..]), buffer[..], at, t)
  {
    if format[f] != '%' {
      buffer[at] := format[f];
      return f + 1, 1;
    }
    var len := 1;
    if format[f + 1] == 's' {
      len := |arg|;
      if len > room {
        len := room;
      }
      CopyChars(buffer, at, arg, len);
    } else {
      buffer[at] := format[f + 1];
    }
    return f + 2, len;
  }

  /** The loop of snprintf keeps: what is written plus what may still be written. */
  ghost predicate Printing(whole: string, out: string, rest: string, room: nat) {
    |out| <= room && whole == out + Clip(rest, room - |out|)
  }

  lemma PrintingStep(whole: string, out: string, piece: string, rest: string, room: nat)
    requires Printing(whole, out, piece + rest, room)
    ensures Printing(whole, out + Clip(piece, room - |out|), rest, room)
  {
    var r := room - |out|;
    ClipJoin(piece, rest, r);
    Join(out, Clip(piece, r), Clip(rest, r - |Clip(piece, r)|));
  }

  /** The state after one turn. */
  lemma PrintTurn(before: seq<char>, mid: seq<char>, now: seq<char>, at: nat, pos: nat, whole: string,
                  out: string, out': string, piece: string, rest: string, room: nat)
    requires Printing(whole, out, piece + rest, room) && pos == at + |out| && Holds(before, mid, at, out)
    requires var kept := Clip(piece, room - |out|); Holds(mid, now, pos, kept) && out' == out + kept
    ensures Holds(before, now, at, out') && Printing(whole, out', rest, room)
  {
    HoldsMore(before, mid, now, at, out, pos, Clip(piece, room - |out|));
    PrintingStep(whole, out, piece, rest, room);
  }

  /** The loop of snprintf: out has been written at position at, and the format goes on at f. */
  ghost predicate MidFormat(before: seq<char>, now: seq<char>, at: nat, whole: string, out: string, written: nat,
                            format: string, f: nat, arg: string, room: nat) {
    && f <= |format| && StringFormat(format[f..]) && written == |out|
    && Holds(before, now, at, out) && Printing(whole, out, Expand(format[f..], arg), room)
  }

  method EmitNext(buffer: array<char>, at: nat, room: nat, format: string, f: nat, arg: string, written: nat,
                  ghost before: seq<char>, ghost whole: string, ghost out: string)
    returns (f': nat, written': nat, ghost out': string)
    requires at + room <= buffer.Length && f < |format| && written < room
    requires MidFormat(before, buffer[..], at, whole, out, written, format, f, arg, room)
    modifies buffer
    ensures MidFormat(before, buffer[..], at, whole, out', written', format, f', arg, room) && f < f'
  {
    ghost var mid, piece := buffer[..], Directive(format, f, arg);
    var pos, left := at + written, room - written;
    ExpandStep(format, f, arg);
    var len;
    f', len := Emit(buffer, pos, left, format, f, arg);
    out' := out + Clip(piece, left);
    written' := written + len;
    PrintTurn(before, mid, buffer[..], at, pos, whole, out, out', piece, Expand(format[f'..], arg), room);
  }

  method PrintLoop(buffer: array<char>, at: nat, room: nat, format: string, arg: string) returns (written: nat)
    requires at + room <= buffer.Length && StringFormat(format)
    modifies buffer
    ensures var t := Clip(Expand(format, arg), room);
            written == |t| && Holds(old(buffer[..]), buffer[..], at, t)
  {
    var f: nat := 0;
    ghost var before, out, whole := buffer[..], "", Clip(Expand(format, arg), room);
    written := 0;
    assert format[0..] == format;
    while f < |format| && written < room
      invariant MidFormat(before, buffer[..], at, whole, out, written, format, f, arg, room)
      decreases |format| - f
    {
      f, written, out := EmitNext(buffer, at, room, format, f, arg, written, before, whole, out);
    }
    PrintEnd(whole, out, format, f, arg, room);
  }

  lemma PrintEnd(whole: string, out: string, format: string, f: nat, arg: string, room: nat)
    requires f <= |format| && Printing(whole, out, Expand(format[f..], arg), room)
    requires f == |format| || |out| == room
    ensures whole == out
  {
  }

  /** snprintf(buffer + at, size, format, arg): the expansion clipped to size - 1 characters,
      a terminator, and the clipped length as the result. */
  method Snprintf(buffer: array<char>, at: nat, size: nat, format: string, arg: string) returns (written: nat)
    requires at + size <= buffer.Length && StringFormat(format)
    modifies buffer
    ensures size == 0 ==> written == 0 && buffer[..] == old(buffer[..])
    ensures size > 0 ==> var t := Clip(Expand(format, arg), size - 1);
                         written == |t| && Holds(old(buffer[..]), buffer[..], at, t + ['\0'])
  {
    if size == 0 { return 0; }
    ghost var before, t := buffer[..], Clip(Expand(format, arg), size - 1);
    written := PrintLoop(buffer, at, size - 1, format, arg);
    ghost var mid := buffer[..];
    buffer[at + written] := '\0';
    HoldsMore(before, mid, buffer[..], at, t, at + written, ['\0']);
  }

  /** The output buffer shows out, and past the place of its terminator it is as before. */
  predicate Shows(before: seq<char>, now: seq<char>, out: string) {
    |out| < |now| == |before| && now[..|out|] == out && now[|out| + 1..] == before[|out| + 1..]
  }

  lemma ShowsMore(before: seq<char>, mid: seq<char>, now: seq<char>, out: string, piece: string)
    requires Shows(before, mid, out) && Holds(mid, now, |out|, piece + ['\0'])
    ensures Shows(before, now, out + piece) && now[|out + piece|] == '\0'
  {
    var n := |out| + |piece|;
    assert now[n] == now[|out|..n + 1][|piece|];
    assert now[|out|..n] == now[|out|..n + 1][..|piece|];
    assert now[..n] == now[..|out|] + now[|out|..n];
    assert now[n + 1..] == mid[|out| + 1..][|piece|..];
    assert before[n + 1..] == before[|out| + 1..][|piece|..];
  }

  /** The first size characters of the buffer show t, cut where they end. */
  ghost predicate Progress(before: seq<char>, now: seq<char>, size: nat, written: nat, t: string) {
    0 < size <= |now| && written == |Clip(t, size - 1)| && Shows(before, now, Clip(t, size - 1))
  }

  lemma ProgressStep(before: seq<char>, mid: seq<char>, now: seq<char>, size: nat, written: nat, total: nat,
                     sofar: string, more: string)
    requires Progress(before, mid, size, written, sofar)
    requires var kept := Clip(more, size - written - 1);
             Holds(mid, now, written, kept + ['\0']) && total == written + |kept|
    ensures Progress(before, now, size, total, sofar + more) && now[total] == '\0'
  {
    ClipJoin(sofar, more, size - 1);
    ShowsMore(before, mid, now, Clip(sofar, size - 1), Clip(more, size - written - 1));
  }

  /** written += snprintf(buffer + written, size - written, format, arg) */
  method Append(buffer: array<char>, size: nat, written: nat, format: string, arg: string,
                ghost before: seq<char>, ghost sofar: string) returns (total: nat)
    requires StringFormat(format) && Progress(before, buffer[..], size, written, sofar)
    modifies buffer
    ensures Progress(before, buffer[..], size, total, sofar + Expand(format, arg)) && buffer[total] == '\0'
  {
    ghost var mid := buffer[..];
    var count := Snprintf(buffer, written, size - written, format, arg);
    total := written + count;
    ProgressStep(before, mid, buffer[..], size, written, total, sofar, Expand(format, arg));
  }

  /** The formats of uri_to_string. */
  lemma Formats(arg: string, mark: char)
    requires mark != '%'
    ensures StringFormat(['%', 's']) && Expand(['%', 's'], arg) == arg
    ensures StringFormat(['%', 's', mark]) && Expand(['%', 's', mark], arg) == arg + [mark]
    ensures StringFormat([mark, '%', 's']) && Expand([mark, '%', 's'], arg) == [mark] + arg
    ensures StringFormat([mark, mark]) && Expand([mark, mark], arg) == [mark] + [mark]
  {
    assert ['%', 's'][2..] == "";
    assert ['%', 's', mark][2..] == [mark];
    assert [mark][1..] == "";
    assert [mark, '%', 's'][1..] == ['%', 's'];
    assert [mark, mark][1..] == [mark];
  }

  /** The part of the text uri_to_string prints for the authority. */
  function HostPart(u: Record): string {
    if u.host != "" then "//" + AuthorityText(u) else ""
  }

  lemma Regroup(t: string, a: string, b: string, c: string, d: string)
    ensures t + a + b + c + d == t + (a + (b + c + d))
  {
  }

  method AppendUser(u: Record, buffer: array<char>, size: nat, written: nat,
                    ghost before: seq<char>, ghost sofar: string) returns (total: nat)
    requires Progress(before, buffer[..], size, written, sofar)
    modifies buffer
    ensures Progress(before, buffer[..], size, total, sofar + UserText(u))
  {
    if u.userInfo == "" {
      assert sofar + UserText(u) == sofar;
      return written;
    }
    Formats(u.userInfo, '@');
    total := Append(buffer, size, written, "%s@", u.userInfo, before, sofar);
  }

  method AppendPort(u: Record, buffer: array<char>, size: nat, written: nat,
                    ghost before: seq<char>, ghost sofar: string) returns (total: nat)
    requires Progress(before, buffer[..], size, written, sofar)
    modifies buffer
    ensures Progress(before, buffer[..], size, total, sofar + Marked(':', u.port))
  {
    if u.port == "" {
      assert sofar + Marked(':', u.port) == sofar;
      return written;
    }
    Formats(u.port, ':');
    total := Append(buffer, size, written, ":%s", u.port, before, sofar);
  }

  method AppendAuthority(u: Record, buffer: array<char>, size: nat, written: nat,
                         ghost before: seq<char>, ghost sofar: string) returns (total: nat)
    requires u.host != "" && Progress(before, buffer[..], size, written, sofar)
    modifies buffer
    ensures Progress(before, buffer[..], size, total, sofar + HostPart(u))
  {
    Formats("", '/');
    total := Append(buffer, size, written, "//", "", before, sofar);
    total := AppendUser(u, buffer, size, total, before, sofar + "//");
    Formats(u.host, ':');
    total := Append(buffer, size, total, "%s", u.host, before, sofar + "//" + UserText(u));
    total := AppendPort(u, buffer, size, total, before, sofar + "//" + UserText(u) + u.host);
    Regroup(sofar, "//", UserText(u), u.host, Marked(':', u.port));
  }

  method AppendTail(u: Record, buffer: array<char>, size: nat, written: nat,
                    ghost before: seq<char>, ghost sofar: string) returns (total: nat)
    requires Progress(before, buffer[..], size, written, sofar)
    modifies buffer
    ensures Progress(before, buffer[..], size, total, sofar + TailText(u)) && buffer[total] == '\0'
  {
    ghost var t := sofar + u.path;
    Formats(u.path, '?');
    total := Append(buffer, size, written, "%s", u.path, before, sofar);
    if u.query != "" {
      Formats(u.query, '?');
      total := Append(buffer, size, total, "?%s", u.query, before, t);
    } else {
      assert t + Marked('?', u.query) == t;
    }
    t := t + Marked('?', u.query);
    if u.fragment != "" {
      Formats(u.fragment, '#');
      total := Append(buffer, size, total, "#%s", u.fragment, before, t);
    } else {
      assert t + Marked('#', u.fragment) == t;
    }
    Regroup(sofar, "", u.path, Marked('?', u.query), Marked('#', u.fragment));
    assert sofar + "" == sofar && "" + TailText(u) == TailText(u);
  }

  /** The buffer gets the text cut to size - 1 characters and a terminator. The result
      does not tell whether anything was cut: it is 1 whenever size is not 0. */
  method UriToString(u: Record, buffer: array<char>, size: nat) returns (ok: bool)
    requires size <= buffer.Length
    modifies buffer
    ensures ok == (size > 0)
    ensures size == 0 ==> buffer[..] == old(buffer[..])
    ensures size > 0 ==> var t := Clip(Text(u), size - 1);
                         Shows(old(buffer[..]), buffer[..], t) && buffer[|t|] == '\0'
  {
    if size == 0 { return false; }
    ghost var before, t := buffer[..], "";
    var written := 0;
    if u.scheme != "" {
      Formats(u.scheme, ':');
      written := Append(buffer, size, written, "%s:", u.scheme, before, t);
      t := u.scheme + ":";
    }
    if u.host != "" {
      written := AppendAuthority(u, buffer, size, written, before, t);
      t := t + HostPart(u);
    }
    written := AppendTail(u, buffer, size, written, before, t);
    assert t + TailText(u) == Text(u);
    ok := written < size;
  }

  /** A text cut to its first two characters, and the answer is 1 all the same. */
  method CutAndAccepted() returns (ok: bool, buffer: array<char>)
    ensures ok && Text(Blank.(path := "/index")) == "/index" && buffer[..] == "/i" + ['\0']
  {
    buffer := new char[3](_ => ' ');
    ok := UriToString(Blank.(path := "/index"), buffer, 3);
    assert Clip("/index", 2) == "/i";
    assert buffer[..] == buffer[..2] + [buffer[2]];
  }
}

/** What the C standard asks of strtol, read off the parts a text is made of, and how far
    the code (module Strtol) keeps to it. */
module StrtolStandard {
  import opened CStrings
  import opened Powers
  import opened Strtol

  const LONG_MIN: int := -2147483648

  // ----- section 7.22.1.4 of ISO/IEC 9899:2011

  /** White space, sign, 0x, digits, and what is left. */
  datatype Parts = Parts(white: string, sign: string, mark: string, digits: string, rest: string)
  {
    function Front(): string { white + sign + mark }
    function Text(): string { Front() + digits + rest }
  }

  /** White space as isspace has it in the "C" locale. */
  ghost predicate White(c: char) {
    c in {' ', '\U{0C}', '\n', '\r', '\t', '\U{0B}'}
  }

  /** The digit worth d: the letters follow the ten digits, and are worth the same in both cases. */
  function Small(d: nat): char
    requires d < 36
  {
    if d < 10 then ('0' as int + d) as char else ('a' as int + (d - 10)) as char
  }

  function Capital(d: nat): char
    requires d < 36
  {
    if d < 10 then ('0' as int + d) as char else ('A' as int + (d - 10)) as char
  }

  lemma DigitNames(d: nat)
    requires d < 36
    ensures "0123456789abcdefghijklmnopqrstuvwxyz"[d] == Small(d)
    ensures "0123456789ABCDEFGHIJKLMNOPQRSTUVWXYZ"[d] == Capital(d)
  {
  }

  /** c is a digit of the base, and worth d. */
  ghost predicate Worth(c: char, base: int, d: int) {
    0 <= d < base && d < 36 && (c == Small(d) || c == Capital(d))
  }

  ghost predicate DigitOf(c: char, base: int) {
    exists d :: Worth(c, base, d)
  }

  /** The bases the standard defines. */
  predicate BaseOk(base: int) { base == 0 || 2 <= base <= 36 }

  /** The base a text is read in. */
  function BaseOf(x: Parts, base: int): int {
    if base != 0 then base else if x.mark != "" then 16 else if At(x.digits, 0) == '0' then 8 else 10
  }

  /** x is how the standard divides its text: each part is as long as it can be. */
  ghost predicate Divided(x: Parts, base: int) {
    && (forall i :: 0 <= i < |x.white| ==> White(x.white[i]))
    && !White(At(x.sign + x.mark + x.digits + x.rest, 0))
    && x.sign in {"", "+", "-"}
    && (x.sign == "" ==> At(x.mark + x.digits + x.rest, 0) !in {'+', '-'})
    && x.mark in {"", "0x", "0X"} && (x.mark != "" ==> base in {0, 16} && x.digits != "")
    && (forall i :: 0 <= i < |x.digits| ==> DigitOf(x.digits[i], BaseOf(x, base)))
    && !DigitOf(At(x.rest, 0), BaseOf(x, base))
    && (LooksMarked(x, base) ==> !DigitOf(At(x.rest, 1), 16))
  }

  /** Without a mark, but with an x after a single 0: it would be one if a digit followed. */
  ghost predicate LooksMarked(x: Parts, base: int) {
    base in {0, 16} && x.mark == "" && x.digits == "0" && At(x.rest, 0) in {'x', 'X'}
  }

  /** n is the positional value of the digits. */
  ghost predicate Denotes(digits: string, base: int, n: int) {
    if digits == "" then n == 0
    else
      var k := |digits| - 1;
      exists d, m :: Worth(digits[k], base, d) && Denotes(digits[..k], base, m) && n == m * base + d
  }

  /** What strtol has to return for the number n: the nearest long. */
  function Returned(x: Parts, n: int): int {
    var v := if x.sign == "-" then -n else n;
    if v < LONG_MIN then LONG_MIN else if v > LONG_MAX then LONG_MAX else v
  }

  function Representable(x: Parts, n: int): bool {
    LONG_MIN <= (if x.sign == "-" then -n else n) <= LONG_MAX
  }

  /** Where *endptr has to point. */
  function EndOf(x: Parts): nat {
    if x.digits == "" then 0 else |x.Front() + x.digits|
  }

  // ----- digits

  /** The code gives each digit its worth, and takes six more characters for digits. */
  lemma DigitsAgree(c: char, base: int)
    requires 2 <= base <= 36
    ensures DigitOf(c, base) <==> Worth(c, base, CodeDigit(c))
    ensures DigitOf(c, base) <==> CodeDigit(c) < base && !('[' <= c <= '`')
    ensures forall d :: Worth(c, base, d) ==> d == CodeDigit(c)
  {
    assert CodeDigit(c) < base && !('[' <= c <= '`') ==> Worth(c, base, CodeDigit(c));
  }

  /** The code reads over the standard's digits, and further exactly when a stray follows. */
  lemma {:induction false} RunsCompare(s: string, i: nat, digits: string, base: int)
    requires 2 <= base <= 36 && i + |digits| <= |s| && s[i..i + |digits|] == digits
    requires forall k :: 0 <= k < |digits| ==> DigitOf(digits[k], base)
    ensures var j := i + |digits|;
            && RunEnd(s, i, base) == RunEnd(s, j, base)
            && (RunEnd(s, j, base) > j <==> CodeDigit(At(s, j)) < base)
    decreases |digits|
  {
    DigitsAgree(At(s, i + |digits|), base);
    if digits != "" {
      DigitsAgree(digits[0], base);
      assert s[i] == digits[0] && s[i + 1..i + 1 + |digits[1..]|] == digits[1..];
      RunsCompare(s, i + 1, digits[1..], base);
    }
  }

  lemma {:induction false} NumberIs(s: string, i: nat, j: nat, digits: string, base: int, n: int)
    requires 2 <= base <= 36 && i <= j <= |s| && s[i..j] == digits && Denotes(digits, base, n)
    ensures Value(s, i, j, base) == n
    decreases j
  {
    if i < j {
      var k := |digits| - 1;
      var d, m :| Worth(digits[k], base, d) && Denotes(digits[..k], base, m) && n == m * base + d;
      DigitsAgree(digits[k], base);
      NumberIs(s, i, j - 1, digits[..k], base, m);
    }
  }

  // ----- the parts in front of the digits

  lemma WhiteIs(c: char)
    ensures White(c) <==> IsSpace(c)
  {
  }

  lemma {:induction false} SpacesEnd(s: string, i: nat, j: nat)
    requires i <= j <= |s| && (forall k :: i <= k < j ==> White(s[k])) && !White(At(s, j))
    ensures Spaces(s, i) == j
    decreases j - i
  {
    WhiteIs(At(s, i));
    if i < j {
      SpacesEnd(s, i + 1, j);
    }
  }

  /** Position |a| + k of a + b is position k of b. */
  lemma AtBehind(a: string, b: string, k: nat)
    ensures At(a + b, |a| + k) == At(b, k)
  {
  }

  /** Where the text goes on after the white space, the sign, the mark and the digits. */
  lemma PartsAt(x: Parts)
    ensures var s, w := x.Text(), |x.white|;
            && s == x.white + (x.sign + (x.mark + (x.digits + x.rest)))
            && (forall k: nat :: At(s, w + k) == At(x.sign + x.mark + x.digits + x.rest, k))
            && (forall k: nat :: At(s, w + |x.sign| + k) == At(x.mark + x.digits + x.rest, k))
            && (forall k: nat :: At(s, |x.Front()| + k) == At(x.digits + x.rest, k))
            && (forall k: nat :: At(s, |x.Front()| + |x.digits| + k) == At(x.rest, k))
  {
    var s := x.Text();
    assert x.sign + x.mark + x.digits + x.rest == x.sign + (x.mark + (x.digits + x.rest));
    assert s == x.white + (x.sign + x.mark + x.digits + x.rest);
    assert s == (x.white + x.sign) + (x.mark + x.digits + x.rest);
    assert s == x.Front() + (x.digits + x.rest);
    assert s == (x.Front() + x.digits) + x.rest;
    forall k: nat { AtBehind(x.white, x.sign + x.mark + x.digits + x.rest, k); }
    forall k: nat { AtBehind(x.white + x.sign, x.mark + x.digits + x.rest, k); }
    forall k: nat { AtBehind(x.Front(), x.digits + x.rest, k); }
    forall k: nat { AtBehind(x.Front() + x.digits, x.rest, k); }
  }

  /** The base the digits behind what the code takes for a prefix are read in. */
  ghost function ReadBase(x: Parts, base: int): int {
    if LooksMarked(x, base) then 16 else BaseOf(x, base)
  }

  /** The code's scan finds the sign, the mark and the base, but takes a bare 0x for a mark. */
  lemma PrefixFound(x: Parts, base: int)
    requires BaseOk(base) && Divided(x, base)
    ensures var p := PrefixOf(x.Text(), base);
            && p.neg == (x.sign == "-") && p.first == |x.white + x.sign|
            && p.hex == (x.mark != "" || LooksMarked(x, base)) && p.base == ReadBase(x, base)
  {
    SignFound(x, base);
    BehindSign(x, |x.white + x.sign|);
    FirstOfRest(x, base);
  }

  lemma BehindSign(x: Parts, first: nat)
    requires first == |x.white + x.sign|
    ensures At(x.Text(), first) == At(x.mark + x.digits + x.rest, 0)
    ensures At(x.Text(), first + 1) == At(x.mark + x.digits + x.rest, 1)
  {
    PartsAt(x);
    assert At(x.Text(), first + 0) == At(x.mark + x.digits + x.rest, 0);
  }

  lemma SignFound(x: Parts, base: int)
    requires Divided(x, base)
    ensures Spaces(x.Text(), 0) == |x.white|
    ensures At(x.Text(), |x.white|) == '-' <==> x.sign == "-"
    ensures At(x.Text(), |x.white|) == '+' <==> x.sign == "+"
  {
    var s := x.Text();
    PartsAt(x);
    assert At(s, |x.white| + 0) == At(x.sign + x.mark + x.digits + x.rest, 0);
    assert forall k :: 0 <= k < |x.white| ==> s[k] == x.white[k];
    SpacesEnd(s, 0, |x.white|);
    if x.sign == "" {
      assert x.sign + x.mark + x.digits + x.rest == x.mark + x.digits + x.rest;
    }
  }

  lemma FirstOfRest(x: Parts, base: int)
    requires BaseOk(base) && Divided(x, base)
    ensures var t := x.mark + x.digits + x.rest;
            && (x.mark != "" ==> At(t, 0) == '0' && At(t, 1) in {'x', 'X'})
            && (x.mark == "" && base in {0, 16} ==>
                  (LooksMarked(x, base) <==> At(t, 0) == '0' && At(t, 1) in {'x', 'X'}))
            && (x.mark == "" && base == 0 ==> (At(t, 0) == '0' <==> At(x.digits, 0) == '0'))
  {
    var t, b := x.mark + x.digits + x.rest, BaseOf(x, base);
    DigitsAgree('0', b);
    assert Worth('0', b, 0);
    if x.mark == "" {
      assert t == x.digits + x.rest;
      DigitsAgree('x', b);
      DigitsAgree('X', b);
    }
  }

  // ----- where the two agree

  /** The character right after the standard's digits, or after a bare 0x, is one of the six
      that isalpha lets through, and counts as a digit of the base. */
  ghost predicate Stray(x: Parts, base: int) {
    var c := At(x.rest, if LooksMarked(x, base) then 1 else 0);
    '[' <= c <= '`' && CodeDigit(c) < ReadBase(x, base)
  }

  /** Where the standard's digits end, or the bare 0x. */
  ghost function Stop(x: Parts, base: int): nat {
    if LooksMarked(x, base) then |x.Front()| + 2 else |x.Front()| + |x.digits|
  }

  lemma StartFound(x: Parts, base: int)
    requires BaseOk(base) && Divided(x, base)
    ensures var p := PrefixOf(x.Text(), base);
            && p.Start() == (if LooksMarked(x, base) then Stop(x, base) else |x.Front()|)
            && p.base == ReadBase(x, base) && 2 <= p.base <= 36
  {
    PrefixFound(x, base);
    assert |x.Front()| == |x.white + x.sign| + |x.mark|;
  }

  lemma RunFound(x: Parts, base: int)
    requires BaseOk(base) && Divided(x, base)
    ensures CodeRunEnd(x.Text(), base) >= Stop(x, base)
    ensures CodeRunEnd(x.Text(), base) > Stop(x, base) <==> Stray(x, base)
  {
    StartFound(x, base);
    StopSeen(x, base, Stop(x, base));
    DigitsAgree(At(x.rest, if LooksMarked(x, base) then 1 else 0), ReadBase(x, base));
    RunsCompare(x.Text(), Stop(x, base), "", ReadBase(x, base));
    if !LooksMarked(x, base) {
      RunsCompare(x.Text(), |x.Front()|, x.digits, ReadBase(x, base));
    }
  }

  lemma StopSeen(x: Parts, base: int, j: nat)
    requires j == Stop(x, base)
    ensures j <= |x.Text()| && At(x.Text(), j) == At(x.rest, if LooksMarked(x, base) then 1 else 0)
    ensures !LooksMarked(x, base) ==> x.Text()[|x.Front()|..j] == x.digits
  {
    PartsAt(x);
    var k := |x.Front()| + |x.digits|;
    assert At(x.Text(), k + 0) == At(x.rest, 0) && At(x.Text(), k + 1) == At(x.rest, 1);
  }

  /** The end is the standard's if and only if no stray follows and a 0x has a digit. */
  lemma EndIsStandard(x: Parts, base: int)
    requires BaseOk(base) && Divided(x, base)
    ensures CodeEnd(x.Text(), base) == EndOf(x) <==> !Stray(x, base) && !LooksMarked(x, base)
  {
    StartFound(x, base);
    RunFound(x, base);
  }

  /** A longer run of digits has a larger value. */
  lemma {:induction false} ValueGrows(s: string, i: nat, j: nat, k: nat, base: int)
    requires 2 <= base <= 36 && i <= j < k <= |s| && CodeDigit(s[j]) > 0
    requires forall m :: i <= m < k ==> 0 <= CodeDigit(s[m]) < base
    ensures 0 <= Value(s, i, j, base) < Value(s, i, k, base)
    decreases k
  {
    ValueNonNegative(s, i, j, base);
    if k > j + 1 {
      ValueGrows(s, i, j, k - 1, base);
    }
    Grows(Value(s, i, k - 1, base), base, CodeDigit(s[k - 1]));
  }

  lemma {:induction false} ValueNonNegative(s: string, i: nat, j: nat, base: int)
    requires 2 <= base <= 36 && i <= j && (i == j || j <= |s|)
    requires forall m :: i <= m < j ==> 0 <= CodeDigit(s[m]) < base
    ensures Value(s, i, j, base) >= 0
    decreases j
  {
    if i < j {
      ValueNonNegative(s, i, j - 1, base);
      Grows(Value(s, i, j - 1, base), base, CodeDigit(s[j - 1]));
    }
  }

  lemma {:induction false} RunIsDigits(s: string, i: nat, base: int)
    requires 2 <= base <= 36
    ensures forall m :: i <= m < RunEnd(s, i, base) ==> 0 <= CodeDigit(s[m]) < base
    decreases if i <= |s| then |s| - i else 0
  {
    if i < |s| && CodeDigit(s[i]) < base {
      RunIsDigits(s, i + 1, base);
    }
  }

  /** Reading on past j makes the number larger. */
  lemma LongerRun(s: string, i: nat, j: nat, k: nat, base: int)
    requires 2 <= base <= 36 && i <= j <= k == RunEnd(s, i, base) && (i == j || j <= |s|)
    ensures 0 <= Value(s, i, j, base)
    ensures j < k && CodeDigit(s[j]) > 0 ==> Value(s, i, j, base) < Value(s, i, k, base)
  {
    RunIsDigits(s, i, base);
    ValueNonNegative(s, i, j, base);
    if j < k && CodeDigit(s[j]) > 0 {
      ValueGrows(s, i, j, k, base);
    }
  }

  lemma NumberFrom(s: string, base: int, j: nat, n: int)
    requires var p, k := PrefixOf(s, base), CodeRunEnd(s, base);
             && 2 <= p.base <= 36 && p.Start() <= j <= k && j <= |s| && n == Value(s, p.Start(), j, p.base)
             && (j < k ==> CodeDigit(s[j]) > 0)
    ensures n >= 0 && if j < CodeRunEnd(s, base) then CodeNumber(s, base) > n else CodeNumber(s, base) == n
  {
    var p := PrefixOf(s, base);
    LongerRun(s, p.Start(), j, CodeRunEnd(s, base), p.base);
  }

  /** The number the code reads is the standard's, or larger if a stray is read too. */
  lemma NumberFound(x: Parts, base: int, n: int)
    requires BaseOk(base) && Divided(x, base) && Denotes(x.digits, BaseOf(x, base), n)
    ensures n >= 0 && if Stray(x, base) then CodeNumber(x.Text(), base) > n else CodeNumber(x.Text(), base) == n
  {
    var s, j := x.Text(), Stop(x, base);
    RunFound(x, base);
    StopNumber(x, base, n);
    if Stray(x, base) {
      StrayAtStop(x, base);
    }
    NumberFrom(s, base, j, n);
  }

  lemma StrayAtStop(x: Parts, base: int)
    requires Stray(x, base)
    ensures Stop(x, base) < |x.Text()| && CodeDigit(x.Text()[Stop(x, base)]) >= 4
  {
    StopSeen(x, base, Stop(x, base));
  }

  lemma StopNumber(x: Parts, base: int, n: int)
    requires BaseOk(base) && Divided(x, base) && Denotes(x.digits, BaseOf(x, base), n)
    ensures var p, j := PrefixOf(x.Text(), base), Stop(x, base);
            p.Start() <= j <= |x.Text()| && 2 <= p.base <= 36 && Value(x.Text(), p.Start(), j, p.base) == n
  {
    StartFound(x, base);
    if LooksMarked(x, base) {
      ZeroAlone(x.digits, BaseOf(x, base), n);
    } else {
      DigitsIn(x, x.Text(), |x.Front()|, Stop(x, base), BaseOf(x, base), n);
    }
  }

  lemma DigitsIn(x: Parts, s: string, i: nat, j: nat, base: int, n: int)
    requires s == x.Text() && i == |x.Front()| && j == i + |x.digits| && 2 <= base <= 36
    requires Denotes(x.digits, base, n)
    ensures j <= |s| && Value(s, i, j, base) == n
  {
    SliceIs(x, s, i, j);
    NumberIs(s, i, j, x.digits, base, n);
  }

  lemma SliceIs(x: Parts, s: string, i: nat, j: nat)
    requires s == x.Text() && i == |x.Front()| && j == i + |x.digits|
    ensures j <= |s| && s[i..j] == x.digits
  {
  }

  lemma ZeroAlone(digits: string, base: int, n: int)
    requires 2 <= base <= 36 && digits == "0" && Denotes(digits, base, n)
    ensures n == 0
  {
    DigitsAgree('0', base);
  }

  /** The number is at the end of the range of long already, or past it. */
  predicate AtTheEnd(x: Parts, n: int) {
    if x.sign == "-" then -n <= LONG_MIN else n >= LONG_MAX
  }

  /** The result is the standard's unless a stray is read into a number still in range. */
  lemma ValueIsStandard(x: Parts, base: int, n: int)
    requires BaseOk(base) && Divided(x, base) && Denotes(x.digits, BaseOf(x, base), n)
    ensures CodeResult(x.Text(), base) == Returned(x, n) <==> !Stray(x, base) || AtTheEnd(x, n)
    ensures !Stray(x, base) ==> (CodeRangeError(x.Text(), base) <==> !Representable(x, n))
  {
    PrefixFound(x, base);
    NumberFound(x, base, n);
  }

  /** In base 10 the code reads on past the 1 of "1_", as if the underscore were an 8; and of a
      bare "0x" it reads nothing. */
  lemma StrayAndBarePrefix(x: Parts, y: Parts)
    requires x == Parts("", "", "", "1", "_") && y == Parts("", "", "", "0", "x")
    ensures x.Text() == "1_" && Divided(x, 10) && EndOf(x) == 1 && Denotes(x.digits, 10, 1)
    ensures CodeEnd("1_", 10) == 2 && CodeResult("1_", 10) == 18
    ensures y.Text() == "0x" && Divided(y, 16) && EndOf(y) == 1 && CodeEnd("0x", 16) == 0
  {
    StrayDivided(x);
    BareDivided(y);
    StrayRead();
    BareRead();
  }

  lemma BareRead()
    ensures CodeEnd("0x", 16) == 0
  {
    assert PrefixOf("0x", 16).Start() == 2;
  }

  lemma StrayRead()
    ensures CodeEnd("1_", 10) == 2 && CodeResult("1_", 10) == 18
  {
    assert Value("1_", 0, 1, 10) == 1;
  }

  lemma StrayDivided(x: Parts)
    requires x == Parts("", "", "", "1", "_")
    ensures Divided(x, 10) && Denotes(x.digits, 10, 1)
  {
    DigitsAgree('_', 10);
    assert x.digits[..0] == "" && Denotes("", 10, 0) && Worth('1', 10, 1);
    assert x.sign + x.mark + x.digits + x.rest == "1_" && x.mark + x.digits + x.rest == "1_";
  }

  lemma BareDivided(y: Parts)
    requires y == Parts("", "", "", "0", "x")
    ensures Divided(y, 16)
  {
    DigitsAgree('x', 16);
    DigitsAgree('\0', 16);
    assert Worth('0', 16, 0);
    assert y.sign + y.mark + y.digits + y.rest == "0x" && y.mark + y.digits + y.rest == "0x";
  }

  // ----- every text is divided in one of these ways

  lemma WhiteRun(t: string) returns (k: nat)
    ensures k <= |t| && (forall i :: 0 <= i < k ==> White(t[i])) && !White(At(t, k))
  {
    k := 0;
    while White(At(t, k))
      invariant k <= |t| && forall i :: 0 <= i < k ==> White(t[i])
      decreases |t| - k
    {
      k := k + 1;
    }
  }

  lemma DenotesMore(digits: string, base: int, n: int, c: char, d: int)
    requires Denotes(digits, base, n) && Worth(c, base, d)
    ensures Denotes(digits + [c], base, n * base + d)
  {
    var all, k := digits + [c], |digits|;
    assert all[..k] == digits && Worth(all[k], base, d);
  }

  lemma DigitRun(t: string, base: int) returns (k: nat, n: int)
    requires 2 <= base <= 36
    ensures k <= |t| && (forall i :: 0 <= i < k ==> DigitOf(t[i], base)) && !DigitOf(At(t, k), base)
    ensures Denotes(t[..k], base, n)
  {
    k, n := 0, 0;
    DigitsAgree('\0', base);
    while DigitOf(At(t, k), base)
      invariant k <= |t| && (forall i :: 0 <= i < k ==> DigitOf(t[i], base)) && Denotes(t[..k], base, n)
      decreases |t| - k
    {
      var d :| Worth(t[k], base, d);
      DenotesMore(t[..k], base, n, t[k], d);
      assert t[..k + 1] == t[..k] + [t[k]];
      k, n := k + 1, n * base + d;
    }
  }

  /** t starts with a mark that a digit follows. */
  ghost predicate MarkAhead(t: string, base: int) {
    base in {0, 16} && At(t, 0) == '0' && At(t, 1) in {'x', 'X'} && DigitOf(At(t, 2), 16)
  }

  /** White space and a sign have been taken off the front of t. */
  ghost predicate SignTaken(white: string, sign: string, t: string) {
    && (forall i :: 0 <= i < |white| ==> White(white[i])) && sign in {"", "+", "-"}
    && (sign == "" ==> !White(At(t, 0)) && At(t, 0) !in {'+', '-'})
  }

  /** The first digits of t tell its base. */
  lemma FirstDigit(x: Parts, t: string, b: int)
    requires 2 <= b <= 36 && t == x.digits + x.rest && !DigitOf(At(x.rest, 0), b)
    ensures At(x.digits, 0) == '0' <==> At(t, 0) == '0'
  {
    assert Worth('0', b, 0);
  }

  lemma Unmarked(x: Parts, base: int, t: string, b: int)
    requires BaseOk(base) && SignTaken(x.white, x.sign, t) && !MarkAhead(t, base)
    requires x.mark == "" && t == x.digits + x.rest
    requires b == if base != 0 then base else if At(t, 0) == '0' then 8 else 10
    requires (forall i :: 0 <= i < |x.digits| ==> DigitOf(x.digits[i], b)) && !DigitOf(At(x.rest, 0), b)
    ensures BaseOf(x, base) == b && Divided(x, base)
  {
    assert x.mark + x.digits + x.rest == t && x.sign + x.mark + x.digits + x.rest == x.sign + t;
    FirstDigit(x, t, b);
    if LooksMarked(x, base) {
      BareMark(x, base, t);
    }
  }

  lemma BareMark(x: Parts, base: int, t: string)
    requires LooksMarked(x, base) && !MarkAhead(t, base) && t == x.digits + x.rest
    ensures !DigitOf(At(x.rest, 1), 16)
  {
    assert At(t, 1) == At(x.rest, 0) && At(t, 2) == At(x.rest, 1);
  }

  lemma Marked(x: Parts, base: int, t: string)
    requires BaseOk(base) && SignTaken(x.white, x.sign, t) && MarkAhead(t, base)
    requires x.mark == t[..2] && t == x.mark + x.digits + x.rest
    requires (forall i :: 0 <= i < |x.digits| ==> DigitOf(x.digits[i], 16)) && !DigitOf(At(x.rest, 0), 16)
    ensures BaseOf(x, base) == 16 && Divided(x, base)
  {
    assert x.sign + x.mark + x.digits + x.rest == x.sign + t;
    assert x.mark == [t[0], t[1]];
    assert t == x.mark + (x.digits + x.rest) && At(t, 2) == At(x.digits + x.rest, 0);
  }

  lemma DivideRest(white: string, sign: string, t: string, base: int) returns (x: Parts, n: int)
    requires BaseOk(base) && SignTaken(white, sign, t)
    ensures x.white == white && x.sign == sign && x.mark + x.digits + x.rest == t
    ensures Divided(x, base) && Denotes(x.digits, BaseOf(x, base), n)
  {
    if MarkAhead(t, base) {
      x, n := Split(white, sign, t[..2], t[2..], 16);
      assert t == t[..2] + t[2..];
      Marked(x, base, t);
    } else {
      var b := if base != 0 then base else if At(t, 0) == '0' then 8 else 10;
      x, n := Split(white, sign, "", t, b);
      Unmarked(x, base, t, b);
    }
  }

  lemma Split(white: string, sign: string, mark: string, u: string, b: int) returns (x: Parts, n: int)
    requires 2 <= b <= 36
    ensures x.white == white && x.sign == sign && x.mark == mark && x.digits + x.rest == u
    ensures x.mark + x.digits + x.rest == mark + u
    ensures (forall i :: 0 <= i < |x.digits| ==> DigitOf(x.digits[i], b)) && !DigitOf(At(x.rest, 0), b)
    ensures Denotes(x.digits, b, n)
  {
    var k;
    k, n := DigitRun(u, b);
    x := Parts(white, sign, mark, u[..k], u[k..]);
    assert x.mark + x.digits + x.rest == mark + (x.digits + x.rest);
  }

  lemma EveryText(s: string, base: int) returns (x: Parts, n: int)
    requires BaseOk(base)
    ensures x.Text() == s && Divided(x, base) && Denotes(x.digits, BaseOf(x, base), n)
  {
    var w := WhiteRun(s);
    var t := s[w..];
    var sign := if At(t, 0) == '+' then "+" else if At(t, 0) == '-' then "-" else "";
    x, n := DivideRest(s[..w], sign, t[|sign|..], base);
    TextIs(x, s, s[..w], t, t[|sign|..]);
  }

  lemma TextIs(x: Parts, s: string, white: string, t: string, u: string)
    requires s == white + t && t == x.sign + u && x.white == white && x.mark + x.digits + x.rest == u
    ensures x.Text() == s
  {
  }
}

/** strtol (external/oslib/libc/stdlib/strtol.c) with the character tests of
    external/oslib/libc/string/strbase.c, where isalpha also accepts the six characters
    between 'Z' and 'a'. long has 32 bits. */
module Strtol {
  import opened CStrings
  import opened Powers

  const LONG_MAX: int := 0x7FFF_FFFF
  const ULONG_MAX: int := 0xFFFF_FFFF
  const NO_DIGIT: int := 255

  predicate IsSpace(c: char) { '\t' <= c <= '\r' || c == ' ' }

  predicate IsDigit(c: char) { '0' <= c <= '9' }

  predicate IsAlpha(c: char) { 'A' <= c <= 'z' }

  predicate IsUpper(c: char) { 'A' <= c <= 'Z' }

  /** What the conversion loop turns c into, or NO_DIGIT where it breaks. */
  function CodeDigit(c: char): int {
    if IsDigit(c) then c as int - '0' as int
    else if IsAlpha(c) then c as int - (if IsUpper(c) then 'A' as int - 10 else 'a' as int - 10)
    else NO_DIGIT
  }

  /** First position from i on that does not hold a digit of the base. */
  function RunEnd(s: string, i: nat, base: int): (r: nat)
    ensures i <= r && (r == i || r <= |s|)
    decreases if i <= |s| then |s| - i else 0
  {
    if i < |s| && CodeDigit(s[i]) < base && CodeDigit(s[i]) != NO_DIGIT then RunEnd(s, i + 1, base) else i
  }

  /** The number written by s[i..j]. */
  function Value(s: string, i: nat, j: nat, base: int): int
    requires i <= j && (i == j || j <= |s|)
    decreases j
  {
    if i == j then 0 else Value(s, i, j - 1, base) * base + CodeDigit(s[j - 1])
  }

  function Limit(neg: bool): int {
    if neg then LONG_MAX + 1 else LONG_MAX
  }

  /** The nearest long to n, or to -n. */
  function Clamp(neg: bool, n: int): int {
    var m := if n > Limit(neg) then Limit(neg) else n;
    if neg then 0 - m else m
  }

  function Spaces(s: string, i: nat): (r: nat)
    requires i <= |s|
    ensures i <= r <= |s|
    decreases |s| - i
  {
    if i < |s| && IsSpace(s[i]) then Spaces(s, i + 1) else i
  }

  /** What comes before the digits: sign, base and an optional 0x. */
  datatype Prefix = Prefix(neg: bool, first: nat, hex: bool, base: int)
  {
    function Start(): nat { if hex then first + 2 else first }
  }

  function PrefixOf(s: string, base: int): (p: Prefix)
    ensures p.base != 0
  {
    var k := Spaces(s, 0);
    var first := if At(s, k) == '-' || At(s, k) == '+' then k + 1 else k;
    var hex := (base == 0 || base == 16) && At(s, first) == '0' && (At(s, first + 1) == 'x' || At(s, first + 1) == 'X');
    var b := if hex then 16 else if base == 0 then (if At(s, first) == '0' then 8 else 10) else base;
    Prefix(At(s, k) == '-', first, hex, b)
  }

  // ----- what the function yields

  function CodeRunEnd(s: string, base: int): nat
  {
    var p := PrefixOf(s, base);
    RunEnd(s, p.Start(), p.base)
  }

  /** The index *endptr gets. */
  function CodeEnd(s: string, base: int): nat
  {
    if CodeRunEnd(s, base) > PrefixOf(s, base).Start() then CodeRunEnd(s, base) else 0
  }

  function CodeNumber(s: string, base: int): int
  {
    var p := PrefixOf(s, base);
    Value(s, p.Start(), CodeRunEnd(s, base), p.base)
  }

  /** The number returned. */
  function CodeResult(s: string, base: int): int
  {
    Clamp(PrefixOf(s, base).neg, CodeNumber(s, base))
  }

  function CodeRangeError(s: string, base: int): bool
  {
    CodeNumber(s, base) > Limit(PrefixOf(s, base).neg)
  }

  // ----- the code

  /** The test against cutoff and cutlim is the test for leaving the range. */
  lemma CutoffExact(acc: int, base: int, c: int, limit: int, q: int, r: int)
    requires acc >= 0 && 0 <= c < base && limit >= 0 && q == limit / base && r == limit % base
    ensures acc > q || (acc == q && c > r) <==> acc * base + c > limit
  {
    assert limit == q * base + r;
    if acc > q {
      Grows(acc - q - 1, base, c);
      assert (acc - q - 1) * base == acc * base - q * base - base;
    } else if acc < q {
      Grows(q - acc - 1, base, r);
      assert (q - acc - 1) * base == q * base - acc * base - base;
    }
  }

  /** One turn of the loop: an overflow is noticed exactly when it happens, and stays. */
  lemma TurnExact(any: int, acc: int, before: int, base: int, c: int, limit: int, q: int, r: int)
    requires 0 <= acc <= limit && 0 <= c < base && q == limit / base && r == limit % base
    requires if any < 0 then before > limit else acc == before
    ensures var next := before * base + c;
            if any < 0 || acc > q || (acc == q && c > r) then next > limit else 0 <= acc * base + c == next <= limit
  {
    CutoffExact(acc, base, c, limit, q, r);
    Grows(before, base, c);
  }

  /** The loop of strtol. any is negative after an overflow and 0 while no digit was read;
      the accumulator never leaves the range of the result, so it never wraps. */
  method Accumulate(s: string, start: nat, base: int, neg: bool) returns (acc: int, any: int, k: nat)
    requires base != 0 && base >= 0 - LONG_MAX - 1
    ensures k == RunEnd(s, start, base)
    ensures any == 0 <==> k == start
    ensures any < 0 <==> Value(s, start, k, base) > Limit(neg)
    ensures any >= 0 ==> acc == Value(s, start, k, base)
  {
    var ubase := if base < 0 then base + ULONG_MAX + 1 else base;
    var cutoff: int := Limit(neg);
    var cutlim := cutoff % ubase;
    cutoff := cutoff / ubase;
    acc, any, k := 0, 0, start;
    while true
      invariant start <= k && (k == start || k <= |s|)
      invariant RunEnd(s, start, base) == RunEnd(s, k, base)
      invariant 0 <= acc <= Limit(neg) <= ULONG_MAX
      invariant any == 0 <==> k == start
      invariant any < 0 ==> Value(s, start, k, base) > Limit(neg)
      invariant any >= 0 ==> acc == Value(s, start, k, base)
      decreases if k <= |s| then |s| - k else 0
    {
      var c := CodeDigit(At(s, k));
      if c == NO_DIGIT || c >= base {
        return;
      }
      assert c >= 0;
      TurnExact(any, acc, Value(s, start, k, base), base, c, Limit(neg), cutoff, cutlim);
      if any < 0 || acc > cutoff || (acc == cutoff && c > cutlim) {
        any := -1;
      } else {
        any := 1;
        acc := acc * base;
        acc := acc + c;
      }
      k := k + 1;
    }
  }

  method SkipSpaces(s: string) returns (k: nat)
    ensures k == Spaces(s, 0)
  {
    k := 0;
    while IsSpace(At(s, k))
      invariant k <= |s| && Spaces(s, 0) == Spaces(s, k)
      decreases |s| - k
    {
      k := k + 1;
    }
  }

  /** The scan before the conversion: sign, base, and the position of the first digit. */
  method ScanPrefix(s: string, base: int) returns (neg: bool, b: int, k: nat)
    ensures var p := PrefixOf(s, base); neg == p.neg && b == p.base && k == p.Start()
  {
    k := SkipSpaces(s);
    neg, b := false, base;
    if At(s, k) == '-' {
      neg := true;
      k := k + 1;
    } else if At(s, k) == '+' {
      k := k + 1;
    }
    if (b == 0 || b == 16) && At(s, k) == '0' && (At(s, k + 1) == 'x' || At(s, k + 1) == 'X') {
      k, b := k + 2, 16;
    }
    if b == 0 {
      b := if At(s, k) == '0' then 8 else 10;
    }
  }

  /** The value is the clamped number, range errors are reported exactly when it was clamped. */
  method Strtol(s: string, base: int) returns (result: int, end: nat, erange: bool)
    requires 0 - LONG_MAX - 1 <= base <= LONG_MAX
    ensures result == CodeResult(s, base) && end == CodeEnd(s, base) && erange == CodeRangeError(s, base)
  {
    var neg, b, k := ScanPrefix(s, base);
    var acc, any, stop := Accumulate(s, k, b, neg);
    erange := any < 0;
    if any < 0 {
      result := if neg then 0 - LONG_MAX - 1 else LONG_MAX;
    } else if neg {
      result := 0 - acc;
    } else {
      result := acc;
    }
    end := if any != 0 then stop else 0;
  }
}

/** What strtou and strtoi (external/oslib/libc/stdlib/strtou.c, strtoi.c) make of a text that is
    made of a sign or a mark, zeros, the digits of a number, and anything else. */
module NumberReading {
  import opened CStrings
  import opened NumberText

  ghost predicate IsDigit(c: char, base: int)
    requires 1 <= base <= 16
  {
    exists d: nat :: d < base && ToDigit(d) == c
  }

  /** The six characters between '9' and 'A', which pass for digits in the bases above ten. */
  predicate Passes(c: char, base: int) {
    base > 10 && ':' <= c <= '@'
  }

  lemma NumberChars(c: char, base: int)
    requires 1 <= base <= 16
    ensures IsNumber(c, base) <==> IsDigit(c, base) || Passes(c, base)
    ensures Plain(c, base) <==> IsDigit(c, base)
  {
    if Plain(c, base) {
      assert ToDigit(ToNumber(c)) == c;
    }
    if IsDigit(c, base) {
      var d: nat :| d < base && ToDigit(d) == c;
      DigitReadsBack(d, base);
    }
  }

  /** Zeros; in base 16 an x may come among them. */
  ghost predicate Skipped(lead: string, base: int) {
    AllAre(lead, '0') || (base == 16 && exists k: nat :: Mark(lead, k))
  }

  ghost predicate Mark(lead: string, k: nat) {
    k < |lead| && lead[k] == 'x' && AllAre(lead[..k], '0') && AllAre(lead[k + 1..], '0')
  }

  lemma Places(s: string, lead: string, digits: string, rest: string)
    requires s == lead + digits + rest
    ensures |lead| + |digits| <= |s| && s[|lead|..|lead| + |digits|] == digits
    ensures At(s, |lead|) == At(digits + rest, 0) && At(s, |lead| + |digits|) == At(rest, 0)
    ensures forall k :: 0 <= k < |lead| ==> s[k] == lead[k]
  {
  }

  /** What follows the zeros does not start with one more. */
  lemma NoMoreZeros(n: nat, rest: string, base: int)
    requires 2 <= base <= 16 && !IsDigit(At(rest, 0), base)
    ensures At(Digits(n, base) + rest, 0) != '0'
    ensures n > 0 ==> At(Digits(n, base) + rest, 0) !in {'x', '-', '+'}
    ensures n == 0 ==> Digits(n, base) + rest == rest
  {
    DigitsShape(Digits(n, base), n, base);
    assert ToDigit(0) == '0';
  }

  lemma StartFound(s: string, lead: string, n: nat, rest: string, base: int)
    requires 2 <= base <= 16 && s == lead + Digits(n, base) + rest && Skipped(lead, base)
    requires !IsDigit(At(rest, 0), base)
    requires base == 16 && n == 0 && AllAre(lead, '0') ==> At(rest, 0) != 'x'
    ensures StrtouStart(s, base) == |lead|
  {
    Places(s, lead, Digits(n, base), rest);
    NoMoreZeros(n, rest, base);
    if AllAre(lead, '0') {
      SkipsTo(s, 0, |lead|);
    } else {
      var k: nat :| Mark(lead, k);
      SkipsTo(s, 0, k);
      assert forall i :: k < i < |lead| ==> s[i] == lead[k + 1..][i - k - 1];
      SkipsTo(s, k + 1, |lead|);
    }
  }

  /** The conversion loop on the digits of n. */
  lemma RunFound(s: string, i: nat, j: nat, n: nat, base: int, signed: bool)
    requires 2 <= base <= 16 && i <= j <= |s| && s[i..j] == Digits(n, base) && !IsDigit(At(s, j), base)
    requires n <= if signed then INT_MAX else ULONG_MAX
    ensures RunEnd(s, i, base) == j && (Refused(s, i, base) <==> Passes(At(s, j), base))
    ensures Converted(s, i, base, signed) == if Passes(At(s, j), base) then 0 else n
  {
    NumberChars(At(s, j), base);
    PlainPart(s, i, j, n, base);
    RunStops(s, i, j, base);
    ValueOfDigits(s, i, j, n, base);
    AccExact(s, i, j, base, signed);
  }

  lemma {:induction false} RunStops(s: string, i: nat, j: nat, base: int)
    requires i <= j <= |s| && 1 <= base <= 16 && (j < |s| ==> !Plain(s[j], base))
    requires forall k :: i <= k < j ==> Plain(s[k], base)
    ensures RunEnd(s, i, base) == j
    decreases j - i
  {
    if i < j {
      RunStops(s, i + 1, j, base);
    }
  }

  /** strtou reads any number that fits, after zeros and, in base 16, an x, up to the first
      character that is no digit; but it gives 0 when that is one of the six that pass. */
  lemma StrtouReads(s: string, lead: string, n: nat, rest: string, base: int)
    requires 2 <= base <= 16 && n <= ULONG_MAX && s == lead + Digits(n, base) + rest && Skipped(lead, base)
    requires !IsDigit(At(rest, 0), base)
    requires base == 16 && n == 0 && AllAre(lead, '0') ==> At(rest, 0) != 'x'
    ensures StrtouValue(s, base) == if Passes(At(rest, 0), base) then 0 else n
    ensures RunEnd(s, StrtouStart(s, base), base) == |s| - |rest|
  {
    Places(s, lead, Digits(n, base), rest);
    StartFound(s, lead, n, rest, base);
    RunFound(s, |lead|, |s| - |rest|, n, base, false);
  }

  /** strtoi does the same after a sign and zeros, and negates after a minus. */
  lemma StrtoiReads(s: string, sign: string, zeros: string, n: nat, rest: string, base: int)
    requires 2 <= base <= 16 && n <= INT_MAX && s == sign + zeros + Digits(n, base) + rest
    requires sign in {"", "+", "-"} && AllAre(zeros, '0') && !IsDigit(At(rest, 0), base)
    requires sign == "" && zeros == "" && n == 0 ==> At(rest, 0) !in {'+', '-'}
    ensures StrtoiValue(s, base) == if Passes(At(rest, 0), base) then 0 else if sign == "-" then 0 - n else n
    ensures RunEnd(s, StrtoiStart(s), base) == |s| - |rest|
  {
    Places(s, sign + zeros, Digits(n, base), rest);
    SignedStart(s, sign, zeros, n, rest, base);
    RunFound(s, |sign + zeros|, |s| - |rest|, n, base, true);
  }

  lemma SignedStart(s: string, sign: string, zeros: string, n: nat, rest: string, base: int)
    requires 2 <= base <= 16 && s == sign + zeros + Digits(n, base) + rest
    requires sign in {"", "+", "-"} && AllAre(zeros, '0') && !IsDigit(At(rest, 0), base)
    requires sign == "" && zeros == "" && n == 0 ==> At(rest, 0) !in {'+', '-'}
    ensures StrtoiStart(s) == |sign + zeros| && (At(s, 0) == '-' <==> sign == "-")
  {
    Places(s, sign + zeros, Digits(n, base), rest);
    NoMoreZeros(n, rest, base);
    assert forall k :: 0 <= k < |zeros| ==> (sign + zeros)[|sign| + k] == zeros[k];
    SkipsTo(s, |sign|, |sign + zeros|);
    if sign == "" {
      assert sign + zeros == zeros;
      assert At(s, 0) !in {'+', '-'};
    }
  }

  /** A 5 and a colon, read in base 16. */
  lemma ColonReadsZero()
    ensures StrtouValue("5:", 16) == 0 && StrtoiValue("5:", 16) == 0
  {
    assert Digits(5, 16) == "5" && "" + "" + "5" + ":" == "" + "5" + ":" == "5:";
    NumberChars(':', 16);
    assert !Plain(':', 16);
    StrtouReads("5:", "", 5, ":", 16);
    StrtoiReads("5:", "", "", 5, ":", 16);
  }
}

/** Numbers as text in OSLib: ucvt and dcvt print (external/oslib/libc/ioformat/ucvt.c),
    strtou and strtoi read (external/oslib/libc/stdlib/strtou.c, strtoi.c), with the
    character tables of external/oslib/libc/string/strbase.c. long and int have 32 bits. */
module NumberText {
  import opened CStrings
  import opened Powers

  const INT_MAX: int := 0x7FFF_FFFF
  const ULONG_MAX: int := 0xFFFF_FFFF
  const TMP_SIZE: nat := 12

  /** What a 32-bit signed or unsigned variable holds after x is stored in it. */
  function Wrap(x: int, signed: bool): (r: int)
    ensures signed ==> 0 - INT_MAX - 1 <= r <= INT_MAX
    ensures !signed ==> 0 <= r <= ULONG_MAX
    ensures (if signed then 0 - INT_MAX - 1 <= x <= INT_MAX else 0 <= x <= ULONG_MAX) ==> r == x
  {
    var u := x % (ULONG_MAX + 1);
    if signed && u > INT_MAX then u - ULONG_MAX - 1 else u
  }

  // ----- characters

  function ToDigit(c: int): char
    requires 0 <= c < 16
  {
    if c <= 9 then (c + '0' as int) as char else (c + 'A' as int - 10) as char
  }

  function ToNumber(c: char): int {
    if '0' <= c <= '9' then c as int - '0' as int
    else if 'A' <= c <= 'F' then c as int - 'A' as int + 10
    else if 'a' <= c <= 'f' then c as int - 'a' as int + 10
    else c as int
  }

  /** In the bases above ten this also lets ':' to '@' through. */
  predicate IsNumber(c: char, base: int)
    requires 1 <= base <= 16
  {
    '0' <= c <= ToDigit(base - 1)
  }

  /** The digits are those isnumber names, the letters capital. */
  lemma DigitNames(d: nat)
    requires d < 16
    ensures ToDigit(d) == "0123456789ABCDEF"[d]
  {
  }

  lemma DigitReadsBack(d: int, base: int)
    requires 0 <= d < base <= 16
    ensures IsNumber(ToDigit(d), base) && ToNumber(ToDigit(d)) == d
    ensures ToDigit(d) == '0' <==> d == 0
    ensures ToDigit(d) !in {'-', '+', ' ', 'x', '\0'}
  {
  }

  // ----- digits of a number

  /** The digits of n, most significant first; none for 0. */
  function Digits(n: nat, base: int): string
    requires 2 <= base <= 16
  {
    if n == 0 then "" else Digits(n / base, base) + [ToDigit(n % base)]
  }

  lemma {:induction false} DigitsLength(n: nat, base: int, k: nat)
    requires 2 <= base <= 16
    ensures |Digits(n, base)| <= k <==> n < Power(base, k)
    decreases k
  {
    if k == 0 || n == 0 {
      PowerPositive(base, k);
    } else {
      var q, p := n / base, Power(base, k - 1);
      DigitsLength(q, base, k - 1);
      PowerPositive(base, k - 1);
      QuotientBelow(n, base, p);
      assert |Digits(n, base)| == |Digits(q, base)| + 1;
    }
  }

  lemma {:induction false} PowerPositive(b: nat, k: nat)
    requires b > 0
    ensures Power(b, k) > 0
    decreases k
  {
    if k > 0 {
      PowerPositive(b, k - 1);
    }
  }

  lemma QuotientBelow(n: nat, base: nat, p: nat)
    requires base >= 2
    ensures n / base < p <==> n < base * p
  {
    var q, r := n / base, n % base;
    assert n == base * q + r;
    if q < p {
      MulBoth(base, base, q + 1, p);
      assert base * (q + 1) == base * q + base;
    } else {
      MulBoth(base, base, p, q);
    }
  }

  /** The temporary of ucvt is long enough for every 32-bit number from base 7 on, and for
      no base below. */
  lemma TmpNeverOverflows(base: int)
    requires 2 <= base <= 16
    ensures (forall n: nat :: n <= ULONG_MAX ==> |Digits(n, base)| <= TMP_SIZE) <==> base >= 7
  {
    var p := Power(base, TMP_SIZE);
    if base >= 7 {
      PowerMonotone(7, base, TMP_SIZE);
      assert Power(7, TMP_SIZE) > ULONG_MAX;
      forall n: nat | n <= ULONG_MAX ensures |Digits(n, base)| <= TMP_SIZE {
        DigitsLength(n, base, TMP_SIZE);
      }
    } else {
      PowerMonotone(base, 6, TMP_SIZE);
      assert Power(6, TMP_SIZE) <= ULONG_MAX;
      DigitsLength(ULONG_MAX, base, TMP_SIZE);
    }
  }

  // ----- reading

  /** The number written by s[i..j]. */
  function Value(s: string, i: nat, j: nat, base: int): int
    requires i <= j <= |s|
    decreases j - i
  {
    if i == j then 0 else Value(s, i, j - 1, base) * base + ToNumber(s[j - 1])
  }

  /** The variables result and overflow of strtou and strtoi once s[i..j] has been read. */
  function Acc(s: string, i: nat, j: nat, base: int, signed: bool): (int, bool)
    requires i <= j <= |s|
    decreases j - i
  {
    if i == j then (0, false)
    else
      var (old_, overflow) := Acc(s, i, j - 1, base, signed);
      var result := Wrap(Wrap(old_ * base, signed) + ToNumber(s[j - 1]), signed);
      (result, overflow || old_ > result)
  }

  predicate Plain(c: char, base: int)
    requires 1 <= base <= 16
  {
    IsNumber(c, base) && 0 <= ToNumber(c) <= base
  }

  /** First position from i on that does not hold a digit. */
  function RunEnd(s: string, i: nat, base: int): (r: nat)
    requires i <= |s| && 1 <= base <= 16
    ensures i <= r <= |s|
    decreases |s| - i
  {
    if i < |s| && Plain(s[i], base) then RunEnd(s, i + 1, base) else i
  }

  function SkipZeros(s: string, i: nat): (r: nat)
    requires i <= |s|
    ensures i <= r <= |s|
    decreases |s| - i
  {
    if i < |s| && s[i] == '0' then SkipZeros(s, i + 1) else i
  }

  /** Result of the conversion loop started at i; 0 when it meets a character that passes
      isnumber but is no digit. */
  function Converted(s: string, i: nat, base: int, signed: bool): int
    requires i <= |s| && 1 <= base <= 16
  {
    var j := RunEnd(s, i, base);
    var (result, overflow) := Acc(s, i, j, base, signed);
    if Refused(s, i, base) then 0 else if overflow then INT_MAX else result
  }

  /** Where strtou starts converting: past leading zeros and, in base 16, past an x and zeros. */
  function StrtouStart(s: string, base: int): (i: nat)
    requires 1 <= base <= 16
    ensures i <= |s|
  {
    var i := SkipZeros(s, 0);
    if At(s, i) == 'x' && base == 16 then SkipZeros(s, i + 1) else i
  }

  function StrtouValue(s: string, base: int): int
    requires 1 <= base <= 16
  {
    Converted(s, StrtouStart(s, base), base, false)
  }

  /** Where strtoi starts converting: past a sign and leading zeros. */
  function StrtoiStart(s: string): (i: nat)
    ensures i <= |s|
  {
    SkipZeros(s, if At(s, 0) == '-' || At(s, 0) == '+' then 1 else 0)
  }

  /** The early return, on a character that passes isnumber but is no digit of the base. */
  predicate Refused(s: string, i: nat, base: int)
    requires i <= |s| && 1 <= base <= 16
  {
    IsNumber(At(s, RunEnd(s, i, base)), base)
  }

  function StrtoiValue(s: string, base: int): int
    requires 1 <= base <= 16
  {
    var n := Converted(s, StrtoiStart(s), base, true);
    if Refused(s, StrtoiStart(s), base) then 0
    else Wrap(if At(s, 0) == '-' then 0 - n else n, true)
  }

  // ----- printing

  datatype Flags = Flags(addPlus: bool, spacePad: bool, zeroPad: bool, leftPad: bool)

  predicate Fits(v: int) { 0 <= v <= ULONG_MAX }

  predicate Negative(v: int, base: int) { base < 0 && v > INT_MAX }

  /** abs_v; a negative base asks for a signed number. */
  function Magnitude(v: int, base: int): nat
    requires Fits(v)
  {
    if Negative(v, base) then ULONG_MAX + 1 - v else v
  }

  function AbsBase(base: int): nat { if base >= 0 then base else 0 - base }

  function SignText(v: int, base: int, flag: Flags): string {
    if Negative(v, base) then "-" else if flag.addPlus then "+" else ""
  }

  function Numeral(v: int, base: int): string
    requires Fits(v) && 2 <= AbsBase(base) <= 16
  {
    if v == 0 then "0" else Digits(Magnitude(v, base), AbsBase(base))
  }

  function Repeat(c: char, n: nat): (r: string)
    ensures |r| == n && forall k :: 0 <= k < n ==> r[k] == c
  {
    if n == 0 then "" else Repeat(c, n - 1) + [c]
  }

  /** Columns left to fill after the first used ones. */
  function Fill(width: int, used: nat): nat {
    if used < width then width - used else 0
  }

  /** Leading spaces: ucvt inverts LEFT_PAD, so they come when the caller did not set it. */
  function Indent(v: int, base: int, width: int, flag: Flags): nat
    requires Fits(v) && 2 <= AbsBase(base) <= 16
  {
    if !flag.leftPad && flag.spacePad then Fill(width, |SignText(v, base, flag)| + |Numeral(v, base)|) else 0
  }

  function Zeros(v: int, base: int, width: int, flag: Flags): nat
    requires Fits(v) && 2 <= AbsBase(base) <= 16
  {
    if !flag.leftPad && !flag.spacePad && flag.zeroPad
    then Fill(width, |SignText(v, base, flag)| + |Numeral(v, base)|)
    else 0
  }

  function Trail(v: int, base: int, width: int, flag: Flags): nat
    requires Fits(v) && 2 <= AbsBase(base) <= 16
  {
    if flag.leftPad && flag.spacePad then Fill(width, |SignText(v, base, flag)| + |Numeral(v, base)|) else 0
  }

  /** What ucvt writes before the terminator. */
  function Printed(v: int, base: int, width: int, flag: Flags): string
    requires Fits(v) && 2 <= AbsBase(base) <= 16
  {
    Repeat(' ', Indent(v, base, width, flag)) + SignText(v, base, flag) + Repeat('0', Zeros(v, base, width, flag))
    + Numeral(v, base) + Repeat(' ', Trail(v, base, width, flag))
  }

  /** The text is as wide as asked for when some padding is, or as its sign and digits if they
      are wider. */
  lemma PaddedToWidth(v: int, base: int, width: int, flag: Flags)
    requires Fits(v) && 2 <= AbsBase(base) <= 16
    ensures var used := |SignText(v, base, flag) + Numeral(v, base)|;
            |Printed(v, base, width, flag)| ==
            if (flag.spacePad || (flag.zeroPad && !flag.leftPad)) && width > used then width else used
  {
  }

  /** Spaces go behind the number when the caller sets LEFT_PAD, and in front of it otherwise. */
  lemma SpacesAround(v: int, base: int, width: int, flag: Flags)
    requires Fits(v) && 2 <= AbsBase(base) <= 16 && flag.spacePad
    ensures var t, number := Printed(v, base, width, flag), SignText(v, base, flag) + Numeral(v, base);
            |number| <= |t| &&
            if flag.leftPad then t[..|number|] == number && AllAre(t[|number|..], ' ')
            else t[|t| - |number|..] == number && AllAre(t[..|t| - |number|], ' ')
  {
    var sign, numeral := SignText(v, base, flag), Numeral(v, base);
    var front, back := Repeat(' ', Indent(v, base, width, flag)), Repeat(' ', Trail(v, base, width, flag));
    assert front + sign + "" + numeral + back == front + (sign + numeral) + back;
  }

  /** Without spaces the sign comes first and zeros fill up to the digits. */
  lemma ZerosBetween(v: int, base: int, width: int, flag: Flags)
    requires Fits(v) && 2 <= AbsBase(base) <= 16 && !flag.spacePad
    ensures var t, sign, numeral := Printed(v, base, width, flag), SignText(v, base, flag), Numeral(v, base);
            && |sign| + |numeral| <= |t| && t[..|sign|] == sign && t[|t| - |numeral|..] == numeral
            && AllAre(t[|sign|..|t| - |numeral|], '0')
  {
    var sign, zeros, numeral := SignText(v, base, flag), Repeat('0', Zeros(v, base, width, flag)), Numeral(v, base);
    assert "" + sign + zeros + numeral + "" == sign + zeros + numeral;
  }

  predicate AllAre(t: string, c: char) {
    forall k :: 0 <= k < |t| ==> t[k] == c
  }

  // ----- what reading makes of printed text

  lemma {:induction false} SkipsTo(s: string, i: nat, j: nat)
    requires i <= j <= |s| && (j < |s| ==> s[j] != '0')
    requires forall k :: i <= k < j ==> s[k] == '0'
    ensures SkipZeros(s, i) == j
    decreases j - i
  {
    if i < j {
      SkipsTo(s, i + 1, j);
    }
  }

  lemma {:induction false} RunEndIs(s: string, i: nat, j: nat, base: int)
    requires i <= j <= |s| && 1 <= base <= 16 && !IsNumber(At(s, j), base)
    requires forall k :: i <= k < j ==> Plain(s[k], base)
    ensures RunEnd(s, i, base) == j
    decreases j - i
  {
    if i < j {
      RunEndIs(s, i + 1, j, base);
    }
  }

  lemma DigitsStep(n: nat, base: int) returns (q: nat, d: nat)
    requires 2 <= base <= 16 && n > 0
    ensures d < base && Digits(n, base) == Digits(q, base) + [ToDigit(d)]
    ensures n == q * base + d && q < n && (q == 0 ==> d == n)
  {
    q, d := n / base, n % base;
    DivideStep(n, base, q, d);
  }

  lemma DivideStep(n: int, base: int, q: int, d: int)
    requires base >= 2 && n > 0 && q == n / base && d == n % base
    ensures n == q * base + d && 0 <= q < n && (q == 0 ==> d == n)
  {
    assert n == base * q + d;
    if q >= 1 {
      assert base * q >= 2 * q;
    }
  }

  predicate AllPlain(t: string, base: int)
    requires 2 <= base <= 16
  {
    forall k :: 0 <= k < |t| ==> Plain(t[k], base)
  }

  /** A leading digit is not zero. */
  lemma {:induction false} DigitsShape(t: string, n: nat, base: int)
    requires 2 <= base <= 16 && t == Digits(n, base)
    ensures AllPlain(t, base)
    ensures n > 0 ==> |t| > 0 && t[0] !in {'0', '-', '+', ' ', 'x'}
    decreases n
  {
    if n > 0 {
      var q, d := DigitsStep(n, base);
      var front := Digits(q, base);
      DigitsShape(front, q, base);
      DigitReadsBack(d, base);
      assert front == "" ==> q == 0;
    }
  }

  lemma SliceLast(s: string, i: nat, j: nat, t: string, c: char)
    requires i <= j <= |s| && s[i..j] == t + [c]
    ensures i < j && s[i..j - 1] == t && s[j - 1] == c
  {
    assert s[i..j - 1] == s[i..j][..j - 1 - i];
    assert s[j - 1] == s[i..j][j - 1 - i];
  }

  /** Reading the digits of n gives n. */
  lemma {:induction false} ValueOfDigits(s: string, i: nat, j: nat, n: nat, base: int)
    requires 2 <= base <= 16 && i <= j <= |s| && s[i..j] == Digits(n, base)
    ensures Value(s, i, j, base) == n
    decreases n
  {
    if n > 0 {
      var q, d := DigitsStep(n, base);
      SliceLast(s, i, j, Digits(q, base), ToDigit(d));
      ValueOfDigits(s, i, j - 1, q, base);
      DigitReadsBack(d, base);
    }
  }

  /** While the value fits, the accumulator is the value and no overflow is flagged. */
  lemma {:induction false} AccExact(s: string, i: nat, j: nat, base: int, signed: bool)
    requires 2 <= base <= 16 && i <= j <= |s| && forall k :: i <= k < j ==> Plain(s[k], base)
    requires Value(s, i, j, base) <= if signed then INT_MAX else ULONG_MAX
    ensures 0 <= Value(s, i, j, base) && Acc(s, i, j, base, signed) == (Value(s, i, j, base), false)
    decreases j
  {
    if i < j {
      var old_, d := Value(s, i, j - 1, base), ToNumber(s[j - 1]);
      ValueNonNegative(s, i, j - 1, base);
      Grows(old_, base, d);
      AccExact(s, i, j - 1, base, signed);
    }
  }

  lemma {:induction false} ValueNonNegative(s: string, i: nat, j: nat, base: int)
    requires 2 <= base <= 16 && i <= j <= |s| && forall k :: i <= k < j ==> Plain(s[k], base)
    ensures Value(s, i, j, base) >= 0
    decreases j
  {
    if i < j {
      ValueNonNegative(s, i, j - 1, base);
      Grows(Value(s, i, j - 1, base), base, ToNumber(s[j - 1]));
    }
  }

  lemma WrapOffset(x: int, signed: bool) returns (q: int)
    ensures Wrap(x, signed) == x + q * (ULONG_MAX + 1)
  {
    q := 0 - x / (ULONG_MAX + 1) - if signed && x % (ULONG_MAX + 1) > INT_MAX then 1 else 0;
  }

  /** Wrapping a term first does not change what the sum wraps to. */
  lemma WrapSum(x: int, d: int, signed: bool)
    ensures Wrap(Wrap(x, signed) + d, signed) == Wrap(x + d, signed)
  {
    var q := WrapOffset(x, signed);
    WrapPeriodic(x + d, q, signed);
  }

  /** Nor what the product wraps to. */
  lemma WrapProduct(x: int, k: int, signed: bool)
    ensures Wrap(Wrap(x, signed) * k, signed) == Wrap(x * k, signed)
  {
    var q := WrapOffset(x, signed);
    var w, p := q * k, x * k;
    assert (x + q * (ULONG_MAX + 1)) * k == p + w * (ULONG_MAX + 1);
    WrapPeriodic(p, w, signed);
  }

  lemma WrapPeriodic(x: int, q: int, signed: bool)
    ensures Wrap(x + q * (ULONG_MAX + 1), signed) == Wrap(x, signed)
  {
    var w := ULONG_MAX + 1;
    ModPeriodic(x, q, x / w, x % w);
  }

  lemma ModPeriodic(x: int, q: int, d: int, r: int)
    requires x == d * (ULONG_MAX + 1) + r && 0 <= r <= ULONG_MAX
    ensures (x + q * (ULONG_MAX + 1)) % (ULONG_MAX + 1) == x % (ULONG_MAX + 1) == r
  {
    assert x + q * (ULONG_MAX + 1) == (d + q) * (ULONG_MAX + 1) + r;
  }

  /** Some digit makes the wrapped value smaller. */
  ghost predicate Drops(s: string, i: nat, j: nat, base: int, signed: bool)
    requires i <= j <= |s|
  {
    exists k :: i < k <= j && Dropped(s, i, k, base, signed)
  }

  predicate Dropped(s: string, i: nat, k: nat, base: int, signed: bool)
    requires i < k <= |s|
  {
    Wrap(Value(s, i, k - 1, base), signed) > Wrap(Value(s, i, k, base), signed)
  }

  lemma DropsStep(s: string, i: nat, j: nat, base: int, signed: bool)
    requires i < j <= |s|
    ensures Drops(s, i, j, base, signed) <==> Drops(s, i, j - 1, base, signed) || Dropped(s, i, j, base, signed)
  {
  }

  lemma WrapStep(v: int, base: int, d: int, signed: bool)
    ensures Wrap(Wrap(Wrap(v, signed) * base, signed) + d, signed) == Wrap(v * base + d, signed)
  {
    var p := v * base;
    WrapProduct(v, base, signed);
    WrapSum(p, d, signed);
  }

  /** For every run of digits: the accumulator is the value wrapped, and the overflow flag
      is raised exactly when some digit made the wrapped value smaller. */
  lemma {:induction false} AccWraps(s: string, i: nat, j: nat, base: int, signed: bool)
    requires i <= j <= |s|
    ensures Acc(s, i, j, base, signed).0 == Wrap(Value(s, i, j, base), signed)
    ensures Acc(s, i, j, base, signed).1 <==> Drops(s, i, j, base, signed)
    decreases j
  {
    if i < j {
      AccWraps(s, i, j - 1, base, signed);
      WrapStep(Value(s, i, j - 1, base), base, ToNumber(s[j - 1]), signed);
      DropsStep(s, i, j, base, signed);
    }
  }

  /** The flag tells the truth about a run of digits exactly when the value fits or some
      digit made the wrapped value smaller: it misses every other overflow. */
  lemma FlagExactIff(s: string, i: nat, j: nat, base: int, signed: bool)
    requires 2 <= base <= 16 && i <= j <= |s| && forall k :: i <= k < j ==> Plain(s[k], base)
    ensures var fits := Value(s, i, j, base) <= if signed then INT_MAX else ULONG_MAX;
            (Acc(s, i, j, base, signed).1 <==> !fits) <==> fits || Drops(s, i, j, base, signed)
  {
    AccWraps(s, i, j, base, signed);
    if Value(s, i, j, base) <= if signed then INT_MAX else ULONG_MAX {
      AccExact(s, i, j, base, signed);
    }
  }

  /** The number of j nines. */
  function Nines(j: nat): int {
    if j == 0 then 0 else Nines(j - 1) * 10 + 9
  }

  lemma NineNines()
    ensures Nines(9) == 999_999_999 && Nines(10) == 9_999_999_999
  {
    assert Nines(3) == 999 && Nines(6) == 999_999;
  }

  predicate AllNines(s: string, n: nat) {
    |s| == n && forall k :: 0 <= k < n ==> s[k] == '9'
  }

  lemma {:induction false} NinesValue(s: string, n: nat, j: nat)
    requires AllNines(s, n) && j <= n
    ensures Value(s, 0, j, 10) == Nines(j) && forall k :: 0 <= k < j ==> Plain(s[k], 10)
    decreases j
  {
    if j > 0 {
      NinesValue(s, n, j - 1);
    }
  }

  lemma LastStep(s: string, j: nat, base: int, old_: int, d: int)
    requires 0 < j <= |s| && Acc(s, 0, j - 1, base, false) == (old_, false) && d == ToNumber(s[j - 1])
    requires old_ <= Wrap(Wrap(old_ * base, false) + d, false)
    ensures Acc(s, 0, j, base, false) == (Wrap(Wrap(old_ * base, false) + d, false), false)
  {
  }

  /** The result of a conversion whose run of digits and final variables are known. */
  lemma ConvertedFrom(s: string, i: nat, j: nat, base: int, signed: bool, result: int)
    requires i <= j == |s| && 1 <= base <= 16 && RunEnd(s, i, base) == j
    requires Acc(s, i, j, base, signed) == (result, false)
    ensures Converted(s, i, base, signed) == result
  {
  }

  /** The last of n nines wraps the accumulator round to a larger value. */
  lemma WrapsRound(s: string, n: nat)
    requires n > 0 && AllNines(s, n) && Nines(n - 1) == 999_999_999
    ensures Acc(s, 0, n, 10, false) == (1_410_065_407, false) && Value(s, 0, n, 10) == 9_999_999_999
    ensures RunEnd(s, 0, 10) == n && SkipZeros(s, 0) == 0 && At(s, 0) == '9'
  {
    NinesValue(s, n, n - 1);
    NinesValue(s, n, n);
    AccExact(s, 0, n - 1, 10, false);
    LastStep(s, n, 10, 999_999_999, 9);
    RunEndIs(s, 0, n, 10);
  }

  /** An overflow the test misses: ten nines read as 1410065407, with no overflow flagged. */
  lemma MissedOverflow(s: string, n: nat)
    requires n == 10 && AllNines(s, n)
    ensures StrtouValue(s, 10) == 1_410_065_407 && Value(s, 0, n, 10) == 9_999_999_999
    ensures !Acc(s, 0, n, 10, false).1
  {
    NineNines();
    WrapsRound(s, n);
    ConvertedFrom(s, 0, n, 10, false, 1_410_065_407);
  }

  lemma ConvertedIs(s: string, i: nat, j: nat, n: nat, base: int, signed: bool)
    requires 2 <= base <= 16 && i <= j <= |s| && s[i..j] == Digits(n, base) && !IsNumber(At(s, j), base)
    requires n <= if signed then INT_MAX else ULONG_MAX
    ensures Converted(s, i, base, signed) == n && RunEnd(s, i, base) == j
  {
    PlainPart(s, i, j, n, base);
    RunEndIs(s, i, j, base);
    ValueOfDigits(s, i, j, n, base);
    AccExact(s, i, j, base, signed);
  }

  lemma PlainPart(s: string, i: nat, j: nat, n: nat, base: int)
    requires 2 <= base <= 16 && i <= j <= |s| && s[i..j] == Digits(n, base)
    ensures forall k :: i <= k < j ==> Plain(s[k], base)
  {
    DigitsShape(s[i..j], n, base);
    forall k | i <= k < j ensures Plain(s[k], base) {
      assert s[k] == s[i..j][k - i];
    }
  }

  /** The one signed magnitude that does not fit: its last digit overflows. */
  lemma ConvertedMin(s: string, i: nat, j: nat, base: int)
    requires 2 <= base <= 16 && i <= j <= |s| && s[i..j] == Digits(INT_MAX + 1, base) && !IsNumber(At(s, j), base)
    ensures Converted(s, i, base, true) == INT_MAX && RunEnd(s, i, base) == j
  {
    var n: nat := INT_MAX + 1;
    PlainPart(s, i, j, n, base);
    RunEndIs(s, i, j, base);
    ValueOfDigits(s, i, j, n, base);
    AccMin(s, i, j, base);
  }

  lemma AccMin(s: string, i: nat, j: nat, base: int)
    requires 2 <= base <= 16 && i < j <= |s| && forall k :: i <= k < j ==> Plain(s[k], base)
    requires Value(s, i, j, base) == INT_MAX + 1
    ensures Acc(s, i, j, base, true).1
  {
    var old_, d := Value(s, i, j - 1, base), ToNumber(s[j - 1]);
    ValueNonNegative(s, i, j - 1, base);
    Grows(old_, base, d);
    AccExact(s, i, j - 1, base, true);
    LastStepOverflows(old_, base, d);
  }

  lemma LastStepOverflows(old_: int, base: int, d: int)
    requires old_ >= 0 && 2 <= base <= 16 && d >= 0 && old_ * base + d == INT_MAX + 1
    ensures Wrap(Wrap(old_ * base, true) + d, true) < old_
  {
    var p := old_ * base;
    Grows(old_, base, d);
    assert 0 <= p <= INT_MAX + 1;
  }

  lemma BodyParts(s: string, start: nat, zeros: nat, num: string, trail: nat)
    requires start <= |s| && s[start..] == Repeat('0', zeros) + num + Repeat(' ', trail)
    ensures forall k :: start <= k < start + zeros ==> s[k] == '0'
    ensures start + zeros + |num| <= |s| && s[start + zeros..start + zeros + |num|] == num
    ensures At(s, start + zeros + |num|) in {' ', '\0'}
  {
    var t := s[start..];
    assert forall k :: 0 <= k < |t| ==> s[start + k] == t[k];
    assert t[zeros..zeros + |num|] == num;
  }

  /** Where the digits of a printed number lie; the 0 of zero is one more zero to skip. */
  lemma BodyPlaces(s: string, start: nat, zeros: nat, n: nat, base: int, trail: nat) returns (i: nat, j: nat)
    requires 2 <= base <= 16 && start <= |s|
    requires s[start..] == Repeat('0', zeros) + (if n == 0 then "0" else Digits(n, base)) + Repeat(' ', trail)
    ensures start <= i <= j <= |s| && s[i..j] == Digits(n, base) && !IsNumber(At(s, j), base)
    ensures (forall k :: start <= k < i ==> s[k] == '0') && At(s, i) !in {'0', 'x'}
  {
    var num := if n == 0 then "0" else Digits(n, base);
    BodyParts(s, start, zeros, num, trail);
    i, j := start + zeros, start + zeros + |num|;
    if n == 0 {
      assert s[i] == s[i..j][0];
      i := j;
    } else {
      FirstDigitAt(s, i, j, n, base);
    }
  }

  lemma FirstDigitAt(s: string, i: nat, j: nat, n: nat, base: int)
    requires 2 <= base <= 16 && n > 0 && i <= j <= |s| && s[i..j] == Digits(n, base)
    ensures At(s, i) !in {'0', 'x', '-', '+', ' '}
  {
    DigitsShape(s[i..j], n, base);
    assert s[i] == s[i..j][0];
  }

  /** Reading past a prefix of printed text: zeros are skipped, then the digits are read. */
  lemma BodyRead(s: string, start: nat, zeros: nat, n: nat, base: int, trail: nat, signed: bool)
    returns (i: nat, j: nat)
    requires 2 <= base <= 16 && n <= ULONG_MAX && (signed ==> n <= INT_MAX + 1)
    requires start <= |s|
    requires s[start..] == Repeat('0', zeros) + (if n == 0 then "0" else Digits(n, base)) + Repeat(' ', trail)
    ensures i == SkipZeros(s, start) && At(s, i) != 'x' && j == RunEnd(s, i, base) && !IsNumber(At(s, j), base)
    ensures Converted(s, i, base, signed) == if signed && n == INT_MAX + 1 then INT_MAX else n
  {
    i, j := BodyPlaces(s, start, zeros, n, base, trail);
    SkipsTo(s, start, i);
    if signed && n == INT_MAX + 1 {
      ConvertedMin(s, i, j, base);
    } else {
      ConvertedIs(s, i, j, n, base, signed);
    }
  }

  /** Text that starts with anything but a digit, a sign or an x reads as 0. */
  lemma ReadsNothing(s: string, base: int, signed: bool)
    requires 2 <= base <= 16 && |s| > 0 && (s[0] == ' ' || (!signed && s[0] == '+'))
    ensures signed ==> StrtoiValue(s, base) == 0
    ensures !signed ==> StrtouValue(s, base) == 0
  {
  }

  lemma PrintedParts(v: int, base: int, width: int, flag: Flags, s: string)
    requires Fits(v) && 2 <= AbsBase(base) <= 16 && s == Printed(v, base, width, flag)
    ensures Indent(v, base, width, flag) > 0 ==> |s| > 0 && s[0] == ' '
    ensures Indent(v, base, width, flag) == 0 ==>
              var sign := SignText(v, base, flag);
              && |sign| <= |s| && s[..|sign|] == sign
              && s[|sign|..] == Repeat('0', Zeros(v, base, width, flag)) + Numeral(v, base)
                                + Repeat(' ', Trail(v, base, width, flag))
  {
    var sign, z, num, trail := SignText(v, base, flag), Repeat('0', Zeros(v, base, width, flag)),
      Numeral(v, base), Repeat(' ', Trail(v, base, width, flag));
    var indent := Repeat(' ', Indent(v, base, width, flag));
    FiveParts(indent, sign, z, num, trail, s);
  }

  lemma FiveParts(indent: string, sign: string, z: string, num: string, trail: string, s: string)
    requires s == indent + sign + z + num + trail
    ensures indent != "" ==> |s| > 0 && s[0] == indent[0]
    ensures indent == "" ==> |sign| <= |s| && s[..|sign|] == sign && s[|sign|..] == z + num + trail
  {
  }

  /** Printing and reading back an unsigned number. */
  lemma UnsignedRoundTrip(v: int, base: int, width: int, flag: Flags)
    requires Fits(v) && 2 <= base <= 16
    ensures StrtouValue(Printed(v, base, width, flag), base) == v <==>
            v == 0 || (!flag.addPlus && Indent(v, base, width, flag) == 0)
  {
    var s := Printed(v, base, width, flag);
    PrintedParts(v, base, width, flag, s);
    if Indent(v, base, width, flag) > 0 || flag.addPlus {
      ReadsNothing(s, base, false);
    } else {
      assert s[0..] == s;
      var i, j := BodyRead(s, 0, Zeros(v, base, width, flag), v, base, Trail(v, base, width, flag), false);
    }
  }

  function Signed(v: int): int
    requires Fits(v)
  {
    if v > INT_MAX then v - ULONG_MAX - 1 else v
  }

  /** Printing and reading back a signed number: only the least one is lost. */
  lemma SignedRoundTrip(v: int, base: int, width: int, flag: Flags)
    requires Fits(v) && 2 <= base <= 16
    ensures StrtoiValue(Printed(v, 0 - base, width, flag), base) == Signed(v) <==>
            v == 0 || (Signed(v) != 0 - INT_MAX - 1 && Indent(v, 0 - base, width, flag) == 0)
  {
    var s, sign := Printed(v, 0 - base, width, flag), SignText(v, 0 - base, flag);
    PrintedParts(v, 0 - base, width, flag, s);
    if Indent(v, 0 - base, width, flag) > 0 {
      ReadsNothing(s, base, true);
    } else {
      var zeros, trail := Zeros(v, 0 - base, width, flag), Trail(v, 0 - base, width, flag);
      var i, j := BodyRead(s, |sign|, zeros, Magnitude(v, 0 - base), base, trail, true);
      FirstChar(s, sign);
    }
  }

  /** A 5 in three columns is printed after two spaces and does not read back, nor does one
      with a plus sign, nor the least number printed with a sign. */
  lemma NotReadBack()
    ensures StrtouValue(Printed(5, 10, 3, Flags(false, true, false, false)), 10) != 5
    ensures StrtouValue(Printed(5, 10, 0, Flags(true, false, false, false)), 10) != 5
    ensures StrtoiValue(Printed(0x8000_0000, -10, 0, Flags(false, false, false, false)), 10) != Signed(0x8000_0000)
  {
    assert Digits(5, 10) == ['5'];
    UnsignedRoundTrip(5, 10, 3, Flags(false, true, false, false));
    UnsignedRoundTrip(5, 10, 0, Flags(true, false, false, false));
    SignedRoundTrip(0x8000_0000, 10, 0, Flags(false, false, false, false));
  }

  lemma FirstChar(s: string, sign: string)
    requires |sign| <= |s| && s[..|sign|] == sign
    ensures sign != "" ==> s[0] == sign[0]
  {
    assert sign != "" ==> s[..|sign|][0] == s[0];
  }

  // ----- the reading loops

  /** Skipping leading zeros. */
  method PastZeros(s: string, i: nat) returns (k: nat)
    requires i <= |s|
    ensures k == SkipZeros(s, i)
  {
    k := i;
    while At(s, k) == '0'
      invariant i <= k <= |s| && SkipZeros(s, i) == SkipZeros(s, k)
      decreases |s| - k
    {
      k := k + 1;
    }
  }

  lemma AccNext(s: string, i: nat, j: nat, base: int, signed: bool, old_: int, flag: bool, value: int,
                result: int, flag': bool)
    requires i < j <= |s| && (old_, flag) == Acc(s, i, j - 1, base, signed) && value == ToNumber(s[j - 1])
    requires result == Wrap(Wrap(old_ * base, signed) + value, signed) && flag' == (flag || old_ > result)
    ensures (result, flag') == Acc(s, i, j, base, signed)
  {
  }

  /** The conversion loop; rejected is the early return of 0. */
  method Convert(s: string, i: nat, base: int, signed: bool) returns (result: int, end: nat, rejected: bool)
    requires i <= |s| && 1 <= base <= 16
    ensures end == RunEnd(s, i, base) && rejected == Refused(s, i, base)
    ensures !rejected ==> result == Converted(s, i, base, signed)
  {
    var overflow := false;
    result, end := 0, i;
    while IsNumber(At(s, end), base)
      invariant i <= end <= |s| && RunEnd(s, i, base) == RunEnd(s, end, base)
      invariant (result, overflow) == Acc(s, i, end, base, signed)
      decreases |s| - end
    {
      var value := ToNumber(At(s, end));
      if value > base || value < 0 {
        return 0, end, true;
      }
      end := end + 1;
      var oldResult, oldFlag := result, overflow;
      result := Wrap(result * base, signed);
      result := Wrap(result + value, signed);
      if oldResult > result {
        overflow := true;
      }
      AccNext(s, i, end, base, signed, oldResult, oldFlag, value, result, overflow);
    }
    rejected := false;
    if overflow {
      result := INT_MAX;
    }
  }

  /** end is what *scan_end gets; an early return leaves that pointer alone. */
  method Strtou(s: string, base: int) returns (result: int, end: nat, rejected: bool)
    requires 1 <= base <= 16
    ensures result == StrtouValue(s, base) && rejected == Refused(s, StrtouStart(s, base), base)
    ensures end == RunEnd(s, StrtouStart(s, base), base)
  {
    var k := PastZeros(s, 0);
    if At(s, k) == 'x' && base == 16 {
      k := PastZeros(s, k + 1);
    }
    result, end, rejected := Convert(s, k, base, false);
    if rejected {
      result := 0;
    }
  }

  method Strtoi(s: string, base: int) returns (result: int, end: nat, rejected: bool)
    requires 1 <= base <= 16
    ensures result == StrtoiValue(s, base) && rejected == Refused(s, StrtoiStart(s), base)
    ensures end == RunEnd(s, StrtoiStart(s), base)
  {
    var sign, k := 1, 0;
    if At(s, 0) == '-' {
      sign, k := -1, 1;
    } else if At(s, 0) == '+' {
      k := 1;
    }
    k := PastZeros(s, k);
    result, end, rejected := Convert(s, k, base, true);
    if rejected {
      return 0, end, true;
    }
    result := Wrap(if sign == 1 then result else 0 - result, true);
  }

  // ----- the printing loops

  function Reversed(t: seq<char>): string {
    if t == [] then "" else [t[|t| - 1]] + Reversed(t[..|t| - 1])
  }

  /** The buffer has been filled with t from its start; the rest is as it was. */
  predicate Written(before: seq<char>, now: seq<char>, t: string) {
    |t| <= |now| == |before| && now[..|t|] == t && now[|t|..] == before[|t|..]
  }

  lemma WrittenOne(before: seq<char>, mid: seq<char>, now: seq<char>, t: string, c: char)
    requires Written(before, mid, t) && |t| < |mid| && now == mid[|t| := c]
    ensures Written(before, now, t + [c])
  {
    assert now[|t| + 1..] == mid[|t|..][1..];
    assert before[|t| + 1..] == before[|t|..][1..];
  }

  lemma DigitLoopStep(v: nat, base: int, q: nat, d: nat, done: seq<char>, more: seq<char>)
    requires 2 <= base <= 16 && v > 0 && q == v / base && d == v % base && more == done + [ToDigit(d)]
    ensures Digits(v, base) + Reversed(done) == Digits(q, base) + Reversed(more)
    ensures |Digits(v, base)| == |Digits(q, base)| + 1
  {
    assert more[..|more| - 1] == done;
    assert Reversed(more) == [ToDigit(d)] + Reversed(done);
  }

  /** The digit loop: least significant first into tmp, which never overflows. */
  method DigitLoop(absV: nat, absBase: int, tmp: array<char>) returns (i: nat)
    requires 2 <= absBase <= 16 && |Digits(absV, absBase)| <= tmp.Length
    modifies tmp
    ensures i <= tmp.Length && Reversed(tmp[..i]) == Digits(absV, absBase)
  {
    var v: nat := absV;
    i := 0;
    while v > 0
      invariant i + |Digits(v, absBase)| == |Digits(absV, absBase)|
      invariant Digits(absV, absBase) == Digits(v, absBase) + Reversed(tmp[..i])
    {
      ghost var done := tmp[..i];
      var q, d := v / absBase, v % absBase;
      DivideStep(v, absBase, q, d);
      DigitLoopStep(v, absBase, q, d, done, done + [ToDigit(d)]);
      tmp[i] := ToDigit(d);
      assert tmp[..i + 1] == done + [ToDigit(d)];
      v := q;
      i := i + 1;
    }
  }

  /** One padding loop: c is written until the text is as wide as wanted. */
  method Pad(buffer: array<char>, at: nat, c: char, ret: nat, width: int, ghost before: seq<char>, ghost sofar: string)
    returns (count: nat)
    requires at == |sofar| && Written(before, buffer[..], sofar) && at + Fill(width, ret) <= buffer.Length
    modifies buffer
    ensures count == Fill(width, ret) && Written(before, buffer[..], sofar + Repeat(c, count))
  {
    count := 0;
    assert sofar + Repeat(c, 0) == sofar;
    while ret + count < width
      invariant count <= Fill(width, ret) && Written(before, buffer[..], sofar + Repeat(c, count))
      decreases width - count
    {
      ghost var mid, t := buffer[..], sofar + Repeat(c, count);
      buffer[at + count] := c;
      WrittenOne(before, mid, buffer[..], t, c);
      count := count + 1;
      assert t + [c] == sofar + Repeat(c, count);
    }
  }

  /** The digits copied out of the temporary, the last one found first. */
  method CopyBack(buffer: array<char>, at: nat, tmp: array<char>, i: nat, ghost before: seq<char>, ghost sofar: string)
    requires buffer != tmp && i <= tmp.Length && at + i <= buffer.Length
    requires at == |sofar| && Written(before, buffer[..], sofar)
    modifies buffer
    ensures Written(before, buffer[..], sofar + Reversed(tmp[..i]))
    ensures |Reversed(tmp[..i])| == i
  {
    var j := i;
    ghost var t := sofar;
    while j > 0
      invariant 0 <= j <= i && |t| == at + (i - j) && Written(before, buffer[..], t)
      invariant sofar + Reversed(tmp[..i]) == t + Reversed(tmp[..j])
      invariant |Reversed(tmp[..i])| == |t| - at + |Reversed(tmp[..j])|
    {
      j := j - 1;
      ghost var mid := buffer[..];
      buffer[at + (i - 1 - j)] := tmp[j];
      WrittenOne(before, mid, buffer[..], t, tmp[j]);
      assert tmp[..j + 1][..j] == tmp[..j];
      t := t + [tmp[j]];
    }
  }

  /** One character written and the buffer pointer moved on. */
  method Put(buffer: array<char>, at: nat, c: char, ghost before: seq<char>, ghost sofar: string)
    requires at == |sofar| < buffer.Length && Written(before, buffer[..], sofar)
    modifies buffer
    ensures Written(before, buffer[..], sofar + [c])
  {
    ghost var mid := buffer[..];
    buffer[at] := c;
    WrittenOne(before, mid, buffer[..], sofar, c);
  }

  /** The digits of v, in tmp with the least significant first. */
  method Extract(v: int, base: int, tmp: array<char>) returns (i: nat)
    requires Fits(v) && 2 <= AbsBase(base) <= 16 && tmp.Length == TMP_SIZE
    requires |Digits(Magnitude(v, base), AbsBase(base))| <= TMP_SIZE
    modifies tmp
    ensures i <= tmp.Length && Reversed(tmp[..i]) == Numeral(v, base)
  {
    var absBase := AbsBase(base);
    var absV := Magnitude(v, base);
    if v == 0 {
      tmp[0] := '0';
      assert tmp[..1] == ['0'];
      i := 1;
    } else {
      i := DigitLoop(absV, absBase, tmp);
    }
  }

  /** Everything ucvt writes in front of the digits. */
  method Front(v: int, buffer: array<char>, base: int, width: int, f: Flags, ret: nat) returns (at: nat, total: nat)
    requires Fits(v) && 2 <= AbsBase(base) <= 16 && ret == |SignText(v, base, f)| + |Numeral(v, base)|
    requires var flag := f.(leftPad := !f.leftPad);
             Indent(v, base, width, flag) + Zeros(v, base, width, flag) + ret <= buffer.Length
    modifies buffer
    ensures var flag := f.(leftPad := !f.leftPad);
            var t := Repeat(' ', Indent(v, base, width, flag)) + SignText(v, base, flag)
                     + Repeat('0', Zeros(v, base, width, flag));
            at == |t| && total == at + |Numeral(v, base)| && Written(old(buffer[..]), buffer[..], t)
  {
    ghost var before, t := buffer[..], "";
    ghost var flag := f.(leftPad := !f.leftPad);
    at, total := 0, ret;
    if f.leftPad && f.spacePad {
      at := Pad(buffer, at, ' ', total, width, before, t);
      total := total + at;
    }
    t := Repeat(' ', Indent(v, base, width, flag));
    assert "" + t == t;
    if base < 0 && v > INT_MAX {
      Put(buffer, at, '-', before, t);
      at := at + 1;
    } else if f.addPlus {
      Put(buffer, at, '+', before, t);
      at := at + 1;
    }
    assert SignText(v, base, flag) == "" ==> t + SignText(v, base, flag) == t;
    t := t + SignText(v, base, flag);
    if f.leftPad && f.zeroPad {
      var n := Pad(buffer, at, '0', total, width, before, t);
      at, total := at + n, total + n;
    } else {
      assert t + Repeat('0', 0) == t;
    }
  }

  /** The buffer gets the printed text and a terminator; the result is the written length. */
  method Ucvt(v: int, buffer: array<char>, base: int, width: int, flag: Flags) returns (ret: nat)
    requires Fits(v) && 2 <= AbsBase(base) <= 16 && |Digits(Magnitude(v, base), AbsBase(base))| <= TMP_SIZE
    requires |Printed(v, base, width, flag)| < buffer.Length
    modifies buffer
    ensures ret == |Printed(v, base, width, flag)|
    ensures Written(old(buffer[..]), buffer[..], Printed(v, base, width, flag) + ['\0'])
  {
    ghost var before := buffer[..];
    var f := flag.(leftPad := !flag.leftPad);
    var tmp := new char[TMP_SIZE];
    ret := if f.addPlus || (base < 0 && v > INT_MAX) then 1 else 0;
    var i := Extract(v, base, tmp);
    ReversedLength(tmp[..i]);
    ret := ret + i;
    var at;
    at, ret := Front(v, buffer, base, width, f, ret);
    ghost var t := Repeat(' ', Indent(v, base, width, flag)) + SignText(v, base, flag)
                   + Repeat('0', Zeros(v, base, width, flag));
    CopyBack(buffer, at, tmp, i, before, t);
    t := t + Numeral(v, base);
    at := at + i;
    if f.spacePad && !f.leftPad {
      var n := Pad(buffer, at, ' ', ret, width, before, t);
      at, ret := at + n, ret + n;
    } else {
      assert t + Repeat(' ', 0) == t;
    }
    Put(buffer, at, '\0', before, Printed(v, base, width, flag));
  }

  lemma {:induction false} ReversedLength(t: seq<char>)
    ensures |Reversed(t)| == |t|
    decreases |t|
  {
    if t != [] {
      ReversedLength(t[..|t| - 1]);
    }
  }

  lemma SignedWrap(v: int)
    requires 0 - INT_MAX - 1 <= v <= INT_MAX
    ensures var w := Wrap(v, false); Signed(w) == v && (w > INT_MAX <==> v < 0) && (v < 0 ==> w == v + ULONG_MAX + 1)
  {
  }

  method Dcvt(v: int, buffer: array<char>, base: int, width: int, flag: Flags) returns (ret: nat)
    requires 0 - INT_MAX - 1 <= v <= INT_MAX && 2 <= base <= 16
    requires |Digits(if v < 0 then 0 - v else v, base)| <= TMP_SIZE
    requires |Printed(Wrap(v, false), 0 - base, width, flag)| < buffer.Length
    modifies buffer
    ensures Signed(Wrap(v, false)) == v && ret == |Printed(Wrap(v, false), 0 - base, width, flag)|
    ensures Written(old(buffer[..]), buffer[..], Printed(Wrap(v, false), 0 - base, width, flag) + ['\0'])
  {
    SignedWrap(v);
    ret := Ucvt(Wrap(v, false), buffer, 0 - base, width, flag);
  }
}

/** Powers of two and 32-bit words, shared by the models of the C routines.
    A word is the unsigned value of a 32-bit cell; a signed cell is compared and
    shifted through its bit pattern. */
module Bits {

  const W: int := 0x1_0000_0000

  type word = x: int | 0 <= x < 0x1_0000_0000

  function Pow2(n: nat): (r: nat)
    ensures r >= 1
  {
    if n == 0 then 1 else 2 * Pow2(n - 1)
  }

  lemma {:induction false} Pow2Add(m: nat, n: nat)
    ensures Pow2(m + n) == Pow2(m) * Pow2(n)
  {
    if m == 0 {
    } else {
      Pow2Add(m - 1, n);
      var a, b := Pow2(m - 1), Pow2(n);
      assert 2 * (a * b) == (2 * a) * b;
    }
  }

  lemma {:induction false} Pow2Monotone(m: nat, n: nat)
    requires m <= n
    ensures Pow2(m) <= Pow2(n)
  {
    if m < n {
      Pow2Monotone(m, n - 1);
    }
  }

  /** m doubled n times, that is m * 2^n. */
  function Scaled(m: nat, n: nat): (r: nat)
    ensures m > 0 ==> r > 0
  {
    if n == 0 then m else 2 * Scaled(m, n - 1)
  }

  lemma {:induction false} ScaledIsShift(m: nat, n: nat)
    ensures Scaled(m, n) == m * Pow2(n)
  {
    if n > 0 {
      ScaledIsShift(m, n - 1);
      MulAssoc(m, Pow2(n - 1), 2);
    }
  }

  lemma Distribute(a: int, b: int, c: int)
    ensures (a + b) * c == a * c + b * c
  {
  }

  lemma MulAssoc(a: int, b: int, c: int)
    ensures (a * b) * c == a * (b * c)
  {
  }

  /** `hi | lo` for operands with no bit in common: the precondition is what
      makes the C `|` an addition. */
  function Or(hi: nat, lo: nat, k: nat): (r: nat)
    requires hi % Pow2(k) == 0 && lo < Pow2(k)
    ensures r == hi + lo
  {
    hi + lo
  }

  /** The C `x << n` on an unsigned 32-bit cell. */
  function Shl(x: word, n: nat): word
    requires n < 32
  {
    (x * Pow2(n)) % W
  }

  /** The C `x >> n` on an unsigned (or non-negative) 32-bit cell. */
  function Shr(x: word, n: nat): (r: word)
    requires n < 32
  {
    ShrBound(x, n);
    x / Pow2(n)
  }

  lemma ShrBound(x: word, n: nat)
    ensures 0 <= x / Pow2(n) <= x
  {
    DivBound(x, Pow2(n));
  }

  lemma MulMono(a: int, b: int, c: nat)
    requires a <= b
    ensures a * c <= b * c
  {
    assert (b - a) * c >= 0;
  }

  lemma DivBound(x: nat, p: int)
    requires p >= 1
    ensures 0 <= x / p <= x && (x / p) * p + x % p == x
  {
    var q := x / p;
    assert x == q * p + x % p;
    if q < 0 {
      MulMono(q, -1, p);
    } else {
      MulMono(1, p, q);
    }
  }

  /** Euclidean division is determined by its quotient and remainder. */
  lemma DivModUnique(a: int, b: int, q: int, r: int)
    requires 0 <= r < b && a == q * b + r
    ensures a / b == q && a % b == r
  {
    var d, e := a / b, a % b;
    assert a == d * b + e;
    assert d >= q + 1 ==> d * b >= (q + 1) * b == q * b + b by {
      if d >= q + 1 { MulMono(q + 1, d, b); }
    }
    assert d + 1 <= q ==> d * b + b == (d + 1) * b <= q * b by {
      if d + 1 <= q { MulMono(d + 1, q, b); }
    }
  }

  lemma MulLt(a: int, b: int, c: nat)
    requires a * c < b * c
    ensures a < b
  {
    assert b <= a ==> b * c <= a * c by {
      if b <= a { MulMono(b, a, c); }
    }
  }

  lemma MulCancel(a: int, b: int, c: int)
    requires c > 0 && a * c == b * c
    ensures a == b
  {
    DivModUnique(a * c, c, a, 0);
    DivModUnique(b * c, c, b, 0);
  }

  /** Shifting a low word left by n moves its top n bits into the high word. */
  lemma ShiftSplit(lo: word, n: nat)
    requires 1 <= n <= 31
    ensures Shr(lo, 32 - n) < Pow2(n)
    ensures lo * Pow2(n) == Shr(lo, 32 - n) * W + Shl(lo, n)
    ensures Shl(lo, n) % Pow2(n) == 0
  {
    var p, c := Pow2(n), Pow2(32 - n);
    WordSplit(n);
    SplitProduct(lo, p, c);
  }

  lemma WordSplit(n: nat)
    requires n <= 32
    ensures Pow2(n) * Pow2(32 - n) == W
  {
    Pow2Constants();
    Pow2Add(n, 32 - n);
  }

  /** The division of C, which truncates toward zero, and its remainder. */
  function Quotient(x: int, y: int): int
    requires y > 0
  {
    if x >= 0 then x / y else 0 - (0 - x) / y
  }

  function Remainder(x: int, y: int): int
    requires y > 0
  {
    x - Quotient(x, y) * y
  }

  lemma Pow2Constants()
    ensures Pow2(20) == 0x10_0000 && Pow2(32) == W && Pow2(52) == 0x10_0000_0000_0000
  {
    assert Pow2(4) == 16;
    Pow2Add(4, 4);
    Pow2Add(8, 8);
    Pow2Add(16, 16);
    Pow2Add(16, 4);
    Pow2Add(20, 32);
  }

  lemma SplitProduct(lo: nat, p: int, c: int)
    requires p >= 1 && c >= 1 && p * c == W && lo < W
    ensures lo / c < p
    ensures (lo * p) % W == (lo % c) * p && (lo * p) / W == lo / c
    ensures lo * p == (lo / c) * W + (lo * p) % W
    ensures ((lo * p) % W) % p == 0
  {
    var q, r := lo / c, lo % c;
    DivBound(lo, c);
    assert lo * p == q * W + r * p by {
      Distribute(q * c, r, p);
      MulAssoc(q, c, p);
    }
    assert r * p < W by { MulMono(r, c - 1, p); }
    DivModUnique(lo * p, W, q, r * p);
    DivModUnique(r * p, p, r, 0);
    MulLt(q, p, c);
  }
}

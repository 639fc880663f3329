/** __generic___ieee754_remainder (external/oslib/libm/msun/src/e_remain.c). The
    float operations of the source are exact here: each demands that its
    mathematical result is representable, so that rounding returns it. */
module Remainder {
  import opened Bits
  import opened Doubles
  import opened Mantissa
  import F = Fmod

  function Abs(v: int): nat { if v < 0 then 0 - v else v }

  // ----- representable magnitudes

  /** u units are the magnitude of some finite double. */
  ghost predicate Representable(u: nat) {
    exists m: nat, e: nat :: m < 2 * HIDDEN && e <= 2045 && u == Scaled(m, e)
  }

  lemma FiniteIsRepresentable(d: Double)
    requires d.Finite()
    ensures Representable(d.Units())
  {
    var h := d.High();
    if h < 0x10_0000 {
      assert Scaled(h * W + d.lo, 0) == d.Units();
    } else {
      assert Scaled(HIDDEN + Fraction(h, d.lo), h / 0x10_0000 - 1) == d.Units();
    }
  }

  /** Mantissa and exponent of a magnitude. */
  function Split(u: nat): (r: (nat, nat))
    ensures r.0 < 2 * HIDDEN
    ensures r.1 > 0 ==> r.0 >= HIDDEN
  {
    if u < 2 * HIDDEN then (u, 0) else var s := Split(u / 2); (s.0, s.1 + 1)
  }

  lemma {:induction false} SplitScaled(m: nat, e: nat)
    requires m < 2 * HIDDEN
    ensures var s := Split(Scaled(m, e)); Scaled(s.0, s.1) == Scaled(m, e) && s.1 <= e
  {
    if e > 0 && Scaled(m, e) >= 2 * HIDDEN {
      SplitScaled(m, e - 1);
    }
  }

  /** The double of a given value; zero is +0. */
  function FromValue(v: int): (d: Double)
    requires Representable(Abs(v))
    ensures d.Finite() && d.Value() == v && d.Negative() == (v < 0)
  {
    var s := Split(Abs(v));
    assert Scaled(s.0, s.1) == Abs(v) && s.1 <= 2045 by {
      var m: nat, e: nat :| m < 2 * HIDDEN && e <= 2045 && Abs(v) == Scaled(m, e);
      SplitScaled(m, e);
    }
    var h := if s.0 < HIDDEN then s.0 / W else s.0 / W + s.1 * 0x10_0000;
    assert UnitsOf(h, s.0 % W) == Abs(v);
    Double(if v < 0 then h + 0x8000_0000 else h, s.0 % W)
  }

  lemma {:induction false} ScaledInTwoSteps(m: nat, e: nat, e': nat)
    requires e <= e'
    ensures Scaled(Scaled(m, e' - e), e) == Scaled(m, e')
  {
    if e > 0 {
      ScaledInTwoSteps(m, e - 1, e' - 1);
    }
  }

  lemma {:induction false} ScaledDifference(m: nat, m': nat, e: nat)
    ensures Scaled(m, e) - Scaled(m', e) == if m >= m' then Scaled(m - m', e) else 0 - Scaled(m' - m, e)
  {
    if e > 0 {
      ScaledDifference(m, m', e - 1);
    }
  }

  /** Sterbenz: a difference of representable values within a factor of two is
      representable, hence computed without rounding. */
  lemma Sterbenz(a: nat, b: nat)
    requires Representable(a) && Representable(b)
    requires a <= 2 * b && b <= 2 * a
    ensures Representable(Abs(a - b))
  {
    var m: nat, e: nat :| m < 2 * HIDDEN && e <= 2045 && a == Scaled(m, e);
    var m': nat, e': nat :| m' < 2 * HIDDEN && e' <= 2045 && b == Scaled(m', e');
    if e <= e' {
      SterbenzAligned(m, e, m', e');
    } else {
      SterbenzAligned(m', e', m, e);
    }
  }

  lemma SterbenzAligned(m: nat, e: nat, m': nat, e': nat)
    requires m < 2 * HIDDEN && e <= e' <= 2045
    requires Scaled(m', e') <= 2 * Scaled(m, e)
    ensures Representable(Abs(Scaled(m, e) - Scaled(m', e')))
  {
    var k := Scaled(m', e' - e);
    ScaledInTwoSteps(m', e, e');
    AlignedDifference(m, k, e);
  }

  lemma AlignedDifference(m: nat, k: nat, e: nat)
    requires m < 2 * HIDDEN && e <= 2045
    requires Scaled(k, e) <= 2 * Scaled(m, e)
    ensures Representable(Abs(Scaled(m, e) - Scaled(k, e)))
  {
    ScaledDifference(m, k, e);
    if m >= k {
      ScaledMonotone(k, m, e);
      assert Abs(Scaled(m, e) - Scaled(k, e)) == Scaled(m - k, e);
    } else {
      ScaledMonotone(m, k, e);
      ScaledMonotone(m, k - m, e);
      assert Abs(Scaled(m, e) - Scaled(k, e)) == Scaled(k - m, e);
    }
  }

  lemma DoubledRepresentable(d: Double)
    requires d.High() <= 0x7fdf_ffff
    ensures Representable(2 * d.Units())
  {
    var h := d.High();
    if h < 0x10_0000 {
      assert Scaled(h * W + d.lo, 1) == 2 * d.Units();
    } else {
      assert Scaled(HIDDEN + Fraction(h, d.lo), h / 0x10_0000) == 2 * d.Units();
    }
  }

  /** From 2^-1021 up, halving is exact too. */
  lemma HalvedRepresentable(d: Double)
    requires d.Finite() && d.High() >= 0x20_0000
    ensures d.Units() % 2 == 0 && Representable(d.Units() / 2)
  {
    var h := d.High();
    assert Scaled(HIDDEN + Fraction(h, d.lo), h / 0x10_0000 - 2) == d.Units() / 2;
  }

  // ----- exact float operations

  function Add(a: Double, b: Double): Double
    requires a.Finite() && b.Finite() && Representable(Abs(a.Value() + b.Value()))
  {
    FromValue(a.Value() + b.Value())
  }

  function Subtract(a: Double, b: Double): Double
    requires a.Finite() && b.Finite() && Representable(Abs(a.Value() - b.Value()))
  {
    FromValue(a.Value() - b.Value())
  }

  function Half(p: Double): (r: Double)
    requires p.Finite() ==> p.Units() % 2 == 0 && Representable(p.Units() / 2)
  {
    if p.Finite() then
      assert Abs(p.Value() / 2) == p.Units() / 2;
      FromValue(p.Value() / 2)
    else p
  }

  function FloatAbs(d: Double): (r: Double)
    ensures !r.Negative() && r.High() == d.High() && r.lo == d.lo
    ensures r.Units() == d.Units() && r.Value() == d.Units()
  {
    Double(d.High(), d.lo)
  }

  /** a > b for a finite a and a b that is finite or +infinity. */
  predicate Greater(a: Double, b: Double)
    requires a.Finite() && (b.Finite() || (b.Infinite() && !b.Negative()))
  {
    b.Finite() && a.Value() > b.Value()
  }

  // ----- the specification

  /** t is what is left of x after subtracting n times p, for the n nearest x/p:
      at most half of p, and n even when it is exactly half. */
  predicate NearestRest(x: int, p: int, n: int, t: int) {
    x - n * p == t && Balanced(t, p, n)
  }

  predicate Balanced(t: int, p: int, n: int) {
    2 * Abs(t) <= Abs(p) && (2 * Abs(t) == Abs(p) ==> n % 2 == 0)
  }

  /** No other multiple of p is closer to x, and n is the only count that meets the
      specification: it determines the result. */
  lemma NearestIsClosest(x: int, p: int, n: int, t: int, m: int)
    requires p != 0 && NearestRest(x, p, n, t)
    ensures Abs(t) <= Abs(x - m * p)
    ensures forall t' :: NearestRest(x, p, m, t') ==> m == n && t' == t
  {
    assert x - m * p == t - (m - n) * p by { Distribute(n, m - n, p); }
    Steps(m - n, p);
  }

  lemma Steps(d: int, p: int)
    ensures d >= 2 || d <= -2 ==> Abs(d * p) >= 2 * Abs(p)
    ensures d == 0 ==> d * p == 0
    ensures d == 1 ==> d * p == p
    ensures d == -1 ==> d * p == -p
  {
    if d >= 2 {
      StepsUp(d, p);
    } else if d <= -2 {
      StepsUp(-d, p);
      Negate(d, p);
    }
  }

  lemma StepsUp(d: int, p: int)
    requires d >= 2
    ensures Abs(d * p) >= 2 * Abs(p)
  {
    Negate(d, p);
    MulMono(2, d, Abs(p));
  }

  lemma Negate(m: int, p: int)
    ensures (-m) * p == -(m * p) && m * (-p) == -(m * p)
  {
  }

  // ----- the function

  /** x reduced below 2p, still with the sign of x. */
  method ReduceBelowTwice(x: Double, p: Double) returns (x': Double)
    requires x.Finite() && !p.IsNaN() && !p.IsZero()
    ensures x'.Finite() && x'.Negative() == x.Negative()
    ensures p.Finite() ==> p.Units() > 0 && x'.Units() == x.Units() % (2 * p.Units())
    ensures p.Infinite() ==> x' == x
  {
    if p.High() <= 0x7fdf_ffff {
      DoubledRepresentable(p);
      assert Abs(p.Value() + p.Value()) == 2 * p.Units();
      var r := F.Fmod(x, Add(p, p));
      x' := r.d;
    } else {
      x' := x;
      if p.Finite() {
        TopBinade(x, p);
        DivModUnique(x.Units(), 2 * p.Units(), 0, x.Units());
      }
    }
  }

  lemma TopBinade(x: Double, p: Double)
    requires x.Finite() && p.Finite() && p.High() > 0x7fdf_ffff
    ensures x.Units() < 2 * p.Units()
  {
    var m := HIDDEN + Fraction(p.High(), p.lo);
    var h := x.High();
    if h < 0x10_0000 {
      GrowsFrom(m, 2045);
    } else {
      ScaledBelow(HIDDEN + Fraction(h, x.lo), m, h / 0x10_0000 - 1, 2046);
      assert p.Units() == Scaled(m, 2045);
    }
  }

  /** The last steps, on 0 <= x < 2p: subtract p once or twice so that the rest is
      nearest to zero, ties keeping an even count. Here for p below 2^-1021, where
      x is doubled rather than p halved. */
  method CentreSmall(x0: Double, p: Double) returns (x: Double, ghost k: nat)
    requires x0.Finite() && !x0.Negative() && !p.Negative() && p.High() < 0x20_0000
    requires x0.Units() < 2 * p.Units()
    ensures x.Finite() && (x.Value() == 0 ==> !x.Negative())
    ensures NearestRest(x0.Units(), p.Units(), k, x.Value())
  {
    CentreCases(x0.Units(), p.Units());
    x, k := x0, 0;
    if Greater(TwiceSmall(x, p), p) {
      x, k := SubtractNear(x, p), 1;
      if !Greater(p, TwiceSmall(x, p)) {
        x, k := SubtractNear(x, p), 2;
      }
    }
  }

  method CentreNormal(x0: Double, p: Double) returns (x: Double, ghost k: nat)
    requires x0.Finite() && !x0.Negative() && !p.Negative() && p.High() >= 0x20_0000
    requires (p.Finite() && x0.Units() < 2 * p.Units()) || p.Infinite()
    ensures x.Finite() && (x.Value() == 0 ==> !x.Negative() || x == x0)
    ensures p.Infinite() ==> x == x0
    ensures p.Finite() ==> NearestRest(x0.Units(), p.Units(), k, x.Value())
  {
    if p.Finite() {
      HalvedRepresentable(p);
      CentreCases(x0.Units(), p.Units());
    }
    x, k := x0, 0;
    var half := Half(p);
    if Greater(x, half) {
      x, k := SubtractNear(x, p), 1;
      if !Greater(half, x) {
        x, k := SubtractNear(x, p), 2;
      }
    }
  }

  lemma CentreCases(x: nat, p: nat)
    requires x < 2 * p
    ensures 2 * x <= p ==> NearestRest(x, p, 0, x)
    ensures p < 2 * x && 2 * (x - p) < p ==> NearestRest(x, p, 1, x - p)
    ensures p <= 2 * (x - p) ==> NearestRest(x, p, 2, x - p - p)
  {
  }

  /** x -= p between p/2 and 2p: exact. */
  function SubtractNear(x: Double, p: Double): (r: Double)
    requires x.Finite() && p.Finite()
    requires x.Value() >= 0 && p.Value() >= 0
    requires p.Value() <= 2 * x.Value() && x.Value() <= 2 * p.Value()
    ensures r.Finite() && r.Value() == x.Value() - p.Value() && r.Negative() == (r.Value() < 0)
  {
    assert Representable(Abs(x.Value() - p.Value())) by {
      FiniteIsRepresentable(x);
      FiniteIsRepresentable(p);
      Sterbenz(x.Units(), p.Units());
    }
    Subtract(x, p)
  }

  /** x+x below the second binade: exact. */
  function TwiceSmall(x: Double, p: Double): (r: Double)
    requires x.Finite() && p.High() < 0x20_0000 && x.Units() < 2 * p.Units()
    ensures p.Finite()
    ensures r.Finite() && r.Value() == 2 * x.Value()
  {
    assert p.Units() < 2 * HIDDEN;
    assert Representable(2 * x.Units()) by {
      TwiceRepresentable(x);
    }
    assert Abs(x.Value() + x.Value()) == 2 * x.Units();
    Add(x, x)
  }

  lemma TwiceRepresentable(x: Double)
    requires x.Finite() && x.Units() < 4 * HIDDEN
    ensures Representable(2 * x.Units())
  {
    if x.High() > 0x7fdf_ffff {
      GrowsFrom(HIDDEN + Fraction(x.High(), x.lo), 2045);
      ScaledBelow(0, HIDDEN, 0, 1);
      BigBinade(HIDDEN + Fraction(x.High(), x.lo), 2045);
    } else {
      DoubledRepresentable(x);
    }
  }

  lemma BigBinade(m: nat, e: nat)
    requires m >= HIDDEN && e >= 2
    ensures Scaled(m, e) >= 4 * HIDDEN
  {
    GrowsFrom(m, e - 1);
  }

  method Remainder(x0: Double, p0: Double) returns (r: F.Result, ghost n: int)
    ensures r.Invalid? <==> p0.IsZero() || !x0.Finite() || p0.IsNaN()
    ensures r.Value? ==> r.d.Finite()
    ensures r.Value? && p0.Infinite() ==> r.d == x0
    ensures r.Value? && p0.Finite() ==> NearestRest(x0.Value(), p0.Value(), n, r.d.Value())
    ensures r.Value? && r.d.IsZero() ==> r.d.Negative() == x0.Negative()
  {
    n := 0;
    var hp, lp := p0.hi % 0x8000_0000, p0.lo;
    var hx, lx := x0.hi % 0x8000_0000, x0.lo;
    if hp == 0 && lp == 0 {
      return F.Invalid, n;
    }
    if hx >= 0x7ff0_0000 || (hp >= 0x7ff0_0000 && (hp != 0x7ff0_0000 || lp != 0)) {
      return F.Invalid, n;
    }
    var x := ReduceBelowTwice(x0, p0);
    if hx == hp && lx == lp {
      n := EqualMagnitudes(x0.Value(), p0.Value());
      return F.Value(Double(if x.Negative() then 0x8000_0000 else 0, 0)), n;
    }
    var d;
    d, n := CentreAndSign(x0, p0, x);
    r := F.Value(d);
  }

  /** fabs of both operands, the final subtractions, and the sign of x0. */
  method CentreAndSign(x0: Double, p: Double, x: Double) returns (d: Double, ghost n: int)
    requires !p.IsNaN() && !p.IsZero() && x.Finite()
    requires p.Finite() ==> p.Units() > 0 && x.Units() == x0.Units() % (2 * p.Units())
    requires p.Infinite() ==> x == x0
    ensures d.Finite() && (d.IsZero() ==> d.Negative() == x0.Negative())
    ensures p.Infinite() ==> d == x0
    ensures p.Finite() ==> NearestRest(x0.Value(), p.Value(), n, d.Value())
  {
    ghost var k;
    n := 0;
    d, k := Centre(FloatAbs(x), FloatAbs(p));
    if p.Finite() {
      n := AssembleQuotient(x0.Value(), x0.Negative(), p.Value(), k, d.Value());
    }
    d := XorSign(d, x0.Negative());
  }

  method Centre(x0: Double, p: Double) returns (x: Double, ghost k: nat)
    requires x0.Finite() && !x0.Negative() && !p.Negative() && (p.Finite() || p.Infinite())
    requires p.Finite() ==> x0.Units() < 2 * p.Units()
    ensures x.Finite() && (x.Value() == 0 ==> !x.Negative())
    ensures p.Infinite() ==> x == x0
    ensures p.Finite() ==> NearestRest(x0.Units(), p.Units(), k, x.Value())
  {
    if p.High() < 0x20_0000 {
      x, k := CentreSmall(x0, p);
    } else {
      x, k := CentreNormal(x0, p);
    }
  }

  /** The high word xor'ed with the sign bit sx. */
  function XorSign(d: Double, sx: bool): (r: Double)
    ensures r.High() == d.High() && r.Units() == d.Units()
    ensures r.Negative() == (d.Negative() != sx)
    ensures r.Value() == if sx then -d.Value() else d.Value()
  {
    if sx then Double(if d.Negative() then d.hi - 0x8000_0000 else d.hi + 0x8000_0000, d.lo) else d
  }

  lemma EqualMagnitudes(x: int, p: int) returns (n: int)
    requires Abs(x) == Abs(p) != 0
    ensures NearestRest(x, p, n, 0)
  {
    n := if x == p then 1 else -1;
    Steps(n, p);
  }

  /** The count for the signed operands, from that for the reduced magnitude. */
  lemma AssembleQuotient(x: int, sx: bool, p: int, k: nat, t: int) returns (n: int)
    requires x == if sx then 0 - Abs(x) else Abs(x)
    requires p != 0 && NearestRest(Abs(x) % (2 * Abs(p)), Abs(p), k, t)
    ensures NearestRest(x, p, n, if sx then -t else t)
  {
    var u: int, v: int := Abs(x), Abs(p);
    var q: int := u / (2 * v);
    WholePeriods(u, v, q, k);
    n := SignedCount(x, sx, p, 2 * q + k, t);
  }

  lemma WholePeriods(x: nat, p: nat, q: int, k: nat)
    requires p > 0 && q == x / (2 * p)
    ensures x - (2 * q + k) * p == x % (2 * p) - k * p
  {
    Distribute(2 * q, k, p);
    MulAssoc(q, 2, p);
    assert x == q * (2 * p) + x % (2 * p);
  }

  lemma SignedCount(x: int, sx: bool, p: int, m: int, t: int) returns (n: int)
    requires x == if sx then 0 - Abs(x) else Abs(x)
    requires t == Abs(x) - m * Abs(p) && Balanced(t, p, m)
    ensures NearestRest(x, p, n, if sx then -t else t)
  {
    n := if sx != (p < 0) then -m else m;
    Negate(m, p);
  }
}

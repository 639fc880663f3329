/** __generic___ieee754_fmod (external/oslib/libm/msun/src/e_fmod.c): shift and
    subtract on two-word mantissas. The specification is the integer remainder
    of the magnitudes. */
module Fmod {
  import opened Bits
  import opened Doubles
  import opened Mantissa

  /** Invalid is the (x*y)/(x*y) exit, whose float result is not modelled. */
  datatype Result = Invalid | Value(d: Double)

  // ----- arithmetic of the stages

  lemma ScaleLow(l: nat, k: nat)
    requires 0x8000_0000 <= l * Pow2(k) < W
    ensures HIDDEN <= l * Pow2(k + 21) < 2 * HIDDEN
  {
    Pow2Constants();
    Pow2Add(k, 21);
    var p := Pow2(k);
    assert l * (p * 0x20_0000) == (l * p) * 0x20_0000;
  }

  lemma ScaleHigh(h: nat, l: word, k: nat)
    requires k <= 20 && 0x8000_0000 <= (h * 0x800) * Pow2(k) < W
    ensures HIDDEN <= (h * W + l) * Pow2(k) < 2 * HIDDEN
  {
    Pow2Constants();
    Pow2Add(k, 21 - k);
    ScaleHighAbstract(h, l, Pow2(k), Pow2(21 - k));
  }

  lemma ScaleHighAbstract(h: nat, l: word, p: nat, q: nat)
    requires p * q == 0x20_0000 && 0x8000_0000 <= (h * 0x800) * p < W
    ensures HIDDEN <= (h * W + l) * p < 2 * HIDDEN
  {
    var hp := h * p;
    assert (h * 0x800) * p == hp * 0x800;
    MulLt(h, q, p);
    MulMono(h * W + l + 1, q * W, p);
    assert q * W * p == (p * q) * W;
    assert (h * W + l) * p == hp * W + l * p;
  }

  lemma ExponentBound(b: nat, k: nat)
    requires b >= 1 && b * Pow2(k) < W
    ensures k < 32
  {
    Pow2Constants();
    if k >= 32 {
      Pow2Monotone(32, k);
      MulMono(1, b, Pow2(k));
    }
  }

  // ----- stages

  /** ix = ilogb(x), the two bit-scan loops. A negative int32 has bit 31 set, so
      `i > 0` is a test on the bit pattern. */
  method LogB(h: word, l: word) returns (e: int)
    requires h < 0x7ff0_0000 && (h != 0 || l != 0)
    ensures h >= 0x10_0000 ==> e == h / 0x10_0000 - 1023
    ensures h < 0x10_0000 ==> -1074 <= e < -1022
    ensures h < 0x10_0000 ==> HIDDEN <= (h * W + l) * Pow2(-1022 - e) < 2 * HIDDEN
  {
    if h >= 0x10_0000 {
      e := h / 0x10_0000 - 1023;
      return;
    }
    var i: word, e0: int;
    if h == 0 {
      e0, i := -1043, l;
    } else {
      e0, i := -1022, h * 0x800;
    }
    ghost var b := i;
    e := e0;
    while 0 < i < 0x8000_0000
      invariant e <= e0 && 0 < i == Scaled(b, e0 - e)
      decreases W - i
    {
      i := 2 * i;
      e := e - 1;
    }
    ScaledIsShift(b, e0 - e);
    ExponentBound(b, e0 - e);
    if h == 0 {
      ScaleLow(l, e0 - e);
    } else {
      SubnormalShift(h, e0 - e);
      ScaleHigh(h, l, e0 - e);
    }
  }

  lemma SubnormalShift(h: nat, k: nat)
    requires 1 <= h < 0x10_0000 && 0x8000_0000 <= (h * 0x800) * Pow2(k) < W
    ensures 1 <= k <= 20
  {
    Pow2Constants();
    if k > 20 {
      Pow2Monotone(21, k);
      MulMono(0x800, h * 0x800, Pow2(k));
    }
  }

  /** Shift the mantissa so that its leading bit is bit 20 of the high word.
      The word pair then holds |x| * 2^52 / 2^ilogb(|x|), in units. */
  method Align(h: word, l: word, e: int) returns (h': word, l': word)
    requires h < 0x7ff0_0000
    requires h >= 0x10_0000 ==> e == h / 0x10_0000 - 1023
    requires h < 0x10_0000 ==> -1074 <= e < -1022
    requires h < 0x10_0000 ==> HIDDEN <= (h * W + l) * Pow2(-1022 - e) < 2 * HIDDEN
    ensures 0x10_0000 <= h' < 0x20_0000
    ensures UnitsOf(h, l) * HIDDEN == (h' * W + l') * Pow2(e + 1074)
  {
    if e >= -1022 {
      Pow2Constants();
      AlignNormal(h, l, e + 1022);
      h', l' := Or(0x10_0000, h % 0x10_0000, 20), l;
    } else {
      var n := -1022 - e;
      assert Pow2(52) == HIDDEN by { Pow2Constants(); }
      AlignSubnormal(h * W + l, n, 52, HIDDEN);
      if n <= 31 {
        ShiftUpSmall(h, l, n);
        h', l' := Or(Shl(h, n), Shr(l, 32 - n), n), Shl(l, n);
      } else {
        ShiftUpLarge(h, l, n);
        h', l' := Shl(l, n - 32), 0;
      }
    }
  }

  lemma AlignNormal(h: word, l: word, e: nat)
    requires 0x10_0000 <= h < 0x7ff0_0000 && e == h / 0x10_0000 - 1
    ensures UnitsOf(h, l) * HIDDEN == ((0x10_0000 + h % 0x10_0000) * W + l) * Pow2(e + 52)
  {
    Pow2Constants();
    Pow2Add(e, 52);
    ScaledIsShift(HIDDEN + Fraction(h, l), e);
    MulAssoc(HIDDEN + Fraction(h, l), Pow2(e), HIDDEN);
  }

  /** Both shapes of the left shift multiply the pair by 2^n. */
  lemma ShiftUpSmall(h: word, l: word, n: nat)
    requires 1 <= n <= 31 && (h * W + l) * Pow2(n) < 2 * HIDDEN
    ensures Shl(h, n) % Pow2(n) == 0 && Shr(l, 32 - n) < Pow2(n)
    ensures (h * W + l) * Pow2(n) == (Shl(h, n) + Shr(l, 32 - n)) * W + Shl(l, n)
  {
    HighFits(h, l, Pow2(n));
    ShiftSplit(l, n);
    DivModUnique(h * Pow2(n), Pow2(n), h, 0);
  }

  lemma ShiftUpLarge(h: word, l: word, n: nat)
    requires 32 <= n <= 52 && (h * W + l) * Pow2(n) < 2 * HIDDEN
    ensures (h * W + l) * Pow2(n) == Shl(l, n - 32) * W
  {
    assert Pow2(n) == Pow2(n - 32) * W by {
      Pow2Constants();
      Pow2Add(n - 32, 32);
    }
    LowOnly(h, l, Pow2(n - 32));
  }

  lemma LowOnly(h: word, l: word, q: int)
    requires q >= 1 && (h * W + l) * (q * W) < 2 * HIDDEN
    ensures (h * W + l) * (q * W) == ((l * q) % W) * W
  {
    var u := (h * W + l) * q;
    assert (h * W + l) * (q * W) == u * W;
    assert u >= h * W + l by { MulMono(1, q, h * W + l); }
    assert h == 0;
  }

  lemma HighFits(h: word, l: word, p: nat)
    requires (h * W + l) * p < 2 * HIDDEN
    ensures (h * W + l) * p == (h * p) * W + l * p
    ensures h * p < 0x20_0000 && (h * p) % W == h * p
  {
  }

  /** hx+hx+(lx>>31) : lx+lx */
  method DoublePair(h: int, l: word) returns (h': int, l': word)
    ensures h' * W + l' == 2 * (h * W + l)
  {
    h', l' := h + h + l / 0x8000_0000, (l + l) % W;
  }

  /** hx-hy : lx-ly with the borrow */
  method SubtractPair(h: int, l: word, h1: int, l1: word) returns (h': int, l': word)
    ensures h' * W + l' == (h * W + l) - (h1 * W + l1)
  {
    h', l' := h - h1, (l - l1) % W;
    if l < l1 { h' := h' - 1; }
  }

  /** The fixed-point loop. The pair is kept below twice the divisor, and a
      multiple of the divisor away from the dividend doubled once per turn. zero
      is the early exit on an exhausted difference. */
  method Reduce(hx0: word, lx0: word, hy: word, ly: word, n0: nat) returns (zero: bool, hx: word, lx: word)
    requires 0x10_0000 <= hx0 < 0x20_0000 && 0x10_0000 <= hy < 0x20_0000
    ensures zero ==> Scaled(hx0 * W + lx0, n0) % (hy * W + ly) == 0
    ensures !zero ==> hx * W + lx == Scaled(hx0 * W + lx0, n0) % (hy * W + ly)
  {
    ghost var m, b, t: nat := hx0 * W + lx0, hy * W + ly, 0;
    var n := n0;
    hx, lx, zero := hx0, lx0, false;
    while n != 0
      invariant 0 <= n <= n0
      invariant hx * W + lx < 2 * b
      invariant Scaled(m, n0 - n) == hx * W + lx + t && Multiple(t, b)
      decreases n
    {
      n := n - 1;
      MultipleStep(t, b);
      var hz, lz := SubtractPair(hx, lx, hy, ly);
      if hz < 0 {
        hx, lx := DoublePair(hx, lx);
        t := 2 * t;
      } else {
        if hz == 0 && lz == 0 {
          ExactMultiple(m, n0 - n - 1, n + 1, b);
          MultipleMod(Scaled(m, n0), b, 0);
          return true, hx, lx;
        }
        hx, lx := DoublePair(hz, lz);
        t := 2 * (t + b);
      }
    }
    MultipleStep(t, b);
    var hz, lz := SubtractPair(hx, lx, hy, ly);
    if hz >= 0 {
      hx, lx := hz, lz;
      t := t + b;
    }
    MultipleMod(t, b, hx * W + lx);
  }

  /** Right shift of a pair that holds r * 2^n: only zero bits are discarded. */
  lemma ShiftDownSmall(h: word, l: word, n: nat, r: nat)
    requires 1 <= n <= 31 && h * W + l == r * Pow2(n)
    ensures l % Pow2(n) == 0
    ensures Shl(h, 32 - n) % Pow2(32 - n) == 0 && Shr(l, n) < Pow2(32 - n)
    ensures r == Shr(h, n) * W + Shl(h, 32 - n) + Shr(l, n)
    ensures Shl(h, 32 - n) + Shr(l, n) < W
  {
    WordSplit(n);
    ShiftDownAbstract(h, l, r, Pow2(n), Pow2(32 - n));
  }

  lemma ShiftDownAbstract(h: word, l: word, r: nat, p: int, c: int)
    requires p >= 1 && c >= 1 && p * c == W && h * W + l == r * p
    ensures l % p == 0 && l / p < c && ((h * c) % W) % c == 0
    ensures r == (h / p) * W + (h * c) % W + l / p
    ensures (h * c) % W + l / p < W
  {
    SplitProduct(h, c, p);
    MulMono(h % p, p - 1, c);
    assert h * W == (h * c) * p;
    var d := r - h * c;
    assert d * p == l;
    DivModUnique(l, p, d, 0);
    MulLt(d, c, p);
  }

  lemma ShiftDownLarge(h: word, l: word, n: nat, r: nat)
    requires 32 <= n <= 52 && h * W + l == r * Pow2(n)
    ensures l == 0 && h % Pow2(n - 32) == 0 && r == Shr(h, n - 32)
  {
    assert Pow2(n) == Pow2(n - 32) * W by {
      Pow2Constants();
      Pow2Add(n - 32, 32);
    }
    HighOnly(h, l, r, Pow2(n - 32));
  }

  lemma HighOnly(h: word, l: word, r: nat, q: int)
    requires q >= 1 && h * W + l == r * (q * W)
    ensures l == 0 && h % q == 0 && r == h / q
  {
    MulAssoc(r, q, W);
    var v := r * q;
    assert h == v && l == 0;
    DivModUnique(h, q, r, 0);
  }

  method Normalise(hx0: word, lx0: word, iy0: int, ghost r: nat) returns (hx: word, lx: word, iy: int)
    requires 1 <= hx0 * W + lx0 < 2 * HIDDEN && -1074 <= iy0
    requires r >= 1 && r * HIDDEN == (hx0 * W + lx0) * Pow2(iy0 + 1074)
    ensures 0x10_0000 <= hx < 0x20_0000 && -1074 <= iy <= iy0
    ensures r * HIDDEN == (hx * W + lx) * Pow2(iy + 1074)
  {
    hx, lx, iy := hx0, lx0, iy0;
    ghost var a := hx * W + lx;
    while hx < 0x10_0000
      invariant 1 <= a == hx * W + lx < 2 * HIDDEN && -1074 <= iy <= iy0
      invariant r * HIDDEN == a * Pow2(iy + 1074)
      decreases iy + 1074
    {
      NormaliseRoom(a, iy + 1074, r, HIDDEN);
      a := 2 * a;
      hx, lx := DoublePair(hx, lx);
      iy := iy - 1;
    }
  }

  /** Renormalise and re-encode. r is the remainder in units; the word pair holds
      r * 2^52 / 2^iy, again in units. */
  method Encode(hx0: word, lx0: word, iy0: int, sx: word, ghost r: nat) returns (d: Double)
    requires 1 <= hx0 * W + lx0 < 2 * HIDDEN && -1074 <= iy0 <= 1023
    requires sx == 0 || sx == 0x8000_0000
    requires r >= 1 && r * HIDDEN == (hx0 * W + lx0) * Pow2(iy0 + 1074)
    ensures d.Finite() && d.Negative() == (sx != 0) && d.Units() == r
  {
    var hx, lx, iy := Normalise(hx0, lx0, iy0, r);
    if iy >= -1022 {
      assert Pow2(52) == HIDDEN by { Pow2Constants(); }
      EncodeNormal(hx * W + lx, iy + 1022, r, 52, HIDDEN);
      PackNormal(hx, lx, iy + 1023);
      hx := Or((iy + 1023) * 0x10_0000, hx - 0x10_0000, 20);
    } else {
      var n := -1022 - iy;
      assert Pow2(52) == HIDDEN by { Pow2Constants(); }
      EncodeSubnormal(hx * W + lx, n, r, 52, HIDDEN);
      hx, lx := Denormalise(hx, lx, n, r);
    }
    d := Double(hx + sx, lx);
  }

  lemma PackNormal(hx: word, lx: word, e: int)
    requires 0x10_0000 <= hx < 0x20_0000 && 1 <= e <= 2046
    ensures Pow2(20) == 0x10_0000
    ensures 0x10_0000 <= e * 0x10_0000 + (hx - 0x10_0000) < 0x7ff0_0000
    ensures UnitsOf(e * 0x10_0000 + (hx - 0x10_0000), lx) == (hx * W + lx) * Pow2(e - 1)
  {
    Pow2Constants();
    ScaledIsShift(hx * W + lx, e - 1);
  }

  /** The three subnormal output cases. */
  method Denormalise(hx0: word, lx0: word, n: nat, ghost r: nat) returns (hx: word, lx: word)
    requires 0x10_0000 <= hx0 < 0x20_0000 && 1 <= n <= 52 && r < HIDDEN
    requires hx0 * W + lx0 == r * Pow2(n)
    ensures hx < 0x10_0000 && hx * W + lx == r
  {
    if n <= 20 {
      ShiftDownSmall(hx0, lx0, n, r);
      lx := Or(Shl(hx0, 32 - n), Shr(lx0, n), 32 - n);
      hx := Shr(hx0, n);
    } else if n <= 31 {
      ShiftDownSmall(hx0, lx0, n, r);
      HighVanishes(hx0, n);
      lx := Or(Shl(hx0, 32 - n), Shr(lx0, n), 32 - n);
      hx := 0;
    } else {
      ShiftDownLarge(hx0, lx0, n, r);
      lx := Shr(hx0, n - 32);
      hx := 0;
    }
  }

  lemma HighVanishes(h: word, n: nat)
    requires h < 0x20_0000 && 21 <= n <= 31
    ensures Shr(h, n) == 0
  {
    Pow2Constants();
    Pow2Monotone(21, n);
    DivModUnique(h, Pow2(n), 0, h);
  }

  // ----- the function

  /** hy|((ly|-ly)>>31): the shift yields 1 exactly for a nonzero ly. */
  function OrNonzero(h: word, l: word): int {
    if l != 0 && h % 2 == 0 then h + 1 else h
  }

  /** The part after the exceptional exits: |x| > |y| > 0, both finite. */
  method Core(hx0: word, lx0: word, hy0: word, ly0: word, sx: word) returns (d: Double)
    requires sx == 0 || sx == 0x8000_0000
    requires hy0 < hx0 < 0x7ff0_0000 || (hy0 == hx0 < 0x7ff0_0000 && ly0 < lx0)
    requires hy0 != 0 || ly0 != 0
    ensures UnitsOf(hy0, ly0) > 0
    ensures d.Finite() && d.Negative() == (sx != 0)
    ensures d.Units() == UnitsOf(hx0, lx0) % UnitsOf(hy0, ly0)
  {
    UnitsMonotone(0, 0, hy0, ly0);
    UnitsMonotone(hy0, ly0, hx0, lx0);
    ghost var u, v := UnitsOf(hx0, lx0), UnitsOf(hy0, ly0);
    var ix := LogB(hx0, lx0);
    var iy := LogB(hy0, ly0);
    var hx, lx := Align(hx0, lx0, ix);
    var hy, ly := Align(hy0, ly0, iy);
    ghost var a, b := hx * W + lx, hy * W + ly;
    ExponentsOrdered(u, v, a, b, ix + 1074, iy + 1074, HIDDEN);
    var zero;
    zero, hx, lx := Reduce(hx, lx, hy, ly, ix - iy);
    ghost var c := if zero then 0 else hx * W + lx;
    RemainderScales(u, v, a, b, ix + 1074, iy + 1074, c, HIDDEN);
    if zero || (hx == 0 && lx == 0) {
      MulCancel(u % v, 0, HIDDEN);
      return Double(sx, 0);
    }
    MulMono(1, c, Pow2(iy + 1074));
    d := Encode(hx, lx, iy, sx, u % v);
  }

  method Fmod(x: Double, y: Double) returns (r: Result)
    ensures r.Invalid? <==> y.IsZero() || !x.Finite() || y.IsNaN()
    ensures r.Value? ==> r.d.Finite() && r.d.Negative() == x.Negative()
    ensures r.Value? && y.Infinite() ==> r.d == x
    ensures r.Value? && y.Finite() ==> r.d.Units() == x.Units() % y.Units()
  {
    var sx := if x.hi >= 0x8000_0000 then 0x8000_0000 else 0;
    var hx, lx := x.hi - sx, x.lo;
    var hy, ly := y.hi % 0x8000_0000, y.lo;
    if (hy == 0 && ly == 0) || hx >= 0x7ff0_0000 || OrNonzero(hy, ly) > 0x7ff0_0000 {
      return Invalid;
    }
    if hx <= hy {
      if hx < hy || lx < ly {
        UnitsMonotone(hx, lx, hy, ly);
        DivModUnique(x.Units(), y.Units(), 0, x.Units());
        return Value(x);
      }
      if lx == ly {
        DivModUnique(x.Units(), y.Units(), 1, 0);
        return Value(Double(sx, 0));
      }
    }
    var d := Core(hx, lx, hy, ly, sx);
    r := Value(d);
  }
}

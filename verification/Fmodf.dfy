/** __ieee754_fmodf (external/oslib/libm/msun/src/e_fmodf.c): the same shift and subtract
    on mantissas of one word. Every finite float is a whole number of units of 2^-149. */
module Fmodf {
  import opened Bits
  import opened Mantissa

  const HIDDEN: nat := 0x80_0000 // 2^23, the implicit leading bit

  /** Magnitude encoded by a sign-less word. */
  function UnitsOf(h: word): (r: nat)
    ensures r == 0 <==> h == 0
  {
    if h < HIDDEN then h else Scaled(HIDDEN + h % HIDDEN, h / HIDDEN - 1)
  }

  datatype Float = Float(bits: word) {
    predicate Negative() { bits >= 0x8000_0000 }

    /** bits & 0x7fffffff */
    function Abs(): (r: word)
      ensures r == if Negative() then bits - 0x8000_0000 else bits
    { bits % 0x8000_0000 }

    predicate IsZero() { Abs() == 0 }
    predicate Finite() { Abs() < 0x7f80_0000 }
    predicate Infinite() { Abs() == 0x7f80_0000 }
    predicate IsNaN() { Abs() > 0x7f80_0000 }

    function Units(): nat { UnitsOf(Abs()) }
  }

  datatype Result = Invalid | Value(f: Float)

  /** Comparing words is comparing magnitudes. */
  lemma UnitsMonotone(h: word, h': word)
    requires h < h'
    ensures UnitsOf(h) < UnitsOf(h')
  {
    var e, e' := h / HIDDEN, h' / HIDDEN;
    var m, m' := HIDDEN + h % HIDDEN, HIDDEN + h' % HIDDEN;
    if h' >= HIDDEN {
      if h < HIDDEN {
        GrowsFrom(m', e' - 1);
      } else if e == e' {
        ScaledMonotone(m, m', e - 1);
      } else {
        ScaledBelow(m, m', e - 1, e' - 1);
      }
    }
  }

  /** A float is determined by its sign and magnitude. */
  lemma UnitsInjective(a: Float, b: Float)
    requires a.Negative() == b.Negative() && a.Units() == b.Units()
    ensures a == b
  {
    if a.Abs() < b.Abs() {
      UnitsMonotone(a.Abs(), b.Abs());
    } else if b.Abs() < a.Abs() {
      UnitsMonotone(b.Abs(), a.Abs());
    }
  }

  lemma Width()
    ensures Pow2(23) == HIDDEN && Pow2(8) == 256
  {
    assert Pow2(4) == 16 && Pow2(3) == 8;
    Pow2Add(4, 4);
    Pow2Add(8, 8);
    Pow2Add(16, 4);
    Pow2Add(20, 3);
  }

  // ----- stages

  /** ilogb, the bit scan. Of y the loop test is i >= 0, of x it is i > 0: the same on an
      operand that is not zero. */
  method LogB(h: word, zeroGoesOn: bool) returns (e: int)
    requires 0 < h < 0x7f80_0000
    ensures h >= HIDDEN ==> e == h / HIDDEN - 127
    ensures h < HIDDEN ==> -149 <= e < -126 && HIDDEN <= h * Pow2(-126 - e) < 2 * HIDDEN
  {
    if h >= HIDDEN {
      return h / HIDDEN - 127;
    }
    var i: word := h * 256;
    e := -126;
    while i < 0x8000_0000 && (zeroGoesOn || i != 0)
      invariant e <= -126 && 0 < i == Scaled(h * 256, -126 - e)
      decreases W - i
    {
      i := 2 * i;
      e := e - 1;
    }
    ScanEnd(h, -126 - e, i);
  }

  lemma ScanEnd(h: nat, k: nat, i: nat)
    requires 0 < h < HIDDEN && i == Scaled(h * 256, k) && 0x8000_0000 <= i < W
    ensures 1 <= k <= 23 && HIDDEN <= h * Pow2(k) < 2 * HIDDEN
  {
    var p := Pow2(k);
    ScaledIsShift(h * 256, k);
    assert (h * 256) * p == (h * p) * 256;
    if k > 23 {
      Width();
      Pow2Monotone(24, k);
      MulMono(1, h, p);
    }
  }

  /** The aligned mantissa holds |x| * 2^23 / 2^ilogb(|x|), in units. */
  method Align(h: word, e: int) returns (h': word)
    requires 0 < h < 0x7f80_0000
    requires h >= HIDDEN ==> e == h / HIDDEN - 127
    requires h < HIDDEN ==> -149 <= e < -126 && HIDDEN <= h * Pow2(-126 - e) < 2 * HIDDEN
    ensures HIDDEN <= h' < 2 * HIDDEN
    ensures UnitsOf(h) * HIDDEN == h' * Pow2(e + 149)
  {
    if e >= -126 {
      assert Pow2(23) == HIDDEN by { Width(); }
      AlignNormal(h, e + 126);
      h' := Or(0x80_0000, h % 0x80_0000, 23);
    } else {
      var n := -126 - e;
      assert Pow2(23) == HIDDEN by { Width(); }
      AlignSubnormal(h, n, 23, HIDDEN);
      h' := Shl(h, n);
    }
  }

  lemma AlignNormal(h: word, e: nat)
    requires HIDDEN <= h < 0x7f80_0000 && e == h / HIDDEN - 1
    ensures UnitsOf(h) * HIDDEN == (HIDDEN + h % HIDDEN) * Pow2(e + 23)
  {
    Width();
    Pow2Add(e, 23);
    ScaledIsShift(HIDDEN + h % HIDDEN, e);
    MulAssoc(HIDDEN + h % HIDDEN, Pow2(e), HIDDEN);
  }

  /** The fixed-point loop; zero is the early exit on an exhausted difference. */
  method Reduce(hx0: word, hy: word, n0: nat) returns (zero: bool, hx: word)
    requires HIDDEN <= hx0 < 2 * HIDDEN && HIDDEN <= hy < 2 * HIDDEN
    ensures zero ==> Scaled(hx0, n0) % hy == 0
    ensures !zero ==> hx == Scaled(hx0, n0) % hy
  {
    ghost var t: nat := 0;
    var n := n0;
    hx, zero := hx0, false;
    while n != 0
      invariant 0 <= n <= n0 && hx < 2 * hy
      invariant Scaled(hx0, n0 - n) == hx + t && Multiple(t, hy)
      decreases n
    {
      n := n - 1;
      MultipleStep(t, hy);
      var hz := hx - hy;
      if hz < 0 {
        hx := hx + hx;
        t := 2 * t;
      } else {
        if hz == 0 {
          ExactMultiple(hx0, n0 - n - 1, n + 1, hy);
          MultipleMod(Scaled(hx0, n0), hy, 0);
          return true, hx;
        }
        hx := hz + hz;
        t := 2 * (t + hy);
      }
    }
    MultipleStep(t, hy);
    var hz := hx - hy;
    if hz >= 0 {
      hx := hz;
      t := t + hy;
    }
    MultipleMod(t, hy, hx);
  }

  method Normalise(hx0: word, iy0: int, ghost r: nat) returns (hx: word, iy: int)
    requires 1 <= hx0 < 2 * HIDDEN && -149 <= iy0
    requires r >= 1 && r * HIDDEN == hx0 * Pow2(iy0 + 149)
    ensures HIDDEN <= hx < 2 * HIDDEN && -149 <= iy <= iy0
    ensures r * HIDDEN == hx * Pow2(iy + 149)
  {
    hx, iy := hx0, iy0;
    while hx < 0x80_0000
      invariant 1 <= hx < 2 * HIDDEN && -149 <= iy <= iy0
      invariant r * HIDDEN == hx * Pow2(iy + 149)
      decreases iy + 149
    {
      NormaliseRoom(hx, iy + 149, r, HIDDEN);
      hx := hx + hx;
      iy := iy - 1;
    }
  }

  /** Renormalise and re-encode; r is the remainder in units. */
  method Encode(hx0: word, iy0: int, sx: word, ghost r: nat) returns (f: Float)
    requires 1 <= hx0 < 2 * HIDDEN && -149 <= iy0 <= 127
    requires sx == 0 || sx == 0x8000_0000
    requires r >= 1 && r * HIDDEN == hx0 * Pow2(iy0 + 149)
    ensures f.Finite() && f.Negative() == (sx != 0) && f.Units() == r
  {
    var hx, iy := Normalise(hx0, iy0, r);
    if iy >= -126 {
      PackNormal(hx, iy + 127, r);
      hx := Or((iy + 127) * 0x80_0000, hx - 0x80_0000, 23);
    } else {
      var n := -126 - iy;
      ShiftDown(hx, n, r);
      hx := Shr(hx, n);
    }
    f := Float(hx + sx);
  }

  lemma PackNormal(hx: word, e: int, r: nat)
    requires HIDDEN <= hx < 2 * HIDDEN && 1 <= e <= 254 && r * HIDDEN == hx * Pow2(e + 22)
    ensures Pow2(23) == HIDDEN && HIDDEN <= e * HIDDEN + (hx - HIDDEN) < 0x7f80_0000
    ensures UnitsOf(e * HIDDEN + (hx - HIDDEN)) == r
    ensures e * HIDDEN % Pow2(23) == 0 && hx - HIDDEN < Pow2(23)
  {
    Width();
    EncodeNormal(hx, e - 1, r, 23, HIDDEN);
    ScaledIsShift(hx, e - 1);
  }

  /** The right shift of the subnormal output discards only zero bits. */
  lemma ShiftDown(hx: word, n: nat, r: nat)
    requires HIDDEN <= hx < 2 * HIDDEN && 1 <= n <= 23 && r * HIDDEN == hx * Pow2(23 - n)
    ensures hx % Pow2(n) == 0 && Shr(hx, n) == r < HIDDEN
  {
    Width();
    EncodeSubnormal(hx, n, r, 23, HIDDEN);
    DivModUnique(hx, Pow2(n), r, 0);
  }

  // ----- the function

  /** The part after the exceptional exits: |x| > |y| > 0, both finite. */
  method Core(hx0: word, hy0: word, sx: word) returns (f: Float)
    requires (sx == 0 || sx == 0x8000_0000) && 0 < hy0 < hx0 < 0x7f80_0000
    ensures f.Finite() && f.Negative() == (sx != 0)
    ensures f.Units() == UnitsOf(hx0) % UnitsOf(hy0)
  {
    UnitsMonotone(hy0, hx0);
    ghost var u, v := UnitsOf(hx0), UnitsOf(hy0);
    var ix := LogB(hx0, false);
    var iy := LogB(hy0, true);
    var a := Align(hx0, ix);
    var b := Align(hy0, iy);
    ExponentsOrdered(u, v, a, b, ix + 149, iy + 149, HIDDEN);
    var zero, hx := Reduce(a, b, ix - iy);
    ghost var c := if zero then 0 else hx;
    RemainderScales(u, v, a, b, ix + 149, iy + 149, c, HIDDEN);
    if zero || hx == 0 {
      MulCancel(u % v, 0, HIDDEN);
      return Float(sx);
    }
    MulMono(1, c, Pow2(iy + 149));
    f := Encode(hx, iy, sx, u % v);
  }

  method Fmodf(x: Float, y: Float) returns (r: Result)
    ensures r.Invalid? <==> y.IsZero() || !x.Finite() || y.IsNaN()
    ensures r.Value? ==> r.f.Finite() && r.f.Negative() == x.Negative()
    ensures r.Value? && y.Infinite() ==> r.f == x
    ensures r.Value? && y.Finite() ==> r.f.Units() == x.Units() % y.Units()
  {
    var sx := if x.bits >= 0x8000_0000 then 0x8000_0000 else 0;
    var hx, hy := x.bits - sx, y.bits % 0x8000_0000;
    if hy == 0 || hx >= 0x7f80_0000 || hy > 0x7f80_0000 {
      return Invalid;
    }
    if hx < hy {
      UnitsMonotone(hx, hy);
      DivModUnique(x.Units(), y.Units(), 0, x.Units());
      return Value(x);
    }
    if hx == hy {
      DivModUnique(x.Units(), y.Units(), 1, 0);
      return Value(Float(sx));
    }
    var f := Core(hx, hy, sx);
    r := Value(f);
  }
}

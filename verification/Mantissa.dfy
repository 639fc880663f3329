/** What shift-and-subtract division does to mantissas, whatever their width: w is the
    number of fraction bits and h = 2^w the implicit leading bit. */
module Mantissa {
  import opened Bits

  // ----- scaling

  lemma {:induction false} ScaledMonotone(m: nat, m': nat, e: nat)
    ensures m < m' ==> Scaled(m, e) < Scaled(m', e)
    ensures m <= m' ==> Scaled(m, e) <= Scaled(m', e)
  {
    if e > 0 {
      ScaledMonotone(m, m', e - 1);
    }
  }

  lemma {:induction false} ScaledBelow(m: nat, m': nat, e: nat, e': nat)
    requires m < 2 * m' && e < e'
    ensures Scaled(m, e) < Scaled(m', e')
  {
    if e == 0 {
      GrowsFrom(m', e');
    } else {
      ScaledBelow(m, m', e - 1, e' - 1);
    }
  }

  lemma {:induction false} GrowsFrom(m: nat, e: nat)
    ensures Scaled(m, e) >= m
    ensures e > 0 ==> Scaled(m, e) >= 2 * m
  {
    if e > 0 {
      GrowsFrom(m, e - 1);
    }
  }

  /** A subnormal mantissa moved up by n, its leading bit then being that of h. */
  lemma AlignSubnormal(u: nat, n: nat, w: nat, h: nat)
    requires n <= w && h == Pow2(w)
    ensures u * h == (u * Pow2(n)) * Pow2(w - n)
  {
    Pow2Add(n, w - n);
    MulAssoc(u, Pow2(n), Pow2(w - n));
  }

  lemma NormaliseRoom(a: nat, b: nat, r: nat, h: nat)
    requires r >= 1 && a < h && r * h == a * Pow2(b)
    ensures b >= 1 && r * h == (2 * a) * Pow2(b - 1)
  {
    if b == 0 {
      MulMono(1, r, h);
    } else {
      MulAssoc(a, 2, Pow2(b - 1));
    }
  }

  lemma EncodeNormal(a: nat, e: nat, r: nat, w: nat, h: nat)
    requires h == Pow2(w) && r * h == a * Pow2(e + w)
    ensures r == a * Pow2(e)
  {
    Pow2Add(e, w);
    MulAssoc(a, Pow2(e), h);
    MulCancel(r, a * Pow2(e), h);
  }

  lemma EncodeSubnormal(a: nat, n: nat, r: nat, w: nat, h: nat)
    requires 1 <= n <= w && h == Pow2(w) && a < 2 * h && r * h == a * Pow2(w - n)
    ensures a == r * Pow2(n) && r < h
  {
    AlignSubnormal(r, n, w, h);
    MulCancel(r * Pow2(n), a, Pow2(w - n));
    Pow2Monotone(1, n);
    MulMono(2, Pow2(n), r);
  }

  // ----- multiples of the divisor

  predicate Multiple(t: nat, b: nat)
    requires b > 0
  {
    t == 0 || (t >= b && Multiple(t - b, b))
  }

  lemma {:induction false} MultipleAdd(t: nat, t': nat, b: nat)
    requires b > 0 && Multiple(t, b) && Multiple(t', b)
    ensures Multiple(t + t', b)
  {
    if t > 0 {
      MultipleAdd(t - b, t', b);
      assert t + t' - b == (t - b) + t';
    }
  }

  lemma MultipleStep(t: nat, b: nat)
    requires b > 0 && Multiple(t, b)
    ensures Multiple(t + b, b) && Multiple(2 * t, b) && Multiple(2 * (t + b), b)
  {
    assert Multiple(b, b) by { assert Multiple(0, b); }
    MultipleAdd(t, b, b);
    MultipleAdd(t, t, b);
    MultipleAdd(t + b, t + b, b);
  }

  lemma {:induction false} MultipleMod(t: nat, b: nat, r: nat)
    requires r < b && Multiple(t, b)
    ensures (r + t) % b == r
  {
    if t == 0 {
      DivModUnique(r, b, 0, r);
    } else {
      MultipleMod(t - b, b, r);
      DivModUnique(r + t, b, (r + t - b) / b + 1, r);
    }
  }

  lemma {:induction false} ExactMultiple(m: nat, j: nat, n: nat, b: nat)
    requires b > 0 && Multiple(Scaled(m, j), b)
    ensures Multiple(Scaled(m, j + n), b)
  {
    if n > 0 {
      ExactMultiple(m, j, n - 1, b);
      MultipleStep(Scaled(m, j + n - 1), b);
    }
  }

  // ----- remainders

  /** From the aligned mantissas back to the magnitudes. */
  lemma RemainderScales(u: nat, v: nat, a: nat, b: nat, i: nat, j: nat, c: nat, h: nat)
    requires v >= 1 && b >= 1 && i >= j && h >= 1
    requires u * h == a * Pow2(i) && v * h == b * Pow2(j)
    requires c == Scaled(a, i - j) % b
    ensures (u % v) * h == c * Pow2(j)
  {
    ScaledIsShift(a, i - j);
    Pow2Add(i - j, j);
    MulAssoc(a, Pow2(i - j), Pow2(j));
    RemainderAbstract(u, v, Scaled(a, i - j), b, Pow2(j), h);
  }

  lemma RemainderAbstract(u: nat, v: nat, x: nat, b: nat, p: nat, h: nat)
    requires v >= 1 && b >= 1 && h >= 1 && u * h == x * p && v * h == b * p
    ensures (u % v) * h == (x % b) * p
  {
    var q, c := x / b, x % b;
    var r := u - q * v;
    assert r * h == c * p by {
      calc {
        u * h;
        (q * b + c) * p;
        { MulAssoc(q, b, p); }
        q * (b * p) + c * p;
        q * (v * h) + c * p;
        { MulAssoc(q, v, h); }
        (q * v) * h + c * p;
      }
    }
    RemainderRange(r, v, h, c, b, p);
    DivModUnique(u, v, q, r);
  }

  lemma RemainderRange(r: int, v: nat, h: nat, c: nat, b: nat, p: nat)
    requires h >= 1 && r * h == c * p && v * h == b * p && c < b && v >= 1
    ensures 0 <= r < v
  {
    assert p >= 1 by { MulMono(1, v, h); }
    MulMono(c + 1, b, p);
    MulLt(r, v, h);
    assert c * p >= 0;
    MulLt(-1, r, h);
  }

  lemma ExponentsOrdered(u: nat, v: nat, a: nat, b: nat, i: nat, j: nat, h: nat)
    requires v < u && a < 2 * h && h <= b
    requires u * h == a * Pow2(i) && v * h == b * Pow2(j)
    ensures j <= i
  {
    if i < j {
      ScaledBelow(a, b, i, j);
      ScaledIsShift(a, i);
      ScaledIsShift(b, j);
      MulLt(u, v, h);
    }
  }
}

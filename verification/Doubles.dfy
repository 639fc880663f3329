/** IEEE 754 doubles as the pair of words that EXTRACT_WORDS and INSERT_WORDS
    exchange with a float register. Every finite double is a whole number of
    units of 2^-1074, so its magnitude is a natural number. */
module Doubles {
  import opened Bits
  import opened Mantissa

  datatype Double = Double(hi: word, lo: word) {
    predicate Negative() { hi >= 0x8000_0000 }

    /** hi & 0x7fffffff */
    function High(): (r: word)
      ensures r == if Negative() then hi - 0x8000_0000 else hi
    { hi % 0x8000_0000 }

    predicate IsZero() { High() == 0 && lo == 0 }
    predicate Finite() { High() < 0x7ff0_0000 }
    predicate Infinite() { High() == 0x7ff0_0000 && lo == 0 }
    predicate IsNaN() { !Finite() && !Infinite() }

    /** Magnitude in units of 2^-1074. */
    function Units(): nat { UnitsOf(High(), lo) }

    /** Signed value in units of 2^-1074. */
    function Value(): int { if Negative() then 0 - Units() else Units() }
  }

  const HIDDEN: nat := 0x10_0000_0000_0000 // 2^52, the implicit leading bit

  function Fraction(h: word, l: word): (r: nat)
    ensures r < HIDDEN
  {
    (h % 0x10_0000) * W + l
  }

  /** Magnitude encoded by a sign-less word pair. */
  function UnitsOf(h: word, l: word): (r: nat)
    ensures r == 0 <==> h == 0 && l == 0
  {
    if h < 0x10_0000 then h * W + l
    else Scaled(HIDDEN + Fraction(h, l), h / 0x10_0000 - 1)
  }

  /** Comparing words lexicographically is comparing magnitudes. */
  lemma UnitsMonotone(h: word, l: word, h': word, l': word)
    requires h < h' || (h == h' && l < l')
    ensures UnitsOf(h, l) < UnitsOf(h', l')
  {
    var e, e' := h / 0x10_0000, h' / 0x10_0000;
    var m, m' := HIDDEN + Fraction(h, l), HIDDEN + Fraction(h', l');
    if h' >= 0x10_0000 {
      if h < 0x10_0000 {
        GrowsFrom(m', e' - 1);
      } else if e == e' {
        ScaledMonotone(m, m', e - 1);
      } else {
        ScaledBelow(m, m', e - 1, e' - 1);
      }
    }
  }

  /** A double is determined by its sign and magnitude: a result specified by
      both is specified bit for bit. */
  lemma UnitsInjective(a: Double, b: Double)
    requires a.Negative() == b.Negative() && a.Units() == b.Units()
    ensures a == b
  {
    var h, h' := a.High(), b.High();
    if h < h' || (h == h' && a.lo < b.lo) {
      UnitsMonotone(h, a.lo, h', b.lo);
    } else if h' < h || (h == h' && b.lo < a.lo) {
      UnitsMonotone(h', b.lo, h, a.lo);
    }
  }
}

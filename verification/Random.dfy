/** OSLib's rand and srand (external/oslib/libc/stdlib/random.c): the multiplicative generator
    x -> 16807 x mod 2^31 - 1, computed in 32-bit arithmetic by Schrage's decomposition. */
module Random {
  import opened Bits
  import opened Powers

  const MODULUS: int := 2147483647
  const FACTOR: nat := 16807
  const DIVISOR: int := 127773
  const REMAINDER: int := 2836
  const INVERSE: int := 1407677000

  predicate Int32(x: int) { -2147483648 <= x <= 2147483647 }

  /** One step of the generator. */
  function Step(x: int): (r: int)
    ensures 0 <= r < MODULUS
  {
    (FACTOR * x) % MODULUS
  }

  /** What Schrage's formula computes is congruent to the product and close to the range. */
  lemma Schrage(x: int)
    requires Int32(x)
    ensures var q, r := Quotient(x, DIVISOR), Remainder(x, DIVISOR);
            var t := FACTOR * r - REMAINDER * q;
            && Int32(FACTOR * r) && Int32(REMAINDER * q) && 0 - MODULUS < t < MODULUS
            && Step(x) == if t < 0 then t + MODULUS else t
  {
    var q, r := Quotient(x, DIVISOR), Remainder(x, DIVISOR);
    var t := FACTOR * r - REMAINDER * q;
    assert FACTOR * x == MODULUS * q + t;
    ModIs(FACTOR * x, if t < 0 then q - 1 else q, if t < 0 then t + MODULUS else t);
  }

  lemma ModIs(n: int, q: int, r: int)
    requires n == MODULUS * q + r && 0 <= r < MODULUS
    ensures n % MODULUS == r
  {
  }

  class Generator {
    var lastVal: int

    /** srand */
    constructor (seed: int)
      requires Int32(seed)
      ensures lastVal == seed
    {
      lastVal := seed;
    }

    /** rand, with every intermediate value in the range of a 32-bit long. */
    method Rand() returns (r: int)
      requires Int32(lastVal)
      modifies this
      ensures r == lastVal == Step(old(lastVal))
    {
      Schrage(lastVal);
      var lastDiv := Quotient(lastVal, DIVISOR);
      var lastRem := Remainder(lastVal, DIVISOR);
      assert Int32(FACTOR * lastRem) && Int32(REMAINDER * lastDiv);
      lastVal := FACTOR * lastRem - REMAINDER * lastDiv;
      assert Int32(lastVal);
      if lastVal < 0 {
        lastVal := lastVal + MODULUS;
      }
      return lastVal;
    }
  }

  /** The state after n calls. The measure is written so that runs of a known length are
      not unfolded. */
  function After(seed: int, n: nat): int
    decreases n + 0
  {
    if n == 0 then seed else Step(After(seed, n - 1))
  }

  lemma MulMod(a: int, b: int)
    ensures (b * (a % MODULUS)) % MODULUS == (b * a) % MODULUS
  {
    var q, r := a / MODULUS, a % MODULUS;
    var t := b * q;
    assert b * a == MODULUS * t + b * r by {
      assert a == MODULUS * q + r;
      assert b * (MODULUS * q + r) == MODULUS * (b * q) + b * r;
    }
    var u := b * r;
    ModIs(MODULUS * t + u, t + u / MODULUS, u % MODULUS);
  }

  /** After n calls the state is FACTOR to the n times the seed, modulo MODULUS. */
  lemma {:induction false} PowerLaw(seed: int, n: nat)
    requires n > 0
    ensures After(seed, n) == (Power(FACTOR, n) * seed) % MODULUS
    decreases n
  {
    if n == 1 {
      assert Power(FACTOR, 1) == FACTOR * Power(FACTOR, 0) == FACTOR;
      assert After(seed, 1) == Step(After(seed, 0));
    } else {
      var p := Power(FACTOR, n - 1);
      PowerLaw(seed, n - 1);
      MulMod(p * seed, FACTOR);
      MulThree(FACTOR, p, seed);
    }
  }

  lemma MulThree(a: int, b: int, c: int)
    ensures a * (b * c) == (a * b) * c
  {
  }

  /** The step the other way. */
  function Back(y: int): (r: int)
    ensures 0 <= r < MODULUS
  {
    (INVERSE * y) % MODULUS
  }

  /** One step is a permutation of the residues, and of those other than 0. */
  lemma Permutation(x: int)
    requires 0 <= x < MODULUS
    ensures Back(Step(x)) == x && Step(Back(x)) == x
    ensures Step(x) == 0 <==> x == 0
  {
    MulMod(FACTOR * x, INVERSE);
    MulMod(INVERSE * x, FACTOR);
    InverseUndoes(x);
  }

  lemma InverseUndoes(x: int)
    requires 0 <= x < MODULUS
    ensures (INVERSE * (FACTOR * x)) % MODULUS == x && (FACTOR * (INVERSE * x)) % MODULUS == x
  {
    assert INVERSE * FACTOR == MODULUS * 11017 + 1;
    ModIs(INVERSE * (FACTOR * x), 11017 * x, x);
  }

  /** A state repeats only if the state before it does. */
  lemma {:induction false} Reversible(x: int, y: int, n: nat)
    requires 0 <= x < MODULUS && 0 <= y < MODULUS
    ensures After(x, n) == After(y, n) <==> x == y
    decreases n
  {
    if n > 0 {
      Reversible(x, y, n - 1);
      InRange(x, n - 1);
      InRange(y, n - 1);
      Permutation(After(x, n - 1));
      Permutation(After(y, n - 1));
    }
  }

  lemma {:induction false} InRange(x: int, n: nat)
    requires 0 <= x < MODULUS
    ensures 0 <= After(x, n) < MODULUS
    decreases n
  {
  }

  /** Zero is reached only from the seeds that are multiples of the modulus. */
  lemma {:induction false} ZeroOnlyFromZero(seed: int, n: nat)
    requires n > 0
    ensures After(seed, n) == 0 <==> seed % MODULUS == 0
    decreases n
  {
    if n == 1 {
      MulMod(seed, FACTOR);
      Permutation(seed % MODULUS);
      assert After(seed, 1) == Step(After(seed, 0));
    } else {
      ZeroOnlyFromZero(seed, n - 1);
      Permutation(After(seed, n - 1));
    }
  }
}

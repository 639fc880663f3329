/** Integer powers. */
module Powers {

  function Power(b: nat, k: nat): nat {
    if k == 0 then 1 else b * Power(b, k - 1)
  }

  lemma {:induction false} PowerMonotone(b: nat, c: nat, k: nat)
    requires b <= c
    ensures Power(b, k) <= Power(c, k)
    decreases k
  {
    if k > 0 {
      PowerMonotone(b, c, k - 1);
      MulBoth(b, c, Power(b, k - 1), Power(c, k - 1));
    }
  }

  lemma MulBoth(a: nat, b: nat, x: nat, y: nat)
    requires a <= b && x <= y
    ensures a * x <= b * y
  {
    assert a * x <= a * y;
    assert a * y <= b * y;
  }

  /** One more digit does not make a number smaller. */
  lemma Grows(n: int, base: int, d: int)
    requires n >= 0 && base >= 1 && d >= 0
    ensures n * base + d >= n * base >= n
    ensures base >= 2 ==> n * base >= 2 * n
  {
  }
}

/** Products as repeated sums, which the solver handles better. */
module Arithmetic {

  /** n times x. */
  function Times(n: nat, x: int): (r: int)
    ensures x >= 0 ==> r >= 0
  {
    if n == 0 then 0 else x + Times(n - 1, x)
  }

  lemma {:induction false} TimesIsProduct(n: nat, x: int)
    ensures Times(n, x) == n * x
  {
    if n > 0 {
      TimesIsProduct(n - 1, x);
    }
  }

  lemma {:induction false} TimesGrows(less: nat, more: nat, x: nat)
    requires less <= more
    ensures Times(less, x) <= Times(more, x)
    ensures less < more ==> Times(less, x) + x <= Times(more, x)
  {
    if less < more {
      TimesGrows(less, more - 1, x);
    }
  }

  lemma {:induction false} TimesOfDifference(n: nat, x: int, y: int)
    ensures Times(n, x - y) == Times(n, x) - Times(n, y)
  {
    if n > 0 {
      TimesOfDifference(n - 1, x, y);
    }
  }
}

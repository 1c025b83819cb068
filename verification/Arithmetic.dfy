/** Facts about products and quotients of natural numbers. */
module Arithmetic {

  lemma {:induction false} MulStep(a: nat, b: nat, d: nat)
    requires a < b
    ensures a * d + d <= b * d
    decreases b
  {
    assert b * d == (b - 1) * d + d;
    if a + 1 < b {
      MulStep(a, b - 1, d);
    }
  }

  lemma {:induction false} DivisionIsUnique(d: nat, i: nat, c: nat, j: nat, e: nat)
    requires c < d && e < d
    requires i * d + c == j * d + e
    ensures i == j && c == e
  {
    if i < j {
      MulStep(i, j, d);
    } else if j < i {
      MulStep(j, i, d);
    }
  }

  lemma {:induction false} QuotientIs(a: nat, d: nat, q: nat, r: nat)
    requires r < d && a == q * d + r
    ensures a / d == q && a % d == r
  {
    assert a == (a / d) * d + a % d;
    DivisionIsUnique(d, q, r, a / d, a % d);
  }

  lemma {:induction false} QuotientAtLeast(a: nat, d: nat, q: nat)
    requires d > 0 && q * d <= a
    ensures a / d >= q
  {
    assert a == (a / d) * d + a % d;
    if a / d < q {
      MulStep(a / d, q, d);
    }
  }

  lemma {:induction false} TimesPositive(a: nat, b: nat)
    requires b > 0
    ensures a <= a * b
  {
    assert a * b == a * (b - 1) + a;
    assert 0 <= a * (b - 1);
  }

  function Sum(numbers: seq<nat>): nat {
    if numbers == [] then 0 else Sum(numbers[..|numbers| - 1]) + numbers[|numbers| - 1]
  }
}

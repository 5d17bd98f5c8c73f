/** Powers of ten. */
module Decimal {
  function Pow10(n: nat): (p: nat)
    ensures p > 0
  {
    if n == 0 then 1 else 10 * Pow10(n - 1)
  }

  lemma {:induction false} Pow10Add(a: nat, b: nat)
    ensures Pow10(a + b) == Pow10(a) * Pow10(b)
  {
    if a > 0 {
      Pow10Add(a - 1, b);
      Tens(Pow10(a - 1), Pow10(b));
    }
  }

  lemma Tens(a: nat, b: nat)
    ensures 10 * a * b == 10 * (a * b)
  {
  }
}

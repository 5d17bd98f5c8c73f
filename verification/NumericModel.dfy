/** Integers read from text and rounded to doubles, and modular 32-bit arithmetic (sections 7.1.6, 7.1.7,
    13.9 and 19.2.5 of ECMA-262; jsrt_numeric.c). */
module NumericModel {
  // ---------------------------------------------------------------- powers of two

  function Pow2(n: nat): (p: nat)
    ensures p > 0
  {
    if n == 0 then 1 else 2 * Pow2(n - 1)
  }

  lemma {:induction false} Pow2Add(a: nat, b: nat)
    ensures Pow2(a + b) == Pow2(a) * Pow2(b)
  {
    if a > 0 {
      Pow2Add(a - 1, b);
      assert Pow2(a + b) == 2 * (Pow2(a - 1) * Pow2(b));
    }
  }

  lemma {:induction false} Pow2Grows(a: nat, b: nat)
    requires a <= b
    ensures Pow2(a) <= Pow2(b)
  {
    if a < b { Pow2Grows(a, b - 1); }
  }

  const LIMIT: nat := 0x20_0000_0000_0000

  lemma LimitIs()
    ensures Pow2(53) == LIMIT && Pow2(52) * 2 == LIMIT
  {
    assert Pow2(20) == 0x10_0000 by { assert Pow2(10) == 0x400; Pow2Add(10, 10); }
    Pow2Add(20, 20);
    Pow2Add(40, 10);
    assert Pow2(50) == 0x10_0000 * 0x10_0000 * 0x400;
    assert Pow2(52) == 4 * Pow2(50);
  }

  // ---------------------------------------------------------------- rounding to 53 bits

  /** A double's magnitude, as the arguments of ldexp. */
  datatype Scaled = Scaled(number: nat, exponent: nat)

  function ValueOf(d: Scaled): nat { d.number * Pow2(d.exponent) }

  predicate Representable(d: Scaled) { d.number < LIMIT }

  function Distance(a: int, b: int): nat { if a < b then b - a else a - b }

  /** `v` divided by 2^e, to nearest, a tie to even. */
  function HalfEven(v: nat, e: nat): nat {
    var q, r := v / Pow2(e), v % Pow2(e);
    if 2 * r > Pow2(e) || (2 * r == Pow2(e) && q % 2 == 1) then q + 1 else q
  }

  /** No double is nearer to `v` than `d`; if one is as near on the other side, `d`'s last bit is zero. */
  ghost predicate Nearest(v: nat, d: Scaled) {
    && Representable(d)
    && (forall x :: Representable(x) ==> Distance(ValueOf(d), v) <= Distance(ValueOf(x), v))
    && (forall x :: Representable(x) && Distance(ValueOf(d), v) == Distance(ValueOf(x), v) && ValueOf(x) != ValueOf(d)
          ==> d.number % 2 == 0)
  }

  /** Where a multiple of `p` lies beside `q * p`. */
  lemma Multiple(b: int, q: int, p: nat)
    ensures b < q ==> b * p <= q * p - p
    ensures b == q + 1 ==> b * p == q * p + p
    ensures b > q + 1 ==> b * p >= q * p + 2 * p
  {
    if b < q { Nonneg(q - 1 - b, p); }
    if b > q + 1 { Nonneg(b - q - 2, p); }
  }

  function Product(a: nat, b: nat): (p: nat)
    ensures p == a * b
  {
    Nonneg(a, b);
    a * b
  }

  lemma Nonneg(k: nat, p: nat)
    ensures k * p >= 0
  {
  }

  /** A double with a larger exponent is a multiple of 2^e; one with a smaller is below 2^(52+e). */
  lemma OtherDouble(x: Scaled, e: nat) returns (b: int)
    requires Representable(x) && e > 0
    ensures ValueOf(x) == b * Pow2(e) || ValueOf(x) < Pow2(52) * Pow2(e)
  {
    b := 0;
    if x.exponent >= e {
      Pow2Add(x.exponent - e, e);
      b := x.number * Pow2(x.exponent - e);
      Associate(x.number, Pow2(x.exponent - e), Pow2(e));
    } else {
      Pow2Grows(x.exponent, e - 1);
      SmallDouble(x.number, Pow2(x.exponent), Pow2(e - 1));
    }
  }

  lemma Associate(a: int, b: int, c: int)
    ensures a * b * c == a * (b * c)
  {
  }

  lemma SmallDouble(n: nat, p: nat, half: nat)
    requires n < LIMIT && p <= half && half > 0
    ensures n * p < Pow2(52) * (2 * half)
  {
    LimitIs();
    Ordered(p, half, n);
    Above(n, LIMIT, half);
    Associate(Pow2(52), 2, half);
  }

  lemma Ordered(a: nat, b: nat, p: nat)
    requires a <= b
    ensures a * p <= b * p && p * a <= p * b
  {
    Nonneg(b - a, p);
  }

  lemma Above(a: nat, b: nat, p: nat)
    requires a < b && p > 0
    ensures a * p < b * p
  {
    Ordered(a + 1, b, p);
  }

  /** The rounded quotient, its last carry folded into the exponent. */
  function Rounded(v: nat, e: nat): Scaled {
    var m := HalfEven(v, e);
    if m == LIMIT then Scaled(LIMIT / 2, e + 1) else Scaled(m, e)
  }

  lemma RoundedValue(v: nat, e: nat)
    ensures ValueOf(Rounded(v, e)) == HalfEven(v, e) * Pow2(e)
  {
    var m := HalfEven(v, e);
    if m == LIMIT {
      assert LIMIT / 2 * Pow2(e + 1) == LIMIT / 2 * 2 * Pow2(e);
    }
  }

  /** How far `v` is from its rounded quotient's multiple. */
  function Gap(v: nat, e: nat): nat {
    var q, r := v / Pow2(e), v % Pow2(e);
    if HalfEven(v, e) == q then r else Pow2(e) - r
  }

  lemma Divides(v: nat, p: nat)
    requires p > 0
    ensures v == v / p * p + v % p && v % p < p
  {
  }

  lemma UniqueQuotient(v: nat, p: nat, q: nat, r: nat)
    requires v == q * p + r && r < p
    ensures v / p == q && v % p == r
  {
    Divides(v, p);
    Multiple(v / p, q, p);
  }

  lemma GapIs(v: nat, e: nat)
    ensures Distance(HalfEven(v, e) * Pow2(e), v) == Gap(v, e) && 2 * Gap(v, e) <= Pow2(e)
    ensures 2 * Gap(v, e) == Pow2(e) ==> HalfEven(v, e) % 2 == 0
  {
    var p := Pow2(e);
    var q := v / p;
    Divides(v, p);
    Multiple(HalfEven(v, e), q, p);
    GapBetween(v, q, q * p, p, v % p, HalfEven(v, e), HalfEven(v, e) * p);
  }

  lemma GapBetween(v: nat, q: nat, below: nat, p: nat, r: nat, m: nat, there: nat)
    requires v == below + r && r < p
    requires m == if 2 * r > p || (2 * r == p && q % 2 == 1) then q + 1 else q
    requires there == if m == q then below else below + p
    ensures var gap := if m == q then r else p - r;
      Distance(there, v) == gap && 2 * gap <= p && (2 * gap == p ==> m % 2 == 0)
  {
  }

  lemma Farther(v: nat, q: nat, below: nat, p: nat, r: nat, m: nat, x: nat)
    requires v == below + r && r < p
    requires m == if 2 * r > p || (2 * r == p && q % 2 == 1) then q + 1 else q
    requires x <= below || x >= below + p
    ensures var gap := if m == q then r else p - r; var there := if m == q then below else below + p;
      gap <= Distance(x, v) && (gap == Distance(x, v) && x != there ==> 2 * gap == p)
  {
  }

  /** Any other double is at least as far from `v`, and as far only across a tie. */
  lemma NoneNearer(x: Scaled, v: nat, e: nat)
    requires Representable(x) && e > 0 && Pow2(52) <= v / Pow2(e)
    ensures Gap(v, e) <= Distance(ValueOf(x), v)
    ensures Gap(v, e) == Distance(ValueOf(x), v) && ValueOf(x) != HalfEven(v, e) * Pow2(e) ==> 2 * Gap(v, e) == Pow2(e)
  {
    hide ValueOf, Pow2;
    var p := Pow2(e);
    var q := v / p;
    Divides(v, p);
    Multiple(HalfEven(v, e), q, p);
    Outside(x, e, q);
    Farther(v, q, q * p, p, v % p, HalfEven(v, e), ValueOf(x));
  }

  /** No double lies strictly between two multiples of 2^e that are at least 2^(52+e). */
  lemma Outside(x: Scaled, e: nat, q: nat)
    requires Representable(x) && e > 0 && Pow2(52) <= q
    ensures ValueOf(x) <= q * Pow2(e) || ValueOf(x) >= q * Pow2(e) + Pow2(e)
  {
    hide ValueOf, Pow2;
    var b := OtherDouble(x, e);
    Multiple(b, q, Pow2(e));
    Ordered(Pow2(52), q, Pow2(e));
  }

  /** Rounding at the 53rd bit answers the nearest double, ties to even. */
  lemma RoundedNearest(v: nat, e: nat)
    requires e > 0 && Pow2(52) <= v / Pow2(e) < LIMIT
    ensures Nearest(v, Rounded(v, e))
  {
    hide HalfEven, Gap, ValueOf, Pow2;
    var d := Rounded(v, e);
    RoundedValue(v, e);
    GapIs(v, e);
    forall x | Representable(x)
      ensures Gap(v, e) <= Distance(ValueOf(x), v)
      ensures Gap(v, e) == Distance(ValueOf(x), v) && ValueOf(x) != ValueOf(d) ==> 2 * Gap(v, e) == Pow2(e)
    {
      NoneNearer(x, v, e);
    }
    RoundedFits(v, e);
  }

  lemma RoundedFits(v: nat, e: nat)
    requires v / Pow2(e) < LIMIT
    ensures Representable(Rounded(v, e))
    ensures HalfEven(v, e) % 2 == 0 ==> Rounded(v, e).number % 2 == 0
  {
  }
}

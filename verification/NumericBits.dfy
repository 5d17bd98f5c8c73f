/** Bit by bit operations on words, as C has them. */
module NumericBits {
  import opened NumericModel

  function BitAnd(a: nat, b: nat): (r: nat)
    ensures r <= a && r <= b
  {
    if a == 0 || b == 0 then 0 else 2 * BitAnd(a / 2, b / 2) + (if a % 2 == 1 && b % 2 == 1 then 1 else 0)
  }

  function BitOr(a: nat, b: nat): (r: nat)
    decreases a + b
    ensures r >= a && r >= b
  {
    if a == 0 then b else if b == 0 then a
    else 2 * BitOr(a / 2, b / 2) + (if a % 2 == 1 || b % 2 == 1 then 1 else 0)
  }

  function BitXor(a: nat, b: nat): (r: nat)
    decreases a + b
  {
    if a == 0 then b else if b == 0 then a
    else 2 * BitXor(a / 2, b / 2) + (if a % 2 != b % 2 then 1 else 0)
  }

  /** Together, what two words share and what either has make their sum; and what only one has, the sum less
      twice what they share. */
  lemma {:induction false} SumOfBits(a: nat, b: nat)
    ensures BitAnd(a, b) + BitOr(a, b) == a + b
    ensures BitXor(a, b) + 2 * BitAnd(a, b) == a + b
    decreases a + b
  {
    if a > 0 && b > 0 { SumOfBits(a / 2, b / 2); }
  }

  /** A mask of ones is a remainder. */
  lemma {:induction false} MaskIsRemainder(a: nat, k: nat)
    ensures BitAnd(a, Pow2(k) - 1) == a % Pow2(k)
  {
    if k > 0 {
      MaskIsRemainder(a / 2, k - 1);
      var p := Pow2(k - 1);
      HalfRemainder(a, p);
      assert (2 * p - 1) / 2 == p - 1;
    }
  }

  lemma HalfRemainder(a: nat, p: nat)
    requires p > 0
    ensures a % (2 * p) == 2 * (a / 2 % p) + a % 2
  {
    var q, r := a / 2 / p, a / 2 % p;
    Divides(a / 2, p);
    Associate(2, q, p);
    Associate(q, 2, p);
    UniqueQuotient(a, 2 * p, q, 2 * r + a % 2);
  }

  /** Bits below and bits from `k` on do not meet. */
  lemma {:induction false} DisjointOr(high: nat, low: nat, k: nat)
    requires low < Pow2(k)
    ensures BitOr(high * Pow2(k), low) == high * Pow2(k) + low && BitAnd(high * Pow2(k), low) == 0
    decreases k
  {
    var w := high * Pow2(k);
    if k > 0 && low > 0 && w > 0 {
      Associate(high, 2, Pow2(k - 1));
      Associate(2, high, Pow2(k - 1));
      assert w == 2 * (high * Pow2(k - 1));
      DisjointOr(high, low / 2, k - 1);
    } else if low > 0 && k == 0 {
      assert false;
    }
  }

  /** The complement in `k` bits of what two words share is what either complement has. */
  lemma {:induction false} Complements(a: nat, b: nat, k: nat)
    requires a < Pow2(k) && b < Pow2(k)
    ensures BitAnd(a, b) < Pow2(k) && Pow2(k) - 1 - BitAnd(a, b) == BitOr(Pow2(k) - 1 - a, Pow2(k) - 1 - b)
  {
    hide BitAnd, BitOr;
    if k > 0 {
      var p := Pow2(k - 1);
      Complements(a / 2, b / 2, k - 1);
      HalfComplement(a, p);
      HalfComplement(b, p);
      OrHalves(2 * p - 1 - a, 2 * p - 1 - b);
      AndHalves(a, b);
    } else {
      OrHalves(0, 0);
    }
  }

  lemma HalfComplement(a: nat, p: nat)
    requires a < 2 * p
    ensures (2 * p - 1 - a) / 2 == p - 1 - a / 2 && (2 * p - 1 - a) % 2 == 1 - a % 2
  {
  }

  lemma OrHalves(a: nat, b: nat)
    ensures BitOr(a, b) == 2 * BitOr(a / 2, b / 2) + (if a % 2 == 1 || b % 2 == 1 then 1 else 0)
  {
  }

  lemma AndHalves(a: nat, b: nat)
    ensures BitAnd(a, b) == 2 * BitAnd(a / 2, b / 2) + (if a % 2 == 1 && b % 2 == 1 then 1 else 0)
  {
  }

  lemma {:induction false} XorCancels(a: nat, b: nat)
    ensures BitXor(BitXor(a, b), b) == a
    decreases a + b
  {
    if b == 0 {
    } else {
      XorHalves(a, b);
      XorHalves(BitXor(a, b), b);
      XorCancels(a / 2, b / 2);
    }
  }

  lemma XorHalves(a: nat, b: nat)
    ensures BitXor(a, b) == 2 * BitXor(a / 2, b / 2) + (if a % 2 != b % 2 then 1 else 0)
  {
  }

  lemma {:induction false} OrCommutes(a: nat, b: nat)
    ensures BitOr(a, b) == BitOr(b, a)
    decreases a + b
  {
    if a > 0 && b > 0 { OrCommutes(a / 2, b / 2); }
  }

  lemma {:induction false} Bounded(a: nat, b: nat, k: nat)
    requires a < Pow2(k) && b < Pow2(k)
    ensures BitOr(a, b) < Pow2(k) && BitXor(a, b) < Pow2(k)
    decreases k
  {
    if a > 0 && b > 0 { Bounded(a / 2, b / 2, k - 1); }
  }

  /** The top bit of `k + 1`. */
  lemma {:induction false} TopBit(a: nat, b: nat, k: nat)
    requires a < 2 * Pow2(k) && b < 2 * Pow2(k)
    ensures BitAnd(a, b) >= Pow2(k) <==> a >= Pow2(k) && b >= Pow2(k)
    ensures BitOr(a, b) >= Pow2(k) <==> a >= Pow2(k) || b >= Pow2(k)
    decreases k
  {
    if k > 0 {
      TopBit(a / 2, b / 2, k - 1);
      AndHalves(a, b);
      OrHalves(a, b);
    }
  }

  /** The bit of weight 2^i. */
  predicate Bit(a: nat, i: nat) { a / Pow2(i) % 2 == 1 }

  lemma NextBit(a: nat, i: nat)
    ensures Bit(a, i + 1) <==> Bit(a / 2, i)
  {
    var p := Pow2(i);
    Divides(a / 2, p);
    var q, r := a / 2 / p, a / 2 % p;
    Associate(2, q, p);
    Associate(q, 2, p);
    UniqueQuotient(a, 2 * p, q, 2 * r + a % 2);
  }

  lemma LowBit(a: nat)
    ensures Bit(a, 0) <==> a % 2 == 1
  {
    assert Pow2(0) == 1;
  }

  /** Each bit of the three is what it says of the two bits there. */
  lemma {:induction false} BitByBit(a: nat, b: nat, i: nat)
    ensures Bit(BitAnd(a, b), i) <==> Bit(a, i) && Bit(b, i)
    ensures Bit(BitOr(a, b), i) <==> Bit(a, i) || Bit(b, i)
    ensures Bit(BitXor(a, b), i) <==> Bit(a, i) != Bit(b, i)
    decreases i
  {
    hide Bit, Pow2;
    Halves(a, b);
    NoBits(i);
    if i == 0 {
      LowBit(a);
      LowBit(b);
      LowBit(BitAnd(a, b));
      LowBit(BitOr(a, b));
      LowBit(BitXor(a, b));
    } else {
      BitByBit(a / 2, b / 2, i - 1);
      NextBit(a, i - 1);
      NextBit(b, i - 1);
      NextBit(BitAnd(a, b), i - 1);
      NextBit(BitOr(a, b), i - 1);
      NextBit(BitXor(a, b), i - 1);
    }
  }

  lemma NoBits(i: nat)
    ensures !Bit(0, i)
  {
  }

  /** The three, a bit at a time. */
  lemma Halves(a: nat, b: nat)
    ensures BitAnd(a, b) / 2 == BitAnd(a / 2, b / 2) && BitAnd(a, b) % 2 == (if a % 2 == 1 && b % 2 == 1 then 1 else 0)
    ensures BitOr(a, b) / 2 == BitOr(a / 2, b / 2) && BitOr(a, b) % 2 == (if a % 2 == 1 || b % 2 == 1 then 1 else 0)
    ensures BitXor(a, b) / 2 == BitXor(a / 2, b / 2) && BitXor(a, b) % 2 == (if a % 2 != b % 2 then 1 else 0)
  {
  }
}

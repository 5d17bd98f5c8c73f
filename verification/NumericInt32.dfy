/** ToInt32, ToUint32 and the operators on 32 bits (sections 7.1.6, 7.1.7, 13.5.6 and 13.9 of ECMA-262;
    jsrt_numeric.c). Unsigned words are numbers below 2^32, and `~u` is what is missing from all ones. */
module NumericInt32 {
  import opened NumericModel
  import opened NumericBits

  /** A double: finite, or not. */
  datatype Double = NotFinite | Finite(value: real)

  const WORD: int := 0x1_0000_0000
  const HALF: int := 0x8000_0000

  type Word = u: int | 0 <= u < 0x1_0000_0000

  function Truncated(d: real): int { if d < 0.0 then -(-d).Floor else d.Floor }

  /** The whole number next to it toward zero. */
  lemma TruncatedIs(d: real, n: int)
    ensures Truncated(d) == n <==> if d >= 0.0 then n as real <= d < n as real + 1.0 else n as real - 1.0 < d <= n as real
  {
  }

  /** C's fmod on whole numbers: the remainder has the sign of the dividend. */
  function Fmod(a: int, b: int): int
    requires b > 0
  {
    if a < 0 then -((-a) % b) else a % b
  }

  function ToInt32(d: Double): int {
    if d.NotFinite? then 0
    else
      var mod := Fmod(Truncated(d.value), WORD);
      var m := if mod < 0 then mod + WORD else mod;
      if m >= HALF then m - WORD else m
  }

  function ToUint32(d: Double): Word {
    if d.NotFinite? then 0
    else
      var mod := Fmod(Truncated(d.value), WORD);
      if mod < 0 then mod + WORD else mod
  }

  /** What a double stands for in 32-bit arithmetic: its integer part, toward zero. */
  function IntegerOf(d: Double): int { if d.NotFinite? then 0 else Truncated(d.value) }

  /** The integer congruent to `n` modulo 2^32 that a signed word holds. */
  function Wrapped(n: int): (w: int)
    ensures -HALF <= w < HALF && (n - w) % WORD == 0
  {
    if n % WORD >= HALF then n % WORD - WORD else n % WORD
  }

  lemma WrappedUnique(n: int, w: int)
    requires -HALF <= w < HALF && (n - w) % WORD == 0
    ensures Wrapped(n) == w
  {
  }

  lemma FmodWraps(n: int)
    ensures var mod := Fmod(n, WORD); (if mod < 0 then mod + WORD else mod) == n % WORD
  {
    var q, r := (-n) / WORD, (-n) % WORD;
    assert n < 0 && r == 0 ==> n == -q * WORD;
    assert n < 0 && r > 0 ==> n == (-q - 1) * WORD + (WORD - r);
  }

  /** Both conversions are reduction modulo 2^32 of the truncated value; they differ only in sign. */
  lemma ConversionsAgree(d: Double)
    ensures ToInt32(d) == Wrapped(IntegerOf(d)) && ToUint32(d) == IntegerOf(d) % WORD
    ensures U32ToI32(ToUint32(d)) == ToInt32(d)
  {
    FmodWraps(IntegerOf(d));
  }

  /** `u32_to_i32`, every cast of a value that fits. */
  function U32ToI32(u: Word): (r: int)
    ensures -HALF <= r < HALF && (r - u) % WORD == 0
  {
    if u < HALF then u else (u - HALF) - 0x7FFF_FFFF - 1
  }

  /** The last five bits. */
  function ShiftCount(b: Double): (c: nat)
    ensures c < 32 && c == ToUint32(b) % 32
  {
    LastFive(ToUint32(b));
    BitAnd(ToUint32(b), 31)
  }

  lemma LastFive(u: nat)
    ensures BitAnd(u, 31) == u % 32
  {
    assert Pow2(5) == 32;
    MaskIsRemainder(u, 5);
  }

  function OpShl(a: Double, b: Double): int { U32ToI32(ToUint32(a) * Pow2(ShiftCount(b)) % WORD) }

  /** Right shift by hand: the vacated high bits are set when the sign bit was. */
  function OpShr(a: Double, b: Double): int {
    var bits, count := ToUint32(a), ShiftCount(b);
    WordShifts(bits, count);
    var shifted: Word := bits / Pow2(count);
    var fill: Word := WORD - 1 - (WORD - 1) / Pow2(count);
    FillJoins(bits, count, shifted, fill);
    U32ToI32(if bits >= HALF then BitOr(shifted, fill) else shifted)
  }

  /** The fill has no bit in common with what it is laid over. */
  lemma FillJoins(bits: Word, count: nat, shifted: Word, fill: Word)
    requires count < 32 && shifted == bits / Pow2(count) && fill == WORD - 1 - (WORD - 1) / Pow2(count)
    ensures BitOr(shifted, fill) == shifted + fill < WORD
  {
    hide Pow2, BitOr;
    var p, q := Pow2(count), Pow2(32 - count);
    WordSplit(count);
    WordShifts(bits, count);
    Filled(p, q);
    OrCommutes(shifted, (p - 1) * q);
    DisjointOr(p - 1, shifted, 32 - count);
  }

  lemma Filled(p: nat, q: nat)
    requires p * q == WORD
    ensures (p - 1) * q == WORD - q
  {
  }

  function OpUshr(a: Double, b: Double): int { ToUint32(a) / Pow2(ShiftCount(b)) }

  function OpAnd(a: Double, b: Double): int { U32ToI32(BitAnd(ToUint32(a), ToUint32(b))) }

  function OpOr(a: Double, b: Double): int {
    WordBounded(ToUint32(a), ToUint32(b));
    U32ToI32(BitOr(ToUint32(a), ToUint32(b)))
  }

  function OpXor(a: Double, b: Double): int {
    WordBounded(ToUint32(a), ToUint32(b));
    U32ToI32(BitXor(ToUint32(a), ToUint32(b)))
  }

  lemma WordBounded(a: Word, b: Word)
    ensures BitOr(a, b) < WORD && BitXor(a, b) < WORD
  {
    hide Pow2, BitOr, BitXor;
    WordIs();
    Bounded(a, b, 32);
  }

  function OpNot(a: Double): int { U32ToI32(WORD - 1 - ToUint32(a)) }

  lemma WordSplit(count: nat)
    requires count <= 32
    ensures Pow2(count) * Pow2(32 - count) == WORD && (WORD - 1) / Pow2(count) == Pow2(32 - count) - 1
  {
    hide Pow2;
    var p, q := Pow2(count), Pow2(32 - count);
    Pow2Add(count, 32 - count);
    WordIs();
    Regrouped(q, p);
    Quotient(WORD - 1, p, q - 1, p - 1);
  }

  lemma WordIs()
    ensures Pow2(32) == WORD
  {
    assert Pow2(8) == 0x100;
    Pow2Add(8, 8);
    Pow2Add(16, 16);
  }

  lemma Regrouped(q: int, p: int)
    ensures (q - 1) * p + (p - 1) == p * q - 1
  {
  }

  lemma DividesInt(v: int, p: nat)
    requires p > 0
    ensures v == v / p * p + v % p && 0 <= v % p < p
  {
  }

  lemma Quotient(v: int, p: nat, q: int, r: int)
    requires v == q * p + r && 0 <= r < p
    ensures v / p == q && v % p == r
  {
    DividesInt(v, p);
    Multiple(v / p, q, p);
  }

  lemma WordShifts(bits: Word, count: nat)
    requires count < 32
    ensures 0 <= bits / Pow2(count) <= (WORD - 1) / Pow2(count) <= WORD - 1
  {
    NoLarger(bits, WORD - 1, Pow2(count));
  }

  lemma NoLarger(a: nat, b: nat, p: nat)
    requires a <= b && p > 0
    ensures 0 <= a / p <= b / p <= b
  {
    Divides(a, p);
    Divides(b, p);
    Multiple(a / p, b / p, p);
    Ordered(1, p, b / p);
  }

  /** A left shift multiplies by a power of two, modulo 2^32. */
  lemma ShlMultiplies(a: Double, b: Double)
    ensures OpShl(a, b) == Wrapped(ToInt32(a) * Pow2(ShiftCount(b)))
  {
    ConversionsAgree(a);
    var p := Pow2(ShiftCount(b));
    var u, i := ToUint32(a), ToInt32(a);
    var k := (u - i) / WORD;
    assert u == i + k * WORD;
    Expand(i, k, p);
    var w := OpShl(a, b);
    var m := u * p / WORD;
    assert u * p % WORD == u * p - m * WORD;
    assert i * p - w == (m - k * p) * WORD + (u * p % WORD - w) by { Contract(m, k * p); }
    Congruent(i * p - w, m - k * p, u * p % WORD - w);
    WrappedUnique(i * p, w);
  }

  lemma Expand(i: int, k: int, p: int)
    ensures (i + k * WORD) * p == i * p + k * p * WORD
  {
  }

  lemma Contract(m: int, n: int)
    ensures (m - n) * WORD == m * WORD - n * WORD
  {
  }

  lemma Congruent(a: int, k: int, r: int)
    requires a == k * WORD + r && (r % WORD == 0 || (-r) % WORD == 0)
    ensures a % WORD == 0
  {
  }

  /** A signed right shift is division by a power of two, rounded down. */
  lemma ShrDivides(a: Double, b: Double)
    ensures OpShr(a, b) == ToInt32(a) / Pow2(ShiftCount(b))
  {
    hide Pow2, ToInt32, ToUint32, ShiftCount, BitOr;
    ConversionsAgree(a);
    var c := ShiftCount(b);
    var p, q := Pow2(c), Pow2(32 - c);
    var u := ToUint32(a);
    WordSplit(c);
    WordShifts(u, c);
    FillJoins(u, c, u / p, WORD - 1 - (WORD - 1) / p);
    if u >= HALF {
      HighBits(u, p, q);
    } else {
      NoLarger(u, HALF - 1, p);
    }
  }

  lemma HighBits(u: int, p: nat, q: nat)
    requires HALF <= u < WORD && p > 0 && p * q == WORD && (WORD - 1) / p == q - 1
    ensures var result := u / p + (WORD - 1 - (q - 1)); HALF <= result < WORD && result - WORD == (u - WORD) / p
  {
    Divides(u, p);
    Contracted(u / p, q, p);
    Quotient(u - WORD, p, u / p - q, u % p);
    Shallow(u - WORD, p);
    NoLarger(u, WORD - 1, p);
  }

  lemma Shallow(n: int, p: nat)
    requires -HALF <= n < 0 && p > 0
    ensures -HALF <= n / p
  {
    DividesInt(n, p);
    if n / p < 0 { Ordered(1, p, -(n / p)); }
    Swap(n / p, p);
  }

  lemma Swap(a: int, p: nat)
    ensures -a * p == -(a * p) && p * -a == -(a * p)
  {
  }

  lemma Contracted(m: int, q: int, p: int)
    ensures (m - q) * p == m * p - p * q
  {
  }

  /** The complement is one less than the negation. */
  lemma NotNegates(a: Double)
    ensures OpNot(a) == -ToInt32(a) - 1
  {
    ConversionsAgree(a);
  }

  /** The two right shifts differ where the sign bit is set, by what the vacated bits are worth. */
  lemma UshrFills(a: Double, b: Double)
    ensures OpUshr(a, b) - OpShr(a, b) == if ToInt32(a) < 0 then Pow2(32 - ShiftCount(b)) else 0
  {
    hide Pow2, ToInt32, ToUint32, ShiftCount;
    ConversionsAgree(a);
    ShrDivides(a, b);
    var c := ShiftCount(b);
    var u := ToUint32(a);
    WordSplit(c);
    if u >= HALF {
      var p, q := Pow2(c), Pow2(32 - c);
      Divides(u, p);
      Contracted(u / p, q, p);
      Quotient(u - WORD, p, u / p - q, u % p);
    }
  }

  /** An int32 as the operand of the next operator. */
  function Again(i: int): Double { Finite(i as real) }

  lemma WordAgain(u: Word)
    ensures ToUint32(Again(U32ToI32(u))) == u && ToInt32(Again(U32ToI32(u))) == U32ToI32(u)
  {
    var i := U32ToI32(u);
    assert Truncated(i as real) == i;
    ConversionsAgree(Again(i));
    WrappedUnique(i, i);
  }

  /** What two operands share and what either has make their sum, as int32s, sign bits and all. */
  lemma AndOrSum(a: Double, b: Double)
    ensures OpAnd(a, b) + OpOr(a, b) == ToInt32(a) + ToInt32(b)
  {
    hide Pow2, ToInt32, ToUint32, BitAnd, BitOr;
    var u, v := ToUint32(a), ToUint32(b);
    ConversionsAgree(a);
    ConversionsAgree(b);
    WordBounded(u, v);
    SumOfBits(u, v);
    HalfIs();
    TopBit(u, v, 31);
  }

  lemma HalfIs()
    ensures Pow2(31) == HALF
  {
    WordIs();
    assert Pow2(32) == 2 * Pow2(31);
  }

  /** `~(a & b) == ~a | ~b`. */
  lemma NotOfAnd(a: Double, b: Double)
    ensures OpNot(Again(OpAnd(a, b))) == OpOr(Again(OpNot(a)), Again(OpNot(b)))
  {
    hide Pow2, ToInt32, ToUint32, BitAnd, BitOr;
    var u, v := ToUint32(a), ToUint32(b);
    WordIs();
    Complements(u, v, 32);
    WordAgain(BitAnd(u, v));
    WordAgain(WORD - 1 - u);
    WordAgain(WORD - 1 - v);
  }

  /** `a ^ b ^ b` is `a`. */
  lemma XorTwice(a: Double, b: Double)
    ensures OpXor(Again(OpXor(a, b)), b) == ToInt32(a)
  {
    hide Pow2, ToInt32, ToUint32, BitXor;
    var u, v := ToUint32(a), ToUint32(b);
    WordBounded(u, v);
    WordAgain(BitXor(u, v));
    XorCancels(u, v);
    ConversionsAgree(a);
  }

  /** Each bit of bitand, bitor and bitxor is that of the two words there. */
  lemma OpsBitByBit(a: Double, b: Double, i: nat)
    ensures var u, v := ToUint32(a), ToUint32(b);
      && (Bit(OpAnd(a, b) % WORD, i) <==> Bit(u, i) && Bit(v, i))
      && (Bit(OpOr(a, b) % WORD, i) <==> Bit(u, i) || Bit(v, i))
      && (Bit(OpXor(a, b) % WORD, i) <==> Bit(u, i) != Bit(v, i))
  {
    hide Pow2, ToUint32, BitAnd, BitOr, BitXor, Bit;
    var u, v := ToUint32(a), ToUint32(b);
    WordBounded(u, v);
    BitByBit(u, v, i);
    SignedBack(BitAnd(u, v));
    SignedBack(BitOr(u, v));
    SignedBack(BitXor(u, v));
  }

  lemma SignedBack(u: Word)
    ensures U32ToI32(u) % WORD == u
  {
  }
}

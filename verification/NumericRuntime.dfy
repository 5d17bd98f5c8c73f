/** parseInt's digit loops and the 32-bit operators as the runtime runs them (jsrt_numeric.c). */
module NumericRuntime {
  import opened NumericModel
  import opened NumericDouble
  import CodecModel

  type Unit = CodecModel.Unit

  /** The value of a unit as a digit, or 36. */
  function DigitValue(ch: nat): (d: nat)
    ensures d <= 36
  {
    if 48 <= ch <= 57 then ch - 48
    else if 97 <= ch <= 122 then ch - 97 + 10
    else if 65 <= ch <= 90 then ch - 65 + 10
    else 36
  }

  predicate AllDigits(s: seq<Unit>, radix: nat) { forall i :: 0 <= i < |s| ==> DigitValue(s[i]) < radix }

  /** The integer a digit string denotes. */
  function Denoted(s: seq<Unit>, radix: nat): nat {
    if s == [] then 0 else Denoted(s[..|s| - 1], radix) * radix + DigitValue(s[|s| - 1])
  }

  function Power(b: nat, k: nat): nat { if k == 0 then 1 else b * Power(b, k - 1) }

  lemma DenotedNext(s: seq<Unit>, i: nat, j: nat, radix: nat)
    requires i <= j < |s|
    ensures Denoted(s[i..j + 1], radix) == Denoted(s[i..j], radix) * radix + DigitValue(s[j])
  {
    assert s[i..j + 1][..j - i] == s[i..j];
  }

  lemma {:induction false} DenotedSplit(a: seq<Unit>, b: seq<Unit>, radix: nat)
    ensures Denoted(a + b, radix) == Denoted(a, radix) * Power(radix, |b|) + Denoted(b, radix)
    decreases |b|
  {
    if b == [] {
      assert a + b == a;
    } else {
      var n := |b| - 1;
      DenotedSplit(a, b[..n], radix);
      assert (a + b)[..|a + b| - 1] == a + b[..n];
      Distribute(Denoted(a, radix), Power(radix, n), Denoted(b[..n], radix), radix);
    }
  }

  lemma Distribute(a: int, p: int, c: int, r: int)
    ensures (a * p + c) * r == a * (r * p) + c * r
  {
  }

  lemma {:induction false} DenotedBound(s: seq<Unit>, radix: nat)
    requires AllDigits(s, radix)
    ensures Denoted(s, radix) < Power(radix, |s|)
    decreases |s|
  {
    if s != [] {
      var n := |s| - 1;
      DenotedBound(s[..n], radix);
      Carry(Denoted(s[..n], radix), Power(radix, n), DigitValue(s[n]), radix);
    }
  }

  lemma Carry(v: nat, p: nat, d: nat, radix: nat)
    requires v < p && d < radix
    ensures v * radix + d < radix * p
  {
    Ordered(v + 1, p, radix);
  }

  lemma {:induction false} PowerOfTwo(bits: nat, k: nat)
    ensures Power(Pow2(bits), k) == Pow2(bits * k)
  {
    if k > 0 {
      PowerOfTwo(bits, k - 1);
      Pow2Add(bits, bits * (k - 1));
      assert bits * k == bits + bits * (k - 1);
    }
  }

  // ---------------------------------------------------------------- rounding

  /** What the kept bits, the dropped bits and the tail say about the remainder. */
  lemma WindowRounds(v: nat, n: nat, o: nat, k: nat, tail: nat)
    requires v == n * Pow2(k) + tail && tail < Pow2(k) && o > 0
    ensures var dropped, middle := n % Pow2(o), Pow2(o - 1); var q, r, p := v / Pow2(o + k), v % Pow2(o + k), Pow2(o + k);
      && q == n / Pow2(o)
      && (2 * r > p <==> dropped > middle || (dropped == middle && tail > 0))
      && (2 * r == p <==> dropped == middle && tail == 0)
  {
    var d, q := n % Pow2(o), n / Pow2(o);
    var w := Pow2(k);
    Pow2Add(o, k);
    Divides(n, Pow2(o));
    var r := d * w + tail;
    Carry(tail, w, 0, 1);
    Ordered(d + 1, Pow2(o), w);
    Regroup(q, Pow2(o), d, w);
    assert v == q * Pow2(o + k) + r && r < Pow2(o + k);
    UniqueQuotient(v, Pow2(o + k), q, r);
    Compare(d, Pow2(o - 1), w, tail);
    Associate(2, Pow2(o - 1), w);
  }

  lemma Regroup(q: nat, p: nat, d: nat, w: nat)
    ensures (q * p + d) * w == q * (p * w) + d * w && (d + 1) * w == d * w + w
  {
  }

  lemma Compare(d: nat, m: nat, w: nat, tail: nat)
    requires tail < w
    ensures d * w + tail > m * w <==> d > m || (d == m && tail > 0)
    ensures d * w + tail == m * w <==> d == m && tail == 0
  {
    Multiple(d, m, w);
    if d > m { Ordered(m + 1, d, w); }
  }

  /** Digits until the value needs more than 53 bits; the accumulator stays below 2^58. */
  method Accumulate(s: seq<Unit>, start: nat, end: nat, bits: nat) returns (number: nat, i: nat)
    requires start <= end <= |s| && 1 <= bits <= 5 && AllDigits(s[start..end], Pow2(bits))
    ensures start <= i <= end && number == Denoted(s[start..i], Pow2(bits)) && number < LIMIT * Pow2(bits)
    ensures number < LIMIT ==> i == end
  {
    number, i := 0, start;
    while i < end
      invariant start <= i <= end && number == Denoted(s[start..i], Pow2(bits)) && number < LIMIT
    {
      assert s[start..end][i - start] == s[i];
      DenotedNext(s, start, i, Pow2(bits));
      Carry(number, LIMIT, DigitValue(s[i]), Pow2(bits));
      number := number * Pow2(bits) + DigitValue(s[i]);
      i := i + 1;
      if number >= LIMIT {
        return;
      }
    }
    Ordered(1, Pow2(bits), LIMIT);
  }

  /** How many bits a value is over 53. */
  method OverflowBits(number: nat, bits: nat) returns (o: nat)
    requires LIMIT <= number < LIMIT * Pow2(bits)
    ensures 1 <= o <= bits && LIMIT / 2 <= number / Pow2(o) < LIMIT
  {
    o := 1;
    assert bits > 0;
    assert number / Pow2(0) == number;
    while number / Pow2(o) >= LIMIT
      invariant o >= 1 && number / Pow2(o - 1) >= LIMIT
      invariant o <= bits
      decreases bits - o
    {
      if o == bits { TooFar(number, Pow2(bits)); }
      o := o + 1;
    }
    HalvesDown(number, o);
  }

  lemma TooFar(number: nat, p: nat)
    requires p > 0 && number < LIMIT * p
    ensures number / p < LIMIT
  {
    Divides(number, p);
    if number / p >= LIMIT { Ordered(LIMIT, number / p, p); }
  }

  lemma HalvesDown(number: nat, o: nat)
    requires o > 0 && number / Pow2(o - 1) >= LIMIT
    ensures number / Pow2(o) >= LIMIT / 2
  {
    var p := Pow2(o - 1);
    Divides(number, p);
    Divides(number, 2 * p);
    if number / (2 * p) < LIMIT / 2 {
      Ordered(number / (2 * p) + 1, LIMIT / 2, 2 * p);
      Ordered(LIMIT, number / p, p);
    }
  }

  /** The rest of the digits: each raises the exponent, and any but zero spoils a tie. */
  method Tail(s: seq<Unit>, from: nat, end: nat, bits: nat, overflow: nat) returns (exponent: nat, zeroTail: bool)
    requires from <= end <= |s|
    ensures exponent == overflow + bits * (end - from)
    ensures zeroTail <==> Denoted(s[from..end], Pow2(bits)) == 0
  {
    exponent, zeroTail := overflow, true;
    var i := from;
    assert s[from..from] == [];
    while i < end
      invariant from <= i <= end && exponent == overflow + bits * (i - from)
      invariant zeroTail <==> Denoted(s[from..i], Pow2(bits)) == 0
    {
      DenotedNext(s, from, i, Pow2(bits));
      StaysZero(Denoted(s[from..i], Pow2(bits)), Pow2(bits), DigitValue(s[i]));
      if DigitValue(s[i]) != 0 {
        zeroTail := false;
      }
      assert bits * (i + 1 - from) == bits * (i - from) + bits;
      exponent := exponent + bits;
      i := i + 1;
    }
  }

  lemma StaysZero(v: nat, radix: nat, d: nat)
    requires radix > 0
    ensures v * radix + d == 0 <==> v == 0 && d == 0
  {
    if v > 0 { Ordered(1, v, radix); }
  }

  /** `ldexp` of a number of 53 bits. */
  function Ldexp(number: nat, exponent: nat): Magnitude { Capped(Scaled(number, exponent)) }

  /** Digits in radix 2, 4, 8, 16 or 32: rounded once, to the nearest double, a tie to even, or to Infinity
      from half a last bit below 2^1024 on. */
  method ParsePowerOfTwo(s: seq<Unit>, start: nat, end: nat, bits: nat) returns (x: Magnitude)
    requires start <= end <= |s| && 1 <= bits <= 5 && AllDigits(s[start..end], Pow2(bits))
    ensures var v := Denoted(s[start..end], Pow2(bits));
      && x == DoubleOf(v)
      && (x.Finite? ==> Nearest(v, x.d)) && (x == Infinity <==> v >= Pow2(TOP) - Pow2(TOP - 54))
      && (v < LIMIT ==> x == Finite(Scaled(v, 0)))
  {
    hide HalfEven, Nearest, Denoted, Pow2, TooLarge, Excess, Capped, Round53, Rounded, DoubleOf;
    ghost var v := Denoted(s[start..end], Pow2(bits));
    DoubleMeans(v);
    var number, i := Accumulate(s, start, end, bits);
    if number < LIMIT {
      SmallLdexp(v);
      return Ldexp(number, 0);
    }
    var overflow := OverflowBits(number, bits);
    RoundsWindow(s, start, i, end, bits, number, overflow);
    var dropped := number % Pow2(overflow);
    number := number / Pow2(overflow);
    var exponent, zeroTail := Tail(s, i, end, bits, overflow);
    var middle := Pow2(overflow - 1);
    if dropped > middle || (dropped == middle && (number % 2 == 1 || !zeroTail)) {
      number := number + 1;
      if number == LIMIT {
        number := number / 2;
        exponent := exponent + 1;
      }
    }
    return Ldexp(number, exponent);
  }

  /** The value from its 53 leading bits, those dropped from the digits read by then, and the other digits. */
  lemma RoundsWindow(s: seq<Unit>, start: nat, i: nat, end: nat, bits: nat, whole: nat, overflow: nat)
    requires start <= i <= end <= |s| && 1 <= bits && AllDigits(s[start..end], Pow2(bits))
    requires whole == Denoted(s[start..i], Pow2(bits)) && 1 <= overflow && LIMIT / 2 <= whole / Pow2(overflow) < LIMIT
    ensures var (number, dropped, middle) := (whole / Pow2(overflow), whole % Pow2(overflow), Pow2(overflow - 1));
      var e := overflow + bits * (end - i);
      var up := dropped > middle || (dropped == middle && (number % 2 == 1 || Denoted(s[i..end], Pow2(bits)) != 0));
      var m := if up then number + 1 else number;
      DoubleOf(Denoted(s[start..end], Pow2(bits))) == if m == LIMIT then Ldexp(LIMIT / 2, e + 1) else Ldexp(m, e)
  {
    hide HalfEven, Denoted, Pow2, Capped, Round53, Rounded, DoubleOf, Ldexp, AllDigits;
    var v, rest := Denoted(s[start..end], Pow2(bits)), Denoted(s[i..end], Pow2(bits));
    var e := overflow + bits * (end - i);
    SplitWindow(s, start, i, end, bits);
    WindowRounds(v, whole, overflow, bits * (end - i), rest);
    WindowIs(v, e, whole / Pow2(overflow), whole % Pow2(overflow), Pow2(overflow - 1), rest);
    SameWindow(v, e, whole / Pow2(overflow));
    RoundedIs(v, e);
  }

  lemma SmallLdexp(v: nat)
    requires DoubleOf(v) == Finite(Scaled(v, 0))
    ensures Ldexp(v, 0) == DoubleOf(v)
  {
    hide TooLarge, ValueOf;
  }

  /** What the double of a number is to it. */
  lemma DoubleMeans(v: nat)
    ensures var x := DoubleOf(v);
      && (x.Finite? ==> Nearest(v, x.d)) && (x == Infinity <==> v >= Pow2(TOP) - Pow2(TOP - 54))
      && (v < LIMIT ==> x == Finite(Scaled(v, 0)))
  {
    hide Nearest, Pow2, Round53;
    OverflowsFrom(v);
    Round53Nearest(v);
    if v < LIMIT { NotTooLarge(v); }
  }

  lemma RoundedIs(v: nat, e: nat)
    requires Round53(v) == Rounded(v, e)
    ensures var m := HalfEven(v, e); DoubleOf(v) == if m == LIMIT then Ldexp(LIMIT / 2, e + 1) else Ldexp(m, e)
  {
  }

  lemma NotTooLarge(v: nat)
    requires v < LIMIT
    ensures DoubleOf(v) == Finite(Scaled(v, 0))
  {
    hide Pow2;
    LimitIs();
    SmallIsExact(v);
    Pow2Grows(53, TOP);
  }

  lemma SplitWindow(s: seq<Unit>, start: nat, i: nat, end: nat, bits: nat)
    requires start <= i <= end <= |s| && AllDigits(s[start..end], Pow2(bits))
    ensures var k := bits * (end - i); var rest := Denoted(s[i..end], Pow2(bits));
      && Denoted(s[start..end], Pow2(bits)) == Denoted(s[start..i], Pow2(bits)) * Pow2(k) + rest && rest < Pow2(k)
  {
    assert s[start..end] == s[start..i] + s[i..end];
    DenotedSplit(s[start..i], s[i..end], Pow2(bits));
    PowerOfTwo(bits, end - i);
    forall k | 0 <= k < end - i ensures DigitValue(s[i..end][k]) < Pow2(bits) {
      assert s[i..end][k] == s[start..end][i - start + k];
    }
    DenotedBound(s[i..end], Pow2(bits));
  }

  lemma WindowIs(v: nat, e: nat, number: nat, dropped: nat, middle: nat, rest: nat)
    requires v / Pow2(e) == number
    requires var r := v % Pow2(e);
      && (2 * r > Pow2(e) <==> dropped > middle || (dropped == middle && rest > 0))
      && (2 * r == Pow2(e) <==> dropped == middle && rest == 0)
    ensures HalfEven(v, e) ==
      if dropped > middle || (dropped == middle && (number % 2 == 1 || rest != 0)) then number + 1 else number
  {
  }

  lemma SameWindow(v: nat, e: nat, number: nat)
    requires e > 0 && v / Pow2(e) == number && LIMIT / 2 <= number < LIMIT
    ensures Round53(v) == Rounded(v, e)
  {
    LimitIs();
    ExcessUnique(v, e);
  }
}

/** The integer half of Number.prototype.toString(radix), in doubles that round (jsrt_number_methods.c). Nothing is
    asked of the rounding but that it crosses no double, which each of IEEE 754's directions promises. */
module NumericRadix {
  import opened NumericModel
  import opened NumericDouble
  import opened NumericRuntime
  import opened NumericText

  type Rounding = real -> real

  // ---------------------------------------------------------------- doubles as real numbers

  ghost predicate Scales(x: real, n: nat, k: nat) { Fits53(n) && x * Pow2(k) as real == n as real }

  /** A number of 53 bits over a power of two. */
  ghost predicate IsDouble(x: real) { exists n: nat, k: nat :: Scales(x, n, k) }

  /** What `x` rounds to is a double, and there is none between. */
  ghost predicate Between(round: Rounding, x: real) {
    IsDouble(round(x)) && forall d :: IsDouble(d) ==> (d <= x ==> d <= round(x)) && (x <= d ==> round(x) <= d)
  }

  ghost predicate Faithful(round: Rounding) { forall x :: x >= 0.0 ==> Between(round, x) }

  lemma RoundsDouble(round: Rounding, x: real)
    requires Faithful(round) && x >= 0.0 && IsDouble(x)
    ensures round(x) == x
  {
    hide IsDouble;
    assert Between(round, x);
  }

  lemma NatIsDouble(n: nat)
    requires Fits53(n)
    ensures IsDouble(n as real)
  {
    assert Pow2(0) == 1;
    assert Scales(n as real, n, 0);
  }

  lemma SmallIsDouble(n: nat)
    requires n < LIMIT
    ensures Fits53(n) && IsDouble(n as real)
  {
    SmallIsExact(n);
    FitsWhen(n);
    NatIsDouble(n);
  }

  lemma HalfIsDouble(x: real)
    requires IsDouble(x)
    ensures IsDouble(x / 2.0)
  {
    var n: nat, k: nat :| Scales(x, n, k);
    assert Pow2(k + 1) as real == 2.0 * Pow2(k) as real;
    Halves(x, Pow2(k) as real);
    assert Scales(x / 2.0, n, k + 1);
  }

  lemma Halves(x: real, p: real)
    ensures x / 2.0 * (2.0 * p) == x * p
  {
  }

  // ---------------------------------------------------------------- one digit

  function Prod(a: real, b: real): real { a * b }

  /** How often the radix goes into a number. */
  function Quo(x: real, radix: nat): (i: nat)
    requires x >= 0.0 && radix > 0
    ensures Prod(i as real, radix as real) <= x < Prod(i as real, radix as real) + radix as real
  {
    FloorTimes(x, radix as real, (x / radix as real).Floor);
    (x / radix as real).Floor
  }

  /** fmod of two doubles. */
  function Fmod(x: real, radix: nat): (r: real)
    requires x >= 0.0 && radix > 0
    ensures 0.0 <= r < radix as real
  {
    x - Prod(Quo(x, radix) as real, radix as real)
  }

  lemma FloorTimes(x: real, r: real, i: int)
    requires r > 0.0 && x >= 0.0 && i == (x / r).Floor
    ensures i >= 0 && Prod(i as real, r) <= x < Prod(i as real, r) + r
  {
    hide Prod;
    var q := x / r;
    Recovered(x, r);
    NotNegative(q, r);
    Enclosed2(q, i as real, i as real + 1.0, r);
  }

  lemma NotNegative(q: real, r: real)
    requires r > 0.0 && Prod(q, r) >= 0.0
    ensures q >= 0.0
  {
    if q < 0.0 { Scaled2(q, 0.0, r); }
  }

  lemma Enclosed2(q: real, f: real, g: real, r: real)
    requires r > 0.0 && f <= q < g && g == f + 1.0
    ensures Prod(f, r) <= Prod(q, r) < Prod(f, r) + r
  {
    hide Prod;
    Scaled2(f, q, r);
    Scaled2(q, g, r);
    OneMore(f, g, r);
  }

  lemma Recovered(x: real, r: real)
    requires r > 0.0
    ensures x / r * r == x == Prod(x / r, r)
  {
  }

  lemma OneMore(f: real, g: real, r: real)
    requires g == f + 1.0
    ensures Prod(g, r) == Prod(f, r) + r
  {
  }

  lemma Scaled2(a: real, b: real, r: real)
    requires r > 0.0
    ensures a <= b ==> Prod(a, r) <= Prod(b, r)
    ensures a < b ==> Prod(a, r) < Prod(b, r)
  {
    if a < b { assert (b - a) * r > 0.0; assert b * r == a * r + (b - a) * r; }
  }

  lemma QuotientLess(x: real, z: real, r: real)
    requires 0.0 <= z <= x && r >= 2.0
    ensures 0.0 <= z / r <= x / 2.0
  {
    var q := z / r;
    assert q * r == z;
    if q < 0.0 { Scaled2(q, 0.0, r); }
    Grow(x / 2.0, r);
    var half := x / 2.0;
    if q > half { Scaled2(half, q, r); }
  }

  lemma Grow(y: real, r: real)
    requires y >= 0.0 && r >= 2.0
    ensures y * r >= 2.0 * y
  {
    assert y * (r - 2.0) >= 0.0;
    assert y * r == y * (r - 2.0) + 2.0 * y;
  }

  lemma QuotientMore(z: real, r: real)
    requires r > 0.0 && z >= r
    ensures z / r >= 1.0
  {
    var q := z / r;
    assert q * r == z;
    if q < 1.0 { Scaled2(q, 1.0, r); }
  }

  /** Dividing a double by the radix at least halves it, however the quotient is rounded. */
  lemma DividedOnce(round: Rounding, x: real, radix: nat)
    requires Faithful(round) && 2 <= radix <= 36 && x >= 0.0 && IsDouble(x)
    ensures var y := round(x / radix as real); 0.0 <= y <= x / 2.0 && IsDouble(y)
  {
    QuotientLess(x, x, radix as real);
    HalfIsDouble(x);
    SmallIsDouble(0);
    assert Between(round, x / radix as real);
  }

  /** What the remainder leaves: nothing below the radix, else at least the radix. */
  lemma RestIs(x: real, radix: nat)
    requires 2 <= radix <= 36 && x >= 0.0
    ensures var rest := x - Fmod(x, radix);
      rest <= x && if x < radix as real then rest == 0.0 else rest >= radix as real
  {
    hide Quo, Prod;
    Multiples(Quo(x, radix), radix as real);
  }

  lemma Multiples(i: nat, r: real)
    requires r > 0.0
    ensures i == 0 ==> Prod(i as real, r) == 0.0
    ensures i >= 1 ==> Prod(i as real, r) >= r
  {
    if i >= 1 { Scaled2(1.0, i as real, r); }
  }

  /** A digit taken off leaves at most half, and nothing only below the radix. */
  lemma DigitTaken(round: Rounding, x: real, radix: nat)
    requires Faithful(round) && 2 <= radix <= 36 && x >= 0.0 && IsDouble(x)
    ensures x - Fmod(x, radix) >= 0.0 && round(x - Fmod(x, radix)) >= 0.0
    ensures var y := round(round(x - Fmod(x, radix)) / radix as real);
      && 0.0 <= y <= x / 2.0 && IsDouble(y)
      && (if x < radix as real then y == 0.0 else y >= 1.0)
  {
    hide IsDouble, Fmod;
    var r := radix as real;
    var rest := x - Fmod(x, radix);
    RestIs(x, radix);
    SmallIsDouble(0);
    SmallIsDouble(1);
    SmallIsDouble(radix);
    if x < r {
      RoundsDouble(round, 0.0);
      assert 0.0 / r == 0.0;
    } else {
      assert Between(round, rest) && IsDouble(r);
      QuotientLess(x, round(rest), r);
      QuotientMore(round(rest), r);
      HalfIsDouble(x);
      assert Between(round, round(rest) / r);
    }
  }

  // ---------------------------------------------------------------- where the digits are exact

  /** The radix divides doubles without rounding, or the number is small. */
  predicate Exact(n: nat, radix: nat) { Fits53(n) && (IsBinary(radix) || n < LIMIT) }

  lemma Witness(n: nat) returns (d: Scaled)
    requires Fits53(n)
    ensures Representable(d) && ValueOf(d) == n
  {
    FitsWhen(n);
    d :| Representable(d) && ValueOf(d) == n;
  }

  lemma FitsBy(d: Scaled)
    requires Representable(d)
    ensures Fits53(ValueOf(d))
  {
    FitsWhen(ValueOf(d));
  }

  lemma BinaryIs(radix: nat) returns (b: nat)
    requires IsBinary(radix)
    ensures radix == Pow2(b) && b >= 1
  {
    PowersTo64();
    b := if radix == 2 then 1 else if radix == 4 then 2 else if radix == 8 then 3 else if radix == 16 then 4 else 5;
  }

  /** The quotient of a double by a power of two, rounded down, is a double, and so is its multiple. */
  lemma FloorFits(n: nat, b: nat)
    requires Fits53(n)
    ensures Fits53(n / Pow2(b)) && Fits53(n / Pow2(b) * Pow2(b))
  {
    hide Fits53, ValueOf, Pow2;
    var d := Witness(n);
    var p := Pow2(b);
    if d.exponent >= b {
      var x := Scaled(d.number, d.exponent - b);
      Lower(d, b);
      UniqueQuotient(n, p, ValueOf(x), 0);
      FitsBy(x);
      assert ValueOf(x) * p == n;
    } else {
      QuotientSmall(d, b);
      var x := Scaled(n / p, 0);
      FitsBy(x);
      FitsBy(Scaled(n / p, b));
      Plain(n / p, b);
    }
  }

  lemma Lower(d: Scaled, b: nat)
    requires b <= d.exponent
    ensures ValueOf(d) == ValueOf(Scaled(d.number, d.exponent - b)) * Pow2(b)
  {
    hide Pow2;
    Pow2Add(d.exponent - b, b);
    Associate(d.number, Pow2(d.exponent - b), Pow2(b));
  }

  lemma QuotientSmall(d: Scaled, b: nat)
    requires Representable(d) && d.exponent < b
    ensures ValueOf(d) / Pow2(b) < LIMIT
  {
    hide Pow2;
    Pow2Grows(d.exponent, b);
    Ordered(Pow2(d.exponent), Pow2(b), d.number);
    Above(d.number, LIMIT, Pow2(b));
    QuotientIn(ValueOf(d), Pow2(b), 0, LIMIT);
  }

  lemma Plain(n: nat, b: nat)
    ensures ValueOf(Scaled(n, 0)) == n && ValueOf(Scaled(n, b)) == n * Pow2(b)
  {
  }

  /** A long double has no low bits, so its last digit in a binary radix is zero. */
  lemma LongHasNoBits(n: nat, b: nat)
    requires Fits53(n) && n >= LIMIT * Pow2(b)
    ensures n % Pow2(b) == 0
  {
    hide Fits53, ValueOf, Pow2;
    var d := Witness(n);
    if d.exponent < b {
      QuotientSmall(d, b);
      QuotientAtLeast(n, Pow2(b));
    } else {
      Lower(d, b);
      UniqueQuotient(n, Pow2(b), ValueOf(Scaled(d.number, d.exponent - b)), 0);
    }
  }

  lemma QuotientAtLeast(n: nat, p: nat)
    requires p > 0 && n >= LIMIT * p
    ensures n / p >= LIMIT
  {
    Divides(n, p);
    if n / p < LIMIT { Ordered(n / p + 1, LIMIT, p); }
  }

  lemma NatFloor(n: nat, radix: nat)
    requires radix > 0
    ensures Quo(n as real, radix) == n / radix
    ensures Fmod(n as real, radix) == (n % radix) as real
    ensures n as real - Fmod(n as real, radix) == (n / radix * radix) as real
    ensures (n / radix * radix) as real / radix as real == (n / radix) as real
  {
    hide Quo, Prod;
    var i := Quo(n as real, radix);
    Casts(i, radix);
    assert i * radix <= n < i * radix + radix;
    UniqueQuotient(n, radix, i, n - i * radix);
    Cancels(i as real, radix as real);
  }

  lemma Casts(a: int, b: int)
    ensures (a * b) as real == a as real * b as real == Prod(a as real, b as real)
  {
  }

  lemma Cancels(a: real, r: real)
    requires r > 0.0
    ensures a * r / r == a
  {
    var q := a * r / r;
    Recovered(a * r, r);
    if q < a { Scaled2(q, a, r); }
    if q > a { Scaled2(a, q, r); }
  }

  lemma ExactFits(n: nat, radix: nat)
    requires Exact(n, radix) && 2 <= radix <= 36
    ensures Exact(n / radix, radix) && Fits53(n / radix * radix)
  {
    hide Fits53;
    Divides(n, radix);
    Shrinks(n, radix);
    if IsBinary(radix) {
      var b := BinaryIs(radix);
      FloorFits(n, b);
    } else {
      SmallIsDouble(n / radix);
      SmallIsDouble(n / radix * radix);
    }
  }

  /** A digit of such a number, and the rest, are what integer division says. */
  lemma DigitExact(round: Rounding, n: nat, radix: nat)
    requires Faithful(round) && 2 <= radix <= 36 && Exact(n, radix)
    ensures Fmod(n as real, radix) == (n % radix) as real && Exact(n / radix, radix)
    ensures round(round(n as real - Fmod(n as real, radix)) / radix as real) == (n / radix) as real
  {
    hide Fits53, Faithful, IsDouble, Fmod, Quo;
    NatFloor(n, radix);
    ExactFits(n, radix);
    NatIsDouble(n / radix * radix);
    NatIsDouble(n / radix);
    RoundsDouble(round, (n / radix * radix) as real);
    RoundsDouble(round, (n / radix) as real);
  }

  /** While the quotient is long, the digit is zero and the quotient exact. */
  lemma ZeroExact(round: Rounding, n: nat, radix: nat)
    requires Faithful(round) && 2 <= radix <= 36 && Exact(n, radix) && round(n as real / radix as real) >= LIMIT as real
    ensures n % radix == 0 && n / radix >= LIMIT && Exact(n / radix, radix)
    ensures round(n as real / radix as real) == (n / radix) as real
  {
    hide Fits53, Faithful, IsDouble;
    NatIsDouble(n);
    DividedOnce(round, n as real, radix);
    var b := BinaryIs(radix);
    QuotientIsDouble(n as real, b);
    RoundsDouble(round, n as real / radix as real);
    var q := n as real / radix as real;
    Recovered(n as real, radix as real);
    Scaled2(LIMIT as real, q, radix as real);
    Casts(LIMIT, radix);
    LongHasNoBits(n, b);
    QuotientAtLeast(n, radix);
    NatFloor(n, radix);
    Divides(n, radix);
    ExactFits(n, radix);
  }

  lemma QuotientIsDouble(x: real, b: nat)
    requires IsDouble(x)
    ensures IsDouble(x / Pow2(b) as real)
  {
    hide Pow2, Fits53, Prod, Scales, IsDouble;
    var n, k := PartsOf(x);
    var p, q := Pow2(k) as real, Pow2(b) as real;
    var y := x / q;
    Pow2Add(k, b);
    Casts(Pow2(k), Pow2(b));
    Recovered(x, q);
    Regrouped(x, y, p, q);
    assert Pow2(k + b) as real == Prod(p, q);
    ScaleBy(y, n, k + b, Prod(p, q));
  }

  lemma PartsOf(x: real) returns (n: nat, k: nat)
    requires IsDouble(x)
    ensures Fits53(n) && Prod(x, Pow2(k) as real) == n as real
  {
    hide Fits53;
    n, k :| Scales(x, n, k);
  }

  lemma ScaleBy(y: real, n: nat, k: nat, p: real)
    requires Fits53(n) && p == Pow2(k) as real && Prod(y, p) == n as real
    ensures IsDouble(y)
  {
    hide Fits53, Pow2;
    assert Scales(y, n, k);
  }

  lemma Regrouped(x: real, y: real, p: real, q: real)
    requires x == Prod(y, q)
    ensures Prod(y, Prod(p, q)) == Prod(x, p)
  {
  }

  // ---------------------------------------------------------------- rounding toward zero is one

  /** A whole number cut to its 53 leading bits. */
  function CutBits(v: nat): nat {
    LowBits(v, Pow2(Excess(v)));
    v - v % Pow2(Excess(v))
  }

  lemma LowBits(v: nat, p: nat)
    requires p > 0
    ensures 0 <= v % p <= v
  {
    Divides(v, p);
    Nonneg(v / p, p);
  }

  lemma CutIs(v: nat)
    requires v >= LIMIT
    ensures LIMIT <= CutBits(v) <= v && Fits53(CutBits(v))
  {
    hide Pow2, Excess;
    var e := Excess(v);
    LimitIs();
    ExcessIs(v);
    Divides(v, Pow2(e));
    UniqueQuotient(CutBits(v), Pow2(e), v / Pow2(e), 0);
    ExcessUnique(CutBits(v), e);
  }

  /** No number of 53 bits lies between. */
  lemma CutIsLargest(v: nat, n: nat)
    requires v >= LIMIT && n <= v && Fits53(n)
    ensures n <= CutBits(v)
  {
    hide Pow2, Excess;
    if n > CutBits(v) {
      var e := Excess(v);
      var p := Pow2(e);
      LimitIs();
      ExcessIs(v);
      Divides(v, p);
      UniqueQuotient(n, p, v / p, n - CutBits(v));
      ExcessUnique(n, e);
    }
  }

  /** How far to the left a positive number goes to have 53 bits before its point. */
  function Lift(x: real): nat
    requires x > 0.0
  {
    Positive(x);
    (LIMIT as real / x).Floor + 1
  }

  lemma Positive(x: real)
    requires x > 0.0
    ensures LIMIT as real / x >= 0.0
  {
    Recovered(LIMIT as real, x);
    NotNegative(LIMIT as real / x, x);
  }

  lemma {:induction false} Pow2Above(n: nat)
    ensures Pow2(n) > n
  {
    if n > 0 { Pow2Above(n - 1); }
  }

  lemma Lifted(x: real)
    requires x > 0.0
    ensures Prod(x, Pow2(Lift(x)) as real) >= LIMIT as real
  {
    hide Pow2, Prod;
    var q := LIMIT as real / x;
    Positive(x);
    Recovered(LIMIT as real, x);
    Pow2Above(Lift(x));
    Scaled2(q, Pow2(Lift(x)) as real, x);
    Swap(x, Pow2(Lift(x)) as real);
  }

  lemma Swap(a: real, b: real)
    ensures Prod(a, b) == Prod(b, a)
  {
  }

  function TowardZero(x: real): real {
    if x <= 0.0 then x else CutBits(Whole(x)) as real / Pow2(Lift(x)) as real
  }

  function Whole(x: real): nat
    requires x > 0.0
  {
    Lifted(x);
    Prod(x, Pow2(Lift(x)) as real).Floor
  }

  lemma TowardZeroIs(x: real)
    requires x > 0.0
    ensures IsDouble(TowardZero(x)) && TowardZero(x) <= x
  {
    hide Pow2, Prod, CutBits, Fits53, IsDouble, Lift;
    var p, v := Pow2(Lift(x)) as real, Whole(x);
    Lifted(x);
    CutIs(v);
    Recovered(CutBits(v) as real, p);
    ScaleBy(TowardZero(x), CutBits(v), Lift(x), p);
    if TowardZero(x) > x { Scaled2(x, TowardZero(x), p); }
  }

  /** A double that is no larger is no larger than what is left. */
  lemma TowardZeroIsLargest(x: real, d: real)
    requires x > 0.0 && IsDouble(d) && d <= x
    ensures d <= TowardZero(x)
  {
    hide Pow2, Prod, CutBits, Fits53, IsDouble, Lift;
    var n, k := PartsOf(d);
    var b, v := Lift(x), Whole(x);
    var y, p := TowardZero(x), Pow2(b) as real;
    Lifted(x);
    CutIs(v);
    Recovered(CutBits(v) as real, p);
    Scaled2(d, x, p);
    if d > y {
      Scaled2(y, d, p);
      if k <= b {
        var m := Raised(d, n, k, b);
        CutIsLargest(v, m);
      } else {
        TooFine(d, n, k, b, v);
      }
    }
  }

  /** The same double over a larger power of two. */
  lemma Raised(d: real, n: nat, k: nat, b: nat) returns (m: nat)
    requires Fits53(n) && Prod(d, Pow2(k) as real) == n as real && k <= b
    ensures Fits53(m) && Prod(d, Pow2(b) as real) == m as real
  {
    hide Pow2, Fits53, Prod;
    var w := Witness(n);
    var more := Scaled(w.number, w.exponent + (b - k));
    m := n * Pow2(b - k);
    Pow2Add(w.exponent, b - k);
    Associate(w.number, Pow2(w.exponent), Pow2(b - k));
    assert ValueOf(more) == m;
    FitsBy(more);
    Pow2Add(k, b - k);
    Casts(Pow2(k), Pow2(b - k));
    Casts(n, Pow2(b - k));
    Together(d, Pow2(k) as real, Pow2(b - k) as real);
  }

  lemma Together(d: real, p: real, q: real)
    ensures Prod(d, Prod(p, q)) == Prod(Prod(d, p), q)
  {
  }

  /** A finer double below `v` + 1 is below the cut too: a long number has no low bits. */
  lemma TooFine(d: real, n: nat, k: nat, b: nat, v: nat)
    requires Fits53(n) && Prod(d, Pow2(k) as real) == n as real && k > b && v >= LIMIT
    requires Prod(d, Pow2(b) as real) < v as real + 1.0
    ensures Prod(d, Pow2(b) as real) <= CutBits(v) as real
  {
    hide Pow2, Fits53, Prod, CutBits;
    var x := Prod(d, Pow2(b) as real);
    var q, c := Pow2(k - b), CutBits(v);
    CutIs(v);
    Pow2Add(b, k - b);
    Casts(Pow2(b), q);
    Together(d, Pow2(b) as real, q as real);
    Casts(c, q);
    Casts(v + 1, q);
    Scaled2(x, v as real + 1.0, q as real);
    if n > c * q {
      Ordered(LIMIT, c, q);
      LongHasNoBits(n, k - b);
      Divides(n, q);
      if n / q > v { Ordered(v + 1, n / q, q); }
      FloorFits(n, k - b);
      CutIsLargest(v, n / q);
      Ordered(n / q, c, q);
    }
    if x > c as real { Scaled2(c as real, x, q as real); }
  }

  /** So what is asked of a rounding can be had. */
  lemma TowardZeroFaithful()
    ensures Faithful(TowardZero)
  {
    hide IsDouble, TowardZero;
    forall x | x >= 0.0 ensures Between(TowardZero, x) {
      if x > 0.0 {
        TowardZeroIs(x);
        forall d | IsDouble(d) && d <= x ensures d <= TowardZero(x) { TowardZeroIsLargest(x, d); }
      } else {
        SmallIsDouble(0);
        assert TowardZero(0.0) == 0.0 by { ZeroStays(); }
      }
    }
  }

  lemma ZeroStays()
    ensures TowardZero(0.0) == 0.0
  {
  }

  // ---------------------------------------------------------------- the buffer

  lemma Doubled(bits: nat)
    requires bits > 0
    ensures Pow2(bits) as real == 2.0 * Pow2(bits - 1) as real
  {
  }

  /** `buffer[--cursor] = digit`. */
  method Prepend(buffer: array<Unit>, from: nat, ch: Unit) returns (cursor: nat)
    requires 0 < from <= MID <= buffer.Length
    modifies buffer
    ensures cursor == from - 1 && buffer[cursor..MID] == [ch] + old(buffer[from..MID])
  {
    cursor := from - 1;
    buffer[cursor] := ch;
  }

  /** The digits of an integral double, written leftwards from the middle of a buffer: they fit for every
      double, and they are the number's own in the binary radices, and in all of them below 2^53. */
  method WriteInteger(buffer: array<Unit>, value: real, radix: nat, round: Rounding) returns (cursor: nat)
    requires buffer.Length == SIZE && 2 <= radix <= 36 && Faithful(round)
    requires IsDouble(value) && 0.0 <= value < Pow2(TOP) as real && value.Floor as real == value
    modifies buffer
    ensures MID - TOP <= cursor < MID && AllDigits(buffer[cursor..MID], radix)
    ensures Exact(value.Floor, radix) ==> buffer[cursor..MID] == RadixText(value.Floor, radix)
  {
    hide Faithful, IsDouble, Pow2, Exact, RadixText, DigitValue, Fmod;
    ghost var n: nat := value.Floor;
    ghost var exact, whole := Exact(value.Floor, radix), RadixText(value.Floor, radix);
    ghost var bits: nat := TOP;
    cursor := MID;
    var integer := value;
    assert buffer[MID..MID] == [] && whole + [] == whole;
    while round(integer / radix as real) >= LIMIT as real
      invariant bits <= TOP && cursor == MID - (TOP - bits) && IsDouble(integer) && 0.0 <= integer < Pow2(bits) as real
      invariant AllDigits(buffer[cursor..MID], radix) && (cursor == MID || integer >= 1.0)
      invariant exact ==> integer == n as real && Exact(n, radix) && whole == RadixText(n, radix) + buffer[cursor..MID]
      decreases bits
    {
      DividedOnce(round, integer, radix);
      EnoughBits(integer, bits);
      Doubled(bits);
      if exact { ZeroExact(round, n, radix); }
      ghost var tail := buffer[cursor..MID];
      integer := round(integer / radix as real);
      cursor := Prepend(buffer, cursor, 48);
      bits := bits - 1;
      ZeroDigit(tail, radix);
      if exact {
        Shift(n, radix, n / radix, tail, buffer[cursor..MID]);
        n := n / radix;
      }
    }
    cursor := WriteShort(buffer, integer, radix, round, cursor, bits, n, exact, whole);
  }

  lemma EnoughBits(x: real, bits: nat)
    requires 1.0 <= x < Pow2(bits) as real
    ensures bits > 0
  {
  }

  lemma ZeroDigit(tail: seq<Unit>, radix: nat)
    requires AllDigits(tail, radix) && 2 <= radix <= 36
    ensures AllDigits([48] + tail, radix) && DigitChar(0) == 48
  {
  }

  lemma OneDigit(d: nat, tail: seq<Unit>, radix: nat)
    requires d < radix <= 36 && AllDigits(tail, radix)
    ensures AllDigits([DigitChar(d)] + tail, radix)
  {
  }

  /** The last digit of a number, and what is left of it. */
  method TakeDigit(round: Rounding, integer: real, radix: nat, ghost bits: nat, ghost n: nat, ghost exact: bool)
    returns (digit: nat, rest: real)
    requires 2 <= radix <= 36 && Faithful(round) && IsDouble(integer) && 0.0 <= integer < Pow2(bits) as real && bits > 0
    requires exact ==> integer == n as real && Exact(n, radix)
    ensures digit < radix && IsDouble(rest) && 0.0 <= rest < Pow2(bits - 1) as real && (rest == 0.0 || rest >= 1.0)
    ensures exact ==> digit == n % radix && rest == (n / radix) as real && Exact(n / radix, radix)
  {
    hide Faithful, IsDouble, Pow2, Exact, Fmod;
    Doubled(bits);
    DigitTaken(round, integer, radix);
    if exact { DigitExact(round, n, radix); }
    var remainder := Fmod(integer, radix);
    digit := remainder.Floor;
    rest := round(round(integer - remainder) / radix as real);
  }

  /** The loop for what is left, at least once. */
  method WriteShort(buffer: array<Unit>, value: real, radix: nat, round: Rounding, from: nat,
                    ghost bits0: nat, ghost n0: nat, ghost exact: bool, ghost whole: seq<Unit>) returns (cursor: nat)
    requires buffer.Length == SIZE && 2 <= radix <= 36 && Faithful(round)
    requires bits0 <= TOP && from == MID - (TOP - bits0) && IsDouble(value) && 0.0 <= value < Pow2(bits0) as real
    requires AllDigits(buffer[from..MID], radix) && (from == MID || value >= 1.0)
    requires exact ==> value == n0 as real && Exact(n0, radix) && whole == RadixText(n0, radix) + buffer[from..MID]
    modifies buffer
    ensures MID - TOP <= cursor < MID && AllDigits(buffer[cursor..MID], radix)
    ensures exact ==> buffer[cursor..MID] == whole
  {
    hide Faithful, IsDouble, Pow2, Exact, RadixText, DigitValue, Fmod;
    cursor := from;
    var integer, more := value, true;
    ghost var bits: nat := bits0;
    ghost var n: nat := n0;
    while more
      invariant bits <= TOP && cursor == MID - (TOP - bits) && IsDouble(integer) && 0.0 <= integer < Pow2(bits) as real
      invariant AllDigits(buffer[cursor..MID], radix) && (more ==> cursor == MID || integer >= 1.0) && (more || cursor < MID)
      invariant exact ==> whole == if more then RadixText(n, radix) + buffer[cursor..MID] else buffer[cursor..MID]
      invariant exact && more ==> integer == n as real && Exact(n, radix)
      decreases more, bits
    {
      if integer >= 1.0 { EnoughBits(integer, bits); }
      ghost var tail := buffer[cursor..MID];
      var digit: nat;
      digit, integer := TakeDigit(round, integer, radix, bits, n, exact);
      cursor := Prepend(buffer, cursor, DigitChar(digit));
      bits := bits - 1;
      OneDigit(digit, tail, radix);
      if exact {
        Shift(n, radix, n / radix, tail, buffer[cursor..MID]);
        n := n / radix;
      }
      more := integer > 0.0;
    }
  }

  /** The integer half of `double_to_radix`, sign and all. */
  method IntegerToRadix(value: real, radix: nat, round: Rounding) returns (text: seq<Unit>)
    requires 2 <= radix <= 36 && Faithful(round)
    requires var size := if value < 0.0 then -value else value;
      IsDouble(size) && size < Pow2(TOP) as real && size.Floor as real == size
    ensures var size := if value < 0.0 then -value else value;
      && |text| <= MID && (value < 0.0 <==> text != [] && text[0] == 45)
      && (Exact(size.Floor, radix) ==> text == (if value < 0.0 then [45] else []) + RadixText(size.Floor, radix))
  {
    hide Faithful, IsDouble, Pow2, Exact, RadixText;
    var buffer := new Unit[SIZE](_ => 0);
    var negative := value < 0.0;
    var size := if negative then -value else value;
    var cursor := WriteInteger(buffer, size, radix, round);
    ghost var digits := buffer[cursor..MID];
    assert digits[0] == buffer[cursor];
    if negative {
      cursor := cursor - 1;
      buffer[cursor] := 45;
      assert buffer[cursor..MID] == [45] + digits;
    } else {
      assert [] + digits == digits;
    }
    text := buffer[cursor..MID];
  }
}

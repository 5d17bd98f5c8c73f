/** The one double an integer of any size rounds to, and when rounding loses nothing. */
module NumericDouble {
  import opened NumericModel

  /** How many bits an integer is over 53. */
  function Excess(v: nat): nat { if v < LIMIT then 0 else 1 + Excess(v / 2) }

  lemma Halved(v: nat, e: nat)
    ensures v / Pow2(e + 1) == v / 2 / Pow2(e)
  {
    var p := Pow2(e);
    Divides(v / 2, p);
    var q, r := v / 2 / p, v / 2 % p;
    var low := 2 * r + v % 2;
    Associate(2, q, p);
    Associate(q, 2, p);
    UniqueQuotient(v, 2 * p, q, low);
  }

  lemma {:induction false} ExcessIs(v: nat)
    requires v >= LIMIT
    ensures Excess(v) > 0 && Pow2(52) <= v / Pow2(Excess(v)) < LIMIT
  {
    LimitIs();
    Halved(v, Excess(v / 2));
    if v / 2 >= LIMIT { ExcessIs(v / 2); } else { Divides(v / 2, Pow2(0)); }
  }

  lemma {:induction false} ExcessUnique(v: nat, e: nat)
    requires e > 0 && Pow2(52) <= v / Pow2(e) < LIMIT
    ensures v >= LIMIT && Excess(v) == e
  {
    LimitIs();
    Halved(v, e - 1);
    if e > 1 {
      ExcessUnique(v / 2, e - 1);
    } else {
      assert Pow2(0) == 1;
    }
  }

  /** To nearest, ties to even, with no bound on the exponent. */
  function Round53(v: nat): Scaled { if v < LIMIT then Scaled(v, 0) else Rounded(v, Excess(v)) }

  lemma SmallIsExact(v: nat)
    requires v < LIMIT
    ensures ValueOf(Round53(v)) == v && Nearest(v, Round53(v))
  {
    assert ValueOf(Scaled(v, 0)) == v by { assert Pow2(0) == 1; }
  }

  lemma Round53Nearest(v: nat)
    ensures Nearest(v, Round53(v))
  {
    if v < LIMIT {
      SmallIsExact(v);
    } else {
      ExcessIs(v);
      RoundedNearest(v, Excess(v));
    }
  }

  // ---------------------------------------------------------------- what is exact

  /** `v` is a double's value, were the exponent unbounded: nothing below its 53rd bit. */
  predicate Fits53(v: nat) { v % Pow2(Excess(v)) == 0 }

  lemma FitsWhen(v: nat)
    ensures Fits53(v) <==> ValueOf(Round53(v)) == v
    ensures Fits53(v) <==> exists d :: Representable(d) && ValueOf(d) == v
  {
    hide Nearest, ValueOf, HalfEven;
    Round53Nearest(v);
    RoundFits(v);
    assert Representable(Round53(v)) by { NearestFits(v, Round53(v)); }
    if d :| Representable(d) && ValueOf(d) == v { NearestExact(v, Round53(v), d); }
  }

  lemma NearestFits(v: nat, d: Scaled)
    requires Nearest(v, d)
    ensures Representable(d)
  {
  }

  lemma NearestExact(v: nat, d: Scaled, x: Scaled)
    requires Nearest(v, d) && Representable(x) && ValueOf(x) == v
    ensures ValueOf(d) == v
  {
  }

  lemma RoundFits(v: nat)
    ensures Fits53(v) <==> ValueOf(Round53(v)) == v
  {
    if v < LIMIT {
      SmallIsExact(v);
      Divides(v, Pow2(0));
      assert Pow2(0) == 1;
    } else {
      var e := Excess(v);
      var p := Pow2(e);
      ExcessIs(v);
      RoundedValue(v, e);
      Divides(v, p);
      Multiple(HalfEven(v, e), v / p, p);
    }
  }

  /** A quotient in 53 bits says what a number rounds to. */
  lemma RoundAt(v: nat, e: nat, q: nat, r: nat)
    requires e > 0 && v == q * Pow2(e) + r && r < Pow2(e) && Pow2(52) <= q < LIMIT
    ensures v >= LIMIT && Excess(v) == e && (Fits53(v) <==> r == 0)
    ensures ValueOf(Round53(v)) == (if 2 * r > Pow2(e) || (2 * r == Pow2(e) && q % 2 == 1) then q * Pow2(e) + Pow2(e) else q * Pow2(e))
  {
    UniqueQuotient(v, Pow2(e), q, r);
    ExcessUnique(v, e);
    RoundedValue(v, e);
    Multiple(HalfEven(v, e), q, Pow2(e));
  }

  // ---------------------------------------------------------------- overflow

  /** A double's magnitude. */
  datatype Magnitude = Finite(d: Scaled) | Infinity

  const TOP: nat := 1024

  predicate TooLarge(v: nat) { v >= Pow2(TOP) }

  /** What ldexp, a product or a sum comes to once it is rounded. */
  function Capped(d: Scaled): Magnitude { if TooLarge(ValueOf(d)) then Infinity else Finite(d) }

  function DoubleOf(v: nat): Magnitude { Capped(Round53(v)) }

  predicate IsExactly(x: Magnitude, v: nat) { x.Finite? && ValueOf(x.d) == v }

  /** A number comes out exact when it fits 53 bits and the range. */
  lemma DoubleExact(v: nat)
    ensures IsExactly(DoubleOf(v), v) <==> Fits53(v) && !TooLarge(v)
  {
    hide TooLarge, Fits53, ValueOf;
    FitsWhen(v);
  }

  /** Rounding crosses no double. */
  lemma CrossesNone(v: nat, d: Scaled)
    requires Representable(d)
    ensures v <= ValueOf(d) ==> ValueOf(Round53(v)) <= ValueOf(d)
    ensures v >= ValueOf(d) ==> ValueOf(Round53(v)) >= ValueOf(d)
  {
    hide ValueOf, Round53;
    Round53Nearest(v);
    assert Distance(ValueOf(Round53(v)), v) <= Distance(ValueOf(d), v);
  }

  /** A number rounds to 2^t or more from half a last bit below it on. */
  lemma RoundsUpTo(v: nat, t: nat)
    requires t >= 54
    ensures ValueOf(Round53(v)) >= Pow2(t) <==> v >= Pow2(t) - Pow2(t - 54)
  {
    var e := t - 53;
    var p := Pow2(e);
    LimitIs();
    Pow2Add(53, e);
    assert p == 2 * Pow2(t - 54);
    var below := Scaled(LIMIT - 1, e);
    hide ValueOf, Round53, Pow2, HalfEven;
    PowerValue(t, below, e);
    if v >= Pow2(t) {
      CrossesNone(v, Scaled(1, t));
    } else if v >= (LIMIT - 1) * p {
      RoundAt(v, e, LIMIT - 1, v - (LIMIT - 1) * p);
    } else {
      CrossesNone(v, below);
    }
  }

  lemma PowerValue(t: nat, below: Scaled, e: nat)
    requires below == Scaled(LIMIT - 1, e)
    ensures ValueOf(Scaled(1, t)) == Pow2(t) && ValueOf(below) == (LIMIT - 1) * Pow2(e)
  {
  }

  /** The answer is Infinity from 2^1024 - 2^970 on, and nowhere else. */
  lemma OverflowsFrom(v: nat)
    ensures DoubleOf(v) == Infinity <==> v >= Pow2(TOP) - Pow2(TOP - 54)
  {
    hide Pow2, Round53, ValueOf;
    RoundsUpTo(v, TOP);
  }

  // ---------------------------------------------------------------- a product and a sum

  function Times(x: Magnitude, m: nat): Magnitude { if x.Infinity? then Infinity else DoubleOf(ValueOf(x.d) * m) }

  function Plus(x: Magnitude, part: nat): Magnitude { if x.Infinity? then Infinity else DoubleOf(ValueOf(x.d) + part) }

  /** `result * multiplier + part`, each operation rounded. */
  function Fold(x: Magnitude, m: nat, part: nat): Magnitude { Plus(Times(x, m), part) }

  /** The product is rounded by half a last bit, and the sum, half a last bit off, away from an odd result. */
  predicate TiesTwice(w: nat, part: nat) {
    var e := Excess(w);
    && e > 0 && Excess(w + part) == e
    && part % Pow2(e) == Pow2(e - 1) && (w + part) / Pow2(e) % 2 == 1
  }

  /** A product that needs rounding, up to its last bit. */
  lemma AtLastBit(w: nat)
    requires w >= LIMIT
    ensures var e := Excess(w); var u, q := Pow2(e), w / Pow2(e);
      && e > 0 && u == 2 * Pow2(e - 1) && w == q * u + w % u && w % u < u && Pow2(52) <= q < LIMIT
  {
    ExcessIs(w);
    Divides(w, Pow2(Excess(w)));
  }

  lemma QuotientIn(v: nat, u: nat, lo: nat, hi: nat)
    requires u > 0 && lo * u <= v < hi * u
    ensures lo <= v / u < hi
  {
    Divides(v, u);
    if v / u < lo { Ordered(v / u + 1, lo, u); }
    if v / u >= hi { Ordered(hi, v / u, u); }
  }

  lemma GrowsOneBit(w: nat, v: nat)
    requires LIMIT <= w <= v < 2 * w
    ensures Excess(v) == Excess(w) || (Excess(v) == Excess(w) + 1 && v >= LIMIT * Pow2(Excess(w)))
  {
    hide Pow2, Excess;
    var e := Excess(w);
    var u := Pow2(e);
    AtLastBit(w);
    LimitIs();
    Enclosed(w, u, w / u, w % u);
    Twice(e);
    if v < LIMIT * u {
      QuotientIn(v, u, Pow2(52), LIMIT);
      ExcessUnique(v, e);
    } else {
      QuotientIn(v, 2 * u, Pow2(52), LIMIT);
      ExcessUnique(v, e + 1);
    }
  }

  lemma Enclosed(w: nat, u: nat, q: nat, r: nat)
    requires w == q * u + r && r < u && Pow2(52) <= q < LIMIT
    ensures Pow2(52) * u <= w < LIMIT * u && Pow2(52) * (2 * u) == LIMIT * u && LIMIT * (2 * u) == 2 * (LIMIT * u)
  {
    hide Pow2;
    LimitIs();
    Ordered(Pow2(52), q, u);
    Ordered(q + 1, LIMIT, u);
    LessOne(q + 1, u);
    Associate(Pow2(52), 2, u);
  }

  lemma Twice(e: nat)
    ensures Pow2(e + 1) == 2 * Pow2(e)
  {
  }

  /** `u` is the last bit of both the product and the sum, `k` the sum in it. */
  lemma SameBinade(w: nat, part: nat, a: nat, b: nat, k: nat)
    requires w >= LIMIT && Excess(w + part) == Excess(w)
    requires var u := Pow2(Excess(w)); w + part == k * u && part == a * u + b && b < u && a <= k
    ensures ValueOf(Round53(ValueOf(Round53(w)) + part)) == w + part <==> !(2 * b == Pow2(Excess(w)) && k % 2 == 1)
  {
    hide Pow2, ValueOf, Round53, Fits53, Excess;
    var e := Excess(w);
    var u := Pow2(e);
    AtLastBit(w);
    AtLastBit(w + part);
    UniqueQuotient(w + part, u, k, 0);
    Less(k, a, u);
    if b == 0 {
      UniqueQuotient(w, u, k - a, 0);
      RoundAt(w, e, k - a, 0);
      RoundAt(w + part, e, k, 0);
    } else {
      if k == a { assert false; }
      LessOne(k - a, u);
      UniqueQuotient(w, u, k - a - 1, u - b);
      SumAt(w, part, e, u, a, b, k);
    }
  }

  lemma SumAt(w: nat, part: nat, e: nat, u: nat, a: nat, b: nat, k: nat)
    requires e > 0 && u == Pow2(e) && u > 0 && 0 < b < u && a < k && Pow2(52) <= k - a - 1 && k < LIMIT
    requires w == (k - a - 1) * u + (u - b) && part == a * u + b && w + part == k * u
    ensures ValueOf(Round53(ValueOf(Round53(w)) + part)) == w + part <==> !(2 * b == u && k % 2 == 1)
  {
    hide Pow2, ValueOf, Round53, Fits53, Excess;
    Less(k, a, u);
    LessOne(k - a, u);
    RoundAt(w, e, k - a - 1, u - b);
    var g := ValueOf(Round53(w)) + part;
    if g == k * u + b { RoundHere(g, e, k, b, u); } else { RoundBelow(g, e, k, b, u); }
  }

  lemma RoundHere(v: nat, e: nat, k: nat, b: nat, u: nat)
    requires e > 0 && u == Pow2(e) && u > 0 && v == k * u + b && b < u && Pow2(52) <= k < LIMIT
    ensures ValueOf(Round53(v)) == k * u <==> !(2 * b > u || (2 * b == u && k % 2 == 1))
  {
    hide Pow2, ValueOf, Round53, Fits53, Excess;
    RoundAt(v, e, k, b);
  }

  lemma RoundBelow(v: nat, e: nat, k: nat, b: nat, u: nat)
    requires e > 0 && u == Pow2(e) && u > 0 && v == k * u - u + b && b < u && Pow2(52) < k <= LIMIT
    ensures ValueOf(Round53(v)) == k * u <==> 2 * b > u || (2 * b == u && k % 2 == 0)
  {
    hide Pow2, ValueOf, Round53, Fits53, Excess;
    LessOne(k, u);
    RoundAt(v, e, k - 1, b);
  }

  lemma Less(k: int, a: int, u: int)
    ensures (k - a) * u == k * u - a * u
  {
  }

  lemma LessOne(k: int, u: int)
    ensures (k - 1) * u == k * u - u
  {
  }

  /** The sum has one bit more than the product. */
  lemma NextBinade(w: nat, part: nat, k: nat)
    requires w >= LIMIT && Excess(w + part) == Excess(w) + 1 && w + part == k * Pow2(Excess(w) + 1)
    ensures ValueOf(Round53(ValueOf(Round53(w)) + part)) == w + part
  {
    hide Pow2, ValueOf, Round53, Fits53;
    var e := Excess(w);
    var u := Pow2(e);
    var v := w + part;
    LimitIs();
    Twice(e);
    AtLastBit(w);
    AtLastBit(v);
    UniqueQuotient(v, 2 * u, k, 0);
    var q, r := w / u, w % u;
    RoundAt(w, e, q, r);
    var g := ValueOf(Round53(w)) + part;
    if g >= v {
      RoundAt(g, e + 1, k, g - v);
    } else if k > Pow2(52) {
      LessOne(k, 2 * u);
      RoundAt(g, e + 1, k - 1, 2 * u - (v - g));
    } else {
      assert v == LIMIT * u by { Associate(Pow2(52), 2, u); }
      LessOne(LIMIT, u);
      RoundAt(g, e, LIMIT - 1, u - (v - g));
    }
  }

  /** When rounding the product and then the sum loses nothing. */
  lemma SumExact(w: nat, part: nat)
    requires part < w || w < LIMIT
    ensures ValueOf(Round53(ValueOf(Round53(w)) + part)) == w + part <==> Fits53(w + part) && !TiesTwice(w, part)
  {
    hide Pow2, ValueOf, Round53, Fits53, TiesTwice;
    var v := w + part;
    FitsWhen(v);
    if w < LIMIT {
      SmallIsExact(w);
      NoTies(w, part);
    } else if Fits53(v) {
      var e := Excess(w);
      GrowsOneBit(w, v);
      MultipleOf(v);
      if Excess(v) == e {
        SumInBinade(w, part);
      } else {
        NextBinade(w, part, v / Pow2(e + 1));
        NoTies(w, part);
      }
    } else {
      Round53Nearest(ValueOf(Round53(w)) + part);
      NearestFits(ValueOf(Round53(w)) + part, Round53(ValueOf(Round53(w)) + part));
    }
  }

  lemma NoTies(w: nat, part: nat)
    requires w < LIMIT || Excess(w + part) != Excess(w)
    ensures !TiesTwice(w, part)
  {
  }

  lemma SumInBinade(w: nat, part: nat)
    requires w >= LIMIT && Excess(w + part) == Excess(w) && Fits53(w + part)
    ensures ValueOf(Round53(ValueOf(Round53(w)) + part)) == w + part <==> !TiesTwice(w, part)
  {
    hide Pow2, ValueOf, Round53, Fits53, Excess, TiesTwice;
    var v := w + part;
    var e := Excess(w);
    var u := Pow2(e);
    AtLastBit(w);
    MultipleOf(v);
    var k := v / u;
    assert v == k * u;
    var a, b := Parts(part, u);
    NoMore(part, v, u);
    TiesAre(w, part, e, u, b, k);
    SameBinade(w, part, a, b, k);
  }

  lemma Parts(v: nat, u: nat) returns (a: nat, b: nat)
    requires u > 0
    ensures v == a * u + b && b < u && a == v / u && b == v % u
  {
    a, b := v / u, v % u;
    Divides(v, u);
  }

  lemma NoMore(a: nat, b: nat, u: nat)
    requires u > 0 && a <= b
    ensures a / u <= b / u
  {
    Divides(a, u);
    Divides(b, u);
    if a / u > b / u { Ordered(b / u + 1, a / u, u); }
  }

  lemma TiesAre(w: nat, part: nat, e: nat, u: nat, b: nat, k: nat)
    requires e == Excess(w) == Excess(w + part) && e > 0 && u == Pow2(e) && u == 2 * Pow2(e - 1)
    requires b == part % u && k == (w + part) / u
    ensures TiesTwice(w, part) <==> 2 * b == u && k % 2 == 1
  {
    hide Pow2, Excess;
  }

  lemma MultipleOf(v: nat)
    requires Fits53(v)
    ensures v == v / Pow2(Excess(v)) * Pow2(Excess(v))
  {
    Divides(v, Pow2(Excess(v)));
  }

  /** A fold is exact exactly when its result is a double and the two roundings do not tie away from it. The
      product need not be one. */
  lemma FoldExact(d: Scaled, m: nat, part: nat)
    requires !TooLarge(ValueOf(d)) && part < m
    ensures var w := ValueOf(d) * m; var v := w + part;
      IsExactly(Fold(Finite(d), m, part), v) <==> Fits53(v) && !TooLarge(v) && !TiesTwice(w, part)
  {
    hide Pow2, ValueOf, Round53, Fits53, TiesTwice;
    var w := ValueOf(d) * m;
    var v := w + part;
    if ValueOf(d) > 0 { Ordered(1, ValueOf(d), m); }
    SumExact(w, part);
    FitsWhen(v);
    if Fits53(v) && !TooLarge(v) {
      NearestFitsAll(v);
      CrossesNone(w, Round53(v));
    }
  }

  lemma NearestFitsAll(v: nat)
    ensures Representable(Round53(v))
  {
    Round53Nearest(v);
    NearestFits(v, Round53(v));
  }
}

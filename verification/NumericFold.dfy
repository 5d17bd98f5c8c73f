/** When parseInt in a radix that is no power of two is exact, although it rounds at every fold. */
module NumericFold {
  import opened NumericModel
  import opened NumericDouble
  import opened NumericRuntime
  import opened NumericText

  /** Where the last chunk of a digit string begins. */
  function Split(s: seq<Unit>, radix: nat): (i: nat)
    requires 2 <= radix <= 36 && s != []
    ensures i < |s|
  {
    |s| - LastChunk(|s|, radix)
  }

  /** The last fold: what it multiplies by and what it adds. */
  lemma LastFold(s: seq<Unit>, radix: nat)
    requires 2 <= radix <= 36 && s != [] && AllDigits(s, radix)
    ensures var i := Split(s, radix); var m, part := Power(radix, |s| - i), Denoted(s[i..], radix);
      && AllDigits(s[..i], radix) && part < m
      && Folded(s, radix) == Fold(Folded(s[..i], radix), m, part)
      && Denoted(s, radix) == Denoted(s[..i], radix) * m + part
  {
    hide Denoted, Power, Fold, DigitValue;
    var i := Split(s, radix);
    assert s == s[..i] + s[i..];
    DenotedSplit(s[..i], s[i..], radix);
    DenotedBound(s[i..], radix);
  }

  lemma FoldedInRange(s: seq<Unit>, radix: nat)
    requires 2 <= radix <= 36
    ensures var x := Folded(s, radix); x.Finite? ==> Representable(x.d) && !TooLarge(ValueOf(x.d))
  {
    hide TooLarge, ValueOf;
    if s != [] {
      var i := Split(s, radix);
      var x := Times(Folded(s[..i], radix), Power(radix, |s| - i));
      if x.Finite? { NearestFitsAll(ValueOf(x.d) + Denoted(s[i..], radix)); }
    } else {
      ZeroInRange();
    }
  }

  lemma ZeroInRange()
    ensures ValueOf(Scaled(0, 0)) == 0 && !TooLarge(0)
  {
  }

  /** It is exact only on what a double can hold. */
  lemma ExactOnly(s: seq<Unit>, radix: nat)
    requires 2 <= radix <= 36 && IsExactly(Folded(s, radix), Denoted(s, radix))
    ensures Fits53(Denoted(s, radix)) && !TooLarge(Denoted(s, radix))
  {
    FoldedInRange(s, radix);
    FitsWhen(Denoted(s, radix));
  }

  // ---------------------------------------------------------------- exact all along

  /** Every prefix of whole chunks folds to the integer it denotes. */
  ghost predicate ExactAlong(s: seq<Unit>, radix: nat)
    requires 2 <= radix <= 36
  {
    IsExactly(Folded(s, radix), Denoted(s, radix)) && (s != [] ==> ExactAlong(s[..Split(s, radix)], radix))
  }

  /** Every fold's sum is a double, and none ties twice. */
  ghost predicate FoldsFit(s: seq<Unit>, radix: nat)
    requires 2 <= radix <= 36
  {
    s != [] ==>
      var i := Split(s, radix);
      FoldsFit(s[..i], radix) && SumFits(Product(Denoted(s[..i], radix), Power(radix, |s| - i)), Denoted(s[i..], radix))
  }

  predicate SumFits(w: nat, part: nat) { Fits53(w + part) && !TooLarge(w + part) && !TiesTwice(w, part) }

  /** The folds give the integer denoted at every step exactly when each sum is a double and none of the
      roundings ties away from it. */
  lemma {:induction false} ExactAlongWhen(s: seq<Unit>, radix: nat)
    requires 2 <= radix <= 36 && AllDigits(s, radix)
    ensures ExactAlong(s, radix) <==> FoldsFit(s, radix)
  {
    hide TooLarge, Fits53, TiesTwice, Fold, Folded, ValueOf;
    if s == [] {
      EmptyExact(radix);
    } else {
      var i := Split(s, radix);
      LastFold(s, radix);
      ExactAlongWhen(s[..i], radix);
      if ExactAlong(s[..i], radix) { FoldIsExact(s, radix); }
    }
  }

  lemma EmptyExact(radix: nat)
    requires 2 <= radix <= 36
    ensures IsExactly(Folded([], radix), Denoted([], radix))
  {
  }

  lemma FoldIsExact(s: seq<Unit>, radix: nat)
    requires 2 <= radix <= 36 && s != [] && AllDigits(s, radix)
    requires var i := Split(s, radix); IsExactly(Folded(s[..i], radix), Denoted(s[..i], radix))
    ensures var i := Split(s, radix);
      IsExactly(Folded(s, radix), Denoted(s, radix)) <==>
        SumFits(Product(Denoted(s[..i], radix), Power(radix, |s| - i)), Denoted(s[i..], radix))
  {
    hide TooLarge, Fits53, TiesTwice, Fold, Folded, ValueOf, Denoted;
    var i := Split(s, radix);
    LastFold(s, radix);
    FoldedInRange(s[..i], radix);
    FoldExact(Folded(s[..i], radix).d, Power(radix, |s| - i), Denoted(s[i..], radix));
  }

  // ---------------------------------------------------------------- small numbers

  lemma SmallFits(v: nat, w: nat, part: nat)
    requires v == w + part && v <= LIMIT
    ensures Fits53(v) && !TooLarge(v) && !TiesTwice(w, part)
  {
    LimitFits();
    if v < LIMIT {
      SmallIsExact(v);
      FitsWhen(v);
    }
    hide Pow2;
    Pow2Grows(54, TOP);
    LimitIs();
    Twice(53);
  }

  lemma LimitFits()
    ensures Fits53(LIMIT) && Excess(LIMIT) == 1 && Pow2(1) == 2 && Pow2(0) == 1
  {
    assert Excess(LIMIT) == 1 + Excess(LIMIT / 2);
    assert Pow2(1) == 2;
  }

  /** Up to 2^53 nothing is lost. */
  lemma {:induction false} SmallExact(s: seq<Unit>, radix: nat)
    requires 2 <= radix <= 36 && AllDigits(s, radix) && Denoted(s, radix) <= LIMIT
    ensures IsExactly(Folded(s, radix), Denoted(s, radix))
  {
    hide TooLarge, Fits53, TiesTwice, Fold, Folded, ValueOf, Denoted;
    if s == [] {
      EmptyExact(radix);
    } else {
      var i := Split(s, radix);
      LastFold(s, radix);
      var m, part := Power(radix, |s| - i), Denoted(s[i..], radix);
      Ordered(1, m, Denoted(s[..i], radix));
      SmallExact(s[..i], radix);
      SmallFits(Denoted(s, radix), Denoted(s[..i], radix) * m, part);
      FoldIsExact(s, radix);
    }
  }

  /** Below 2^53 the answer is the number itself. */
  lemma SmallIsNumber(s: seq<Unit>, radix: nat)
    requires 2 <= radix <= 36 && AllDigits(s, radix) && Denoted(s, radix) < LIMIT
    ensures Folded(s, radix) == Finite(Scaled(Denoted(s, radix), 0))
  {
    hide TooLarge, Denoted, Folded, Power;
    if s == [] {
      NothingDenoted(radix);
      EmptyFolds(radix);
    } else {
      var i := Split(s, radix);
      var m, part := Power(radix, |s| - i), Denoted(s[i..], radix);
      LastFold(s, radix);
      Ordered(1, m, Denoted(s[..i], radix));
      SmallExact(s[..i], radix);
      SmallFold(Folded(s[..i], radix), Denoted(s[..i], radix), m, part);
    }
  }

  lemma EmptyFolds(radix: nat)
    requires 2 <= radix <= 36
    ensures Folded([], radix) == Finite(Scaled(0, 0))
  {
  }

  lemma SmallFold(x: Magnitude, v: nat, m: nat, part: nat)
    requires IsExactly(x, v) && v * m + part < LIMIT
    ensures Fold(x, m, part) == Finite(Scaled(v * m + part, 0))
  {
    hide DoubleOf, ValueOf;
    SmallDouble(v * m);
    SmallDouble(v * m + part);
  }

  lemma SmallDouble(v: nat)
    requires v < LIMIT
    ensures DoubleOf(v) == Finite(Scaled(v, 0)) && ValueOf(Scaled(v, 0)) == v
  {
    hide Pow2, TooLarge, Excess;
    NotTooLarge(v);
    SmallIsExact(v);
  }

  // ---------------------------------------------------------------- how many digits are safe

  lemma {:induction false} TextFits(n: nat, radix: nat, k: nat)
    requires 2 <= radix <= 36 && n < Power(radix, k) && k > 0
    ensures |RadixText(n, radix)| <= k
  {
    if n >= radix {
      Divides(n, radix);
      if n / radix >= Power(radix, k - 1) { Ordered(Power(radix, k - 1), n / radix, radix); }
      if k == 1 { assert false; }
      TextFits(n / radix, radix, k - 1);
    }
  }

  function Zeros(n: nat): (s: seq<Unit>)
    ensures |s| == n
  {
    seq(n, _ => 48)
  }

  lemma {:induction false} ZerosDenote(n: nat, radix: nat)
    requires radix >= 2
    ensures Denoted(Zeros(n), radix) == 0 && AllDigits(Zeros(n), radix)
  {
    if n > 0 {
      ZerosDenote(n - 1, radix);
      assert Zeros(n)[..n - 1] == Zeros(n - 1);
    }
  }

  /** An `n`-digit spelling of a number, leading zeros and all. */
  lemma Padded(v: nat, n: nat, radix: nat) returns (s: seq<Unit>)
    requires 2 <= radix <= 36 && v < Power(radix, n) && v > 0
    ensures |s| == n && AllDigits(s, radix) && Denoted(s, radix) == v
  {
    var text := RadixText(v, radix);
    if n == 0 { assert false; }
    TextFits(v, radix, n);
    RadixTextMeans(v, radix);
    s := Zeros(n - |text|) + text;
    ZerosDenote(n - |text|, radix);
    DenotedSplit(Zeros(n - |text|), text, radix);
  }

  lemma NextDoesNotFit()
    ensures !Fits53(LIMIT + 1)
  {
    LimitFits();
    assert Excess(LIMIT + 1) == 1 + Excess((LIMIT + 1) / 2);
  }

  /** Every string of `n` digits is read exactly, if and only if all of them denote at most 2^53. */
  lemma SafeLengths(n: nat, radix: nat)
    requires 2 <= radix <= 36
    ensures (forall s: seq<Unit> :: |s| == n && AllDigits(s, radix) ==> IsExactly(Folded(s, radix), Denoted(s, radix)))
      <==> Power(radix, n) <= LIMIT + 1
  {
    hide Folded, Denoted, Power, Fits53, TooLarge;
    if Power(radix, n) <= LIMIT + 1 {
      forall s: seq<Unit> | |s| == n && AllDigits(s, radix) ensures IsExactly(Folded(s, radix), Denoted(s, radix)) {
        DenotedBound(s, radix);
        SmallExact(s, radix);
      }
    } else {
      var s := Padded(LIMIT + 1, n, radix);
      NextDoesNotFit();
      if IsExactly(Folded(s, radix), Denoted(s, radix)) { ExactOnly(s, radix); }
    }
  }

  // ---------------------------------------------------------------- two inputs

  lemma Cube()
    ensures Power(3, 34) == 16677181699666569
  {
    assert Power(3, 4) == 81;
    PowerAdd(3, 4, 4);
    PowerAdd(3, 8, 8);
    assert Power(3, 17) == 3 * Power(3, 16);
    PowerAdd(3, 17, 17);
  }

  lemma {:induction false} PowerAdd(b: nat, x: nat, y: nat)
    ensures Power(b, x + y) == Power(b, x) * Power(b, y)
  {
    if x > 0 {
      PowerAdd(b, x - 1, y);
      Associate(b, Power(b, x - 1), Power(b, y));
    }
  }

  /** `parseInt("1" followed by 34 zeros, 3)` is not the odd number the text denotes. */
  lemma FoldLoses()
    ensures var s: seq<Unit> := [49] + Zeros(34);
      AllDigits(s, 3) && Denoted(s, 3) == 16677181699666569 && !IsExactly(Folded(s, 3), Denoted(s, 3))
  {
    hide Folded, TooLarge, Power;
    var s: seq<Unit> := [49] + Zeros(34);
    ZerosDenote(34, 3);
    DenotedSplit([49], Zeros(34), 3);
    assert Denoted([49], 3) == 1 by { assert [49][..0] == []; }
    Cube();
    OddDoesNotFit(16677181699666569);
    if IsExactly(Folded(s, 3), Denoted(s, 3)) { ExactOnly(s, 3); }
  }

  lemma OddDoesNotFit(v: nat)
    requires LIMIT <= v < 2 * LIMIT && v % 2 == 1
    ensures !Fits53(v)
  {
    hide Excess, Pow2;
    ExcessOne(v);
    LimitFits();
  }

  lemma ExcessOne(v: nat)
    requires LIMIT <= v < 2 * LIMIT
    ensures Excess(v) == 1
  {
    assert Excess(v) == 1 + Excess(v / 2);
    assert Excess(v / 2) == 0;
  }

  /** A product that is no double does not spoil the fold: here the two roundings cancel. */
  lemma RoundingsCancel()
    ensures var r := 1000799917193447;
      !Fits53(r * 9) && IsExactly(Fold(Finite(Scaled(r, 0)), 9, 1), r * 9 + 1)
  {
    hide Pow2, TooLarge, Fold, Fits53, TiesTwice, ValueOf, Excess;
    var r := 1000799917193447;
    var v := r * 9 + 1;
    OddDoesNotFit(r * 9);
    SmallIsExact(r);
    NotTooLarge(r);
    InRange(r);
    InRange(v);
    QuarterFits(v);
    NoTie(r * 9, 1);
    SmallValue(r);
    FoldExact(Scaled(r, 0), 9, 1);
  }

  lemma SmallValue(v: nat)
    ensures ValueOf(Scaled(v, 0)) == v
  {
  }

  lemma QuarterFits(v: nat)
    requires LIMIT <= v < 2 * LIMIT && v % 4 == 0
    ensures Fits53(v)
  {
    hide Excess, Pow2;
    ExcessOne(v);
    LimitFits();
    Evenly(v, Pow2(Excess(v)));
  }

  lemma Evenly(v: nat, p: nat)
    requires p == 2 && v % 4 == 0
    ensures v % p == 0
  {
    assert v % 2 == 0;
  }

  lemma NoTie(w: nat, part: nat)
    requires LIMIT <= w && w + part < 2 * LIMIT && (w + part) % 4 == 0
    ensures !TiesTwice(w, part)
  {
    hide Excess, Pow2;
    ExcessOne(w);
    ExcessOne(w + part);
    LimitFits();
  }

  lemma InRange(v: nat)
    requires v < 2 * LIMIT
    ensures !TooLarge(v)
  {
    hide Pow2;
    Pow2Grows(54, TOP);
    LimitIs();
    Twice(53);
  }

  // ---------------------------------------------------------------- what is printed is read back

  /** `parseInt(n.toString(radix), radix)` is `n`: in every radix up to 2^53, and in the radices that are powers
      of two for every integer a double can hold. */
  lemma NumberReadsBack(n: nat, radix: nat)
    requires 2 <= radix <= 36 && radix != 10 && n > 0
    requires n <= LIMIT || (IsBinary(radix) && Fits53(n) && !TooLarge(n))
    ensures ReadInt(RadixText(n, radix), radix) == Parsed(false, radix, RadixText(n, radix))
    ensures var a := AnswerOf(RadixText(n, radix), radix); a.Double? && IsExactly(a.x, n)
  {
    hide Folded, Denoted, TooLarge, Fits53, RadixText, ReadInt;
    PrintedReadsBack(n, false, radix);
    assert [] + RadixText(n, radix) == RadixText(n, radix);
    RadixTextMeans(n, radix);
    if IsBinary(radix) {
      if n <= LIMIT { SmallFits(n, n, 0); }
      DoubleExact(n);
    } else {
      SmallExact(RadixText(n, radix), radix);
    }
  }

  // ---------------------------------------------------------------- which radix takes which way

  /** Radix 10 is left to strtod; the radices that are powers of two answer a nearest double, or Infinity; every other
      answers the number itself below 2^53. */
  lemma AnswerMeans(s: seq<Unit>, radix: nat)
    requires 2 <= radix <= 36 && AllDigits(s, radix)
    ensures var a, v := AnswerOf(s, radix), Denoted(s, radix);
      if radix == 10 then a == Decimal(s)
      else
        && a.Double?
        && (radix in {2, 4, 8, 16, 32} ==>
              (a.x.Finite? ==> Nearest(v, a.x.d)) && (a.x == Infinity <==> v >= Pow2(TOP) - Pow2(TOP - 54)))
        && (v < LIMIT ==> a.x == Finite(Scaled(v, 0)))
  {
    hide Denoted, Folded, DoubleOf, Pow2, Nearest;
    var v := Denoted(s, radix);
    DoubleMeans(v);
    if v < LIMIT { SmallIsNumber(s, radix); }
  }

  /** A chunk is as long as its multiplier allows, and only the last one is shorter. */
  lemma ChunkIs(radix: nat, n: nat)
    requires 2 <= radix <= 36 && n > 0
    ensures var full := ChunkLen(radix);
      && Power(radix, full) <= 0xFFFF_FFFF / 36 < Power(radix, full + 1)
      && LastChunk(n, radix) <= full && (n - LastChunk(n, radix)) % full == 0
  {
    hide ChunkLen, Power, Reach, LastChunk;
    FullChunk(radix);
    OtherChunks(radix, n);
  }

  lemma FullChunk(radix: nat)
    requires 2 <= radix <= 36
    ensures Power(radix, ChunkLen(radix)) <= 0xFFFF_FFFF / 36 < Power(radix, ChunkLen(radix) + 1)
  {
    hide ChunkLen, Power, Reach;
    ReachStarts(radix);
    ReachIs(1, radix, 0);
  }

  lemma OtherChunks(radix: nat, n: nat)
    requires 2 <= radix <= 36 && n > 0
    ensures LastChunk(n, radix) <= ChunkLen(radix) && (n - LastChunk(n, radix)) % ChunkLen(radix) == 0
  {
    hide ChunkLen;
    var full := ChunkLen(radix);
    if n >= full { WholeLeft(n, full); } else { NothingLeft(full); }
  }

  lemma NothingLeft(full: nat)
    requires full > 0
    ensures 0 % full == 0
  {
  }

  lemma WholeLeft(n: nat, full: nat)
    requires full > 0 && n >= full
    ensures (n - full) % full == n % full && (n - n % full) % full == 0
  {
    var q := n / full;
    Divides(n, full);
    if q == 0 { assert false; }
    UniqueQuotient(n - n % full, full, q, 0);
    OneLess(q, full);
    UniqueQuotient(n - full, full, q - 1, n % full);
  }

  lemma OneLess(q: nat, u: nat)
    ensures (q - 1) * u == q * u - u
  {
  }

  lemma {:induction false} ReachIs(m: nat, radix: nat, k: nat)
    requires 2 <= radix <= 36 && m == Power(radix, k) && 0 < m <= MAX_MULTIPLIER
    ensures var r := k + Reach(m, radix); Power(radix, r) <= MAX_MULTIPLIER < Power(radix, r + 1)
    decreases MAX_MULTIPLIER - m
  {
    if m * radix <= MAX_MULTIPLIER {
      ReachNext(m, radix, k);
      Growing(m, radix);
      ReachIs(radix * m, radix, k + 1);
    } else {
      ReachEnds(m, radix);
    }
  }
}

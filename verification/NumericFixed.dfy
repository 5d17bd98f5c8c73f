/** Number.prototype.toFixed: the exact decimal expansion cut, rounded half up in place, carries and all
    (section 21.1.3.3 of ECMA-262; jsrt_number_methods.c). */
module NumericFixed {
  import opened KeyOrder
  import opened Decimal
  import NumericModel

  const DOT: nat := 46
  const MINUS: nat := 45
  const ZERO: nat := 48
  const NINE: nat := 57

  /** Fraction digits of the exact expansion; no double below 1e21 has more than 1074. */
  const EXPANSION: nat := 1100
  const SIZE: nat := 136

  lemma {:induction false} NatOfConcat(a: seq<nat>, b: seq<nat>)
    requires AllDigits(a) && AllDigits(b)
    ensures AllDigits(a + b) && NatOf(a + b) == NatOf(a) * Pow10(|b|) + NatOf(b)
    decreases |b|
  {
    if b == [] {
      assert a + b == a;
    } else {
      var n := |b| - 1;
      NatOfConcat(a, b[..n]);
      assert (a + b)[..|a + b| - 1] == a + b[..n];
      Spread(NatOf(a), Pow10(n), NatOf(b[..n]));
    }
  }

  lemma Spread(a: nat, p: nat, c: nat)
    ensures (a * p + c) * 10 == a * (10 * p) + c * 10
  {
  }

  lemma {:induction false} NatOfBound(ds: seq<nat>)
    requires AllDigits(ds)
    ensures NatOf(ds) < Pow10(|ds|)
  {
    if ds != [] { NatOfBound(ds[..|ds| - 1]); }
  }

  // ---------------------------------------------------------------- what is promised

  /** The integer nearest `expansion` / 10^drop, a half rounded up. */
  function HalfUp(expansion: nat, drop: nat): int {
    var p := Pow10(drop);
    (2 * expansion + p) / (2 * p)
  }

  /** `text` is the number `n` with its point `f` digits from the right, no leading zero to spare. */
  ghost predicate Prints(text: seq<nat>, n: int, f: nat) {
    exists whole, frac :: PrintsAs(text, whole, frac, n, f)
  }

  ghost predicate PrintsAs(text: seq<nat>, whole: seq<nat>, frac: seq<nat>, n: int, f: nat) {
    && Canonical(whole) && AllDigits(frac) && |frac| == f
    && text == whole + (if f == 0 then [] else [DOT] + frac)
    && AllDigits(whole + frac) && NatOf(whole + frac) == n
  }

  function Apart(a: int, b: int): int { if a < b then b - a else a - b }

  /** No other multiple of 10^drop is nearer, and of two as near it is the larger. */
  lemma HalfUpNearest(v: nat, drop: nat, m: int)
    ensures var n, p := HalfUp(v, drop), Pow10(drop);
      Apart(n * p, v) <= Apart(m * p, v) && (Apart(n * p, v) == Apart(m * p, v) ==> m <= n)
  {
    hide Pow10;
    var n, p := HalfUp(v, drop), Pow10(drop);
    Halfway(2 * v + p, p, n);
    Steps(n, m, p);
  }

  lemma Halfway(w: nat, p: nat, n: int)
    requires p > 0 && n == w / (2 * p)
    ensures 2 * (n * p) <= w < 2 * (n * p) + 2 * p
  {
    var q := 2 * p;
    assert w == n * q + w % q;
    assert n * q == 2 * (n * p);
  }

  lemma Steps(n: int, m: int, p: nat)
    ensures m > n ==> m * p >= n * p + p
    ensures m < n ==> m * p <= n * p - p
  {
    if m > n { Ahead(n, m - n - 1, p); }
    if m < n { Ahead(m, n - m - 1, p); }
  }

  lemma Ahead(n: int, k: nat, p: nat)
    ensures (n + k + 1) * p >= n * p + p
  {
    NumericModel.Nonneg(k, p);
    assert (n + k + 1) * p == n * p + k * p + p;
  }

  /** Cutting an expansion and looking at the next digit is rounding half up. */
  lemma CutRounds(kept: seq<nat>, rest: seq<nat>)
    requires AllDigits(kept) && AllDigits(rest) && rest != []
    ensures AllDigits(kept + rest)
    ensures HalfUp(NatOf(kept + rest), |rest|) == NatOf(kept) + (if rest[0] >= 53 then 1 else 0)
  {
    NatOfConcat(kept, rest);
    var low := rest[1..];
    assert rest == [rest[0]] + low;
    NatOfConcat([rest[0]], low);
    assert NatOf([rest[0]]) == rest[0] - ZERO by { assert [rest[0]][..0] == []; }
    NatOfBound(low);
    HalfUpIs(NatOf(kept), rest[0] - ZERO, NatOf(low), Pow10(|low|));
  }

  lemma HalfUpIs(k: nat, d: nat, low: nat, p: nat)
    requires d < 10 && low < p
    ensures var v := k * (10 * p) + (d * p + low);
      (2 * v + 10 * p) / (2 * (10 * p)) == k + (if d >= 5 then 1 else 0)
  {
    var v := k * (10 * p) + (d * p + low);
    var q := k + (if d >= 5 then 1 else 0);
    var r := 2 * (d * p + low) + 10 * p - (if d >= 5 then 20 * p else 0);
    DigitBounds(d, p, low);
    assert 2 * v + 10 * p == q * (2 * (10 * p)) + r by { Unfold(k, p, if d >= 5 then 1 else 0); }
    NumericModel.UniqueQuotient(2 * v + 10 * p, 2 * (10 * p), q, r);
  }

  lemma DigitBounds(d: nat, p: nat, low: nat)
    requires d < 10 && low < p
    ensures d >= 5 ==> 10 * p <= 2 * (d * p + low) < 20 * p
    ensures d < 5 ==> 0 <= 2 * (d * p + low) < 10 * p
  {
    if d >= 5 {
      assert 5 * p <= d * p <= 9 * p by { Times(5, d, p); Times(d, 9, p); }
    } else {
      assert d * p <= 4 * p by { Times(d, 4, p); }
    }
  }

  lemma Times(a: nat, b: nat, p: nat)
    requires a <= b
    ensures a * p <= b * p
  {
    assert (b - a) * p >= 0;
  }

  lemma Unfold(k: nat, p: nat, up: nat)
    ensures (k + up) * (2 * (10 * p)) == 2 * (k * (10 * p)) + up * (20 * p)
  {
  }

  // ---------------------------------------------------------------- the text as digits

  /** The digits of a text, the point passed over. */
  function Bare(text: seq<nat>): (ds: seq<nat>)
    requires DigitsOrDot(text)
    ensures AllDigits(ds)
  {
    if text == [] then []
    else if text[|text| - 1] == DOT then Bare(text[..|text| - 1])
    else Bare(text[..|text| - 1]) + [text[|text| - 1]]
  }

  predicate DigitsOrDot(text: seq<nat>) { forall i :: 0 <= i < |text| ==> IsDigit(text[i]) || text[i] == DOT }

  lemma {:induction false} BareConcat(a: seq<nat>, b: seq<nat>)
    requires DigitsOrDot(a) && DigitsOrDot(b)
    ensures DigitsOrDot(a + b) && Bare(a + b) == Bare(a) + Bare(b)
    decreases |b|
  {
    if b == [] {
      assert a + b == a;
    } else {
      var n := |b| - 1;
      BareConcat(a, b[..n]);
      assert (a + b)[..|a + b| - 1] == a + b[..n];
    }
  }

  lemma {:induction false} BareDigits(ds: seq<nat>)
    requires AllDigits(ds)
    ensures DigitsOrDot(ds) && Bare(ds) == ds
  {
    if ds != [] {
      BareDigits(ds[..|ds| - 1]);
      assert ds == ds[..|ds| - 1] + [ds[|ds| - 1]];
    }
  }

  /** A run that carried: nines, and zeros in their place, the point where it was. */
  predicate Carried(before: seq<nat>, after: seq<nat>) {
    |before| == |after| && forall i :: 0 <= i < |before| ==>
      (before[i] == NINE && after[i] == ZERO) || (before[i] == DOT && after[i] == DOT)
  }

  lemma {:induction false} CarriedValue(before: seq<nat>, after: seq<nat>)
    requires Carried(before, after)
    ensures DigitsOrDot(before) && DigitsOrDot(after) && |Bare(before)| == |Bare(after)|
    ensures NatOf(Bare(before)) + 1 == Pow10(|Bare(before)|) && NatOf(Bare(after)) == 0
  {
    if before != [] {
      var n := |before| - 1;
      CarriedValue(before[..n], after[..n]);
    }
  }

  /** One more than the whole is one more than what is before the run, then zeros. */
  lemma CarryTakesOne(front: seq<nat>, front': seq<nat>, before: seq<nat>, after: seq<nat>)
    requires DigitsOrDot(front) && DigitsOrDot(front') && Carried(before, after)
    requires NatOf(Bare(front')) == NatOf(Bare(front)) + 1
    ensures DigitsOrDot(front + before) && DigitsOrDot(front' + after)
    ensures NatOf(Bare(front' + after)) == NatOf(Bare(front + before)) + 1
  {
    hide NatOf, Bare, Pow10, Carried;
    CarriedValue(before, after);
    BareConcat(front, before);
    BareConcat(front', after);
    NatOfConcat(Bare(front), Bare(before));
    NatOfConcat(Bare(front'), Bare(after));
    OneMore(NatOf(Bare(front)), Pow10(|Bare(before)|));
  }

  lemma OneMore(a: nat, p: nat)
    ensures (a + 1) * p == a * p + p
  {
  }

  // ---------------------------------------------------------------- in place

  /** The text of an expansion cut after `f` fraction digits. */
  function Cut(whole: seq<nat>, frac: seq<nat>, f: nat): seq<nat>
    requires f <= |frac|
  {
    whole + (if f == 0 then [] else [DOT] + frac[..f])
  }

  /** The carry so far: nothing changed before `i`, and a run of nines behind it turned over. */
  ghost predicate Carrying(text: seq<nat>, now: seq<nat>, i: nat) {
    i <= |text| == |now| && now[..i] == text[..i] && Carried(text[i..], now[i..])
  }

  lemma CarryNine(text: seq<nat>, now: seq<nat>, i: nat)
    requires Carrying(text, now, i) && i > 0 && (text[i - 1] == NINE || text[i - 1] == DOT)
    ensures now[i - 1] == text[i - 1]
    ensures Carrying(text, now[i - 1 := if text[i - 1] == NINE then ZERO else DOT], i - 1)
  {
    var now' := now[i - 1 := if text[i - 1] == NINE then ZERO else DOT];
    assert now[..i][i - 1] == text[..i][i - 1];
    assert text[i - 1..] == [text[i - 1]] + text[i..] && now'[i - 1..] == [now'[i - 1]] + now[i..];
    assert now'[..i - 1] == now[..i][..i - 1] && text[..i - 1] == text[..i][..i - 1];
  }

  /** Digits for digits, the point where it was, and at most one more in the first place. */
  predicate SameShape(text: seq<nat>, r: seq<nat>) {
    && |r| == |text| && DigitsOrDot(r) && (forall k :: 0 <= k < |r| ==> (r[k] == DOT <==> text[k] == DOT))
    && (r != [] && text[0] != ZERO ==> r[0] != ZERO)
  }

  lemma LastDigit(front: seq<nat>, c: nat)
    requires DigitsOrDot(front) && IsDigit(c)
    ensures DigitsOrDot(front + [c]) && NatOf(Bare(front + [c])) == NatOf(Bare(front)) * 10 + (c - ZERO)
  {
    assert (front + [c])[..|front|] == front;
    var ds := Bare(front);
    assert (ds + [c])[..|ds|] == ds;
  }

  lemma StopShape(text: seq<nat>, now: seq<nat>, i: nat)
    requires DigitsOrDot(text) && Carrying(text, now, i) && i > 0 && IsDigit(text[i - 1]) && text[i - 1] != NINE
    ensures now[i - 1] == text[i - 1] && SameShape(text, now[i - 1 := text[i - 1] + 1])
  {
    forall k | 0 <= k < i ensures now[k] == text[k] { assert now[..i][k] == text[..i][k]; }
    forall k | i <= k < |text| ensures IsDigit(now[k]) || now[k] == DOT
      ensures now[k] == DOT <==> text[k] == DOT
    {
      assert text[k] == text[i..][k - i] && now[k] == now[i..][k - i];
    }
  }

  /** A digit below nine takes the carry. */
  lemma CarryStops(text: seq<nat>, now: seq<nat>, i: nat)
    requires DigitsOrDot(text) && Carrying(text, now, i) && i > 0 && IsDigit(text[i - 1]) && text[i - 1] != NINE
    ensures now[i - 1] == text[i - 1]
    ensures var r := now[i - 1 := text[i - 1] + 1];
      SameShape(text, r) && NatOf(Bare(r)) == NatOf(Bare(text)) + 1
  {
    hide NatOf, Bare;
    var c := text[i - 1];
    var r := now[i - 1 := c + 1];
    var front := text[..i - 1];
    StopShape(text, now, i);
    assert front == text[..i][..i - 1] && now[..i - 1] == now[..i][..i - 1];
    assert r == (front + [c + 1]) + now[i..];
    assert text == (front + [c]) + text[i..];
    LastDigit(front, c);
    LastDigit(front, c + 1);
    CarryTakesOne(front + [c], front + [c + 1], text[i..], now[i..]);
  }

  /** All nines: a one in front of the zeros. */
  lemma CarryPrepends(text: seq<nat>, now: seq<nat>)
    requires Carrying(text, now, 0)
    ensures DigitsOrDot(text) && DigitsOrDot([ZERO + 1] + now)
    ensures NatOf(Bare([ZERO + 1] + now)) == NatOf(Bare(text)) + 1
  {
    hide NatOf, Bare;
    assert text[0..] == text && now[0..] == now;
    CarriedValue(text, now);
    var one: seq<nat> := [ZERO + 1];
    BareConcat(one, now);
    BareDigits(one);
    NatOfConcat(one, Bare(now));
    OneIsOne();
  }

  lemma OneIsOne()
    ensures NatOf([ZERO + 1]) == 1
  {
    var one: seq<nat> := [ZERO + 1];
    assert one[..0] == [];
  }

  /** A whole part of `n` digits, and a point and `f` more if there are any. */
  predicate Layout(text: seq<nat>, n: nat, f: nat) {
    && |text| == n + (if f == 0 then 0 else 1 + f) && AllDigits(text[..n])
    && (f > 0 ==> text[n] == DOT && AllDigits(text[n + 1..]))
  }

  lemma LayoutPrints(text: seq<nat>, n: nat, f: nat, v: int)
    requires Layout(text, n, f) && Canonical(text[..n]) && DigitsOrDot(text) && NatOf(Bare(text)) == v
    ensures Prints(text, v, f)
  {
    hide NatOf, Bare;
    var whole := text[..n];
    BareDigits(whole);
    if f == 0 {
      assert text == whole + [] && whole + [] == whole;
      assert PrintsAs(text, whole, [], v, f);
    } else {
      var frac := text[n + 1..];
      assert text == whole + ([DOT] + frac);
      BareDigits(frac);
      BareDot();
      BareConcat([DOT], frac);
      BareConcat(whole, [DOT] + frac);
      assert [] + frac == frac;
      assert PrintsAs(text, whole, frac, v, f);
    }
  }

  lemma BareDot()
    ensures DigitsOrDot([DOT]) && Bare([DOT]) == []
  {
    var dot: seq<nat> := [DOT];
    assert dot[..0] == [];
  }

  lemma CutLayout(whole: seq<nat>, frac: seq<nat>, f: nat)
    requires AllDigits(whole) && AllDigits(frac) && f <= |frac|
    ensures var text := Cut(whole, frac, f);
      && Layout(text, |whole|, f) && text[..|whole|] == whole && DigitsOrDot(text) && Bare(text) == whole + frac[..f]
  {
    hide Bare;
    var text := Cut(whole, frac, f);
    BareDigits(whole);
    BareDigits(frac[..f]);
    BareDot();
    if f == 0 {
      assert text == whole && frac[..f] == [] && whole + [] == whole;
    } else {
      LayoutParts(whole, frac[..f]);
      BareConcat([DOT], frac[..f]);
      BareConcat(whole, [DOT] + frac[..f]);
      assert [] + frac[..f] == frac[..f];
    }
  }

  lemma LayoutParts(a: seq<nat>, b: seq<nat>)
    requires AllDigits(a) && AllDigits(b) && b != []
    ensures Layout(a + ([DOT] + b), |a|, |b|) && (a + ([DOT] + b))[..|a|] == a
  {
    assert (a + ([DOT] + b))[|a| + 1..] == b;
  }

  lemma ShapeKeepsLayout(text: seq<nat>, r: seq<nat>, n: nat, f: nat)
    requires Layout(text, n, f) && SameShape(text, r) && Canonical(text[..n])
    ensures Layout(r, n, f) && Canonical(r[..n])
  {
    forall k | 0 <= k < n ensures IsDigit(r[k]) { assert text[..n][k] == text[k]; }
    if f > 0 {
      forall k | n < k < |r| ensures IsDigit(r[k]) { assert text[n + 1..][k - n - 1] == text[k]; }
    }
    assert text[..n][0] == text[0];
  }

  lemma PrependLayout(text: seq<nat>, now: seq<nat>, n: nat, f: nat)
    requires Layout(text, n, f) && Carrying(text, now, 0)
    ensures Layout([ZERO + 1] + now, n + 1, f) && Canonical(([ZERO + 1] + now)[..n + 1])
  {
    var r := [ZERO + 1] + now;
    assert text[0..] == text && now[0..] == now;
    forall k | 0 <= k < n ensures IsDigit(now[k]) { assert text[..n][k] == text[k]; }
    if f > 0 {
      forall k | n < k < |now| ensures IsDigit(now[k]) { assert text[n + 1..][k - n - 1] == text[k]; }
      assert r[n + 2..] == now[n + 1..];
    }
  }

  /** The carry loop, from the last kept digit to the first; `up` tells that it runs off the front. */
  method Carry(out: array<nat>, start: nat, n: nat) returns (up: bool)
    requires start <= n <= out.Length && DigitsOrDot(out[start..n])
    modifies out
    ensures out[..start] == old(out[..start])
    ensures if up then Carrying(old(out[start..n]), out[start..n], 0)
            else SameShape(old(out[start..n]), out[start..n]) && NatOf(Bare(out[start..n])) == NatOf(Bare(old(out[start..n]))) + 1
  {
    hide NatOf, Bare, Carried;
    ghost var text := out[start..n];
    var i := n;
    NothingCarried(text);
    while i > start
      invariant start <= i <= n && out[..start] == old(out[..start])
      invariant Carrying(text, out[start..n], i - start)
    {
      ghost var now := out[start..n];
      ghost var k := i - start;
      assert now[..k][k - 1] == text[..k][k - 1] && out[i - 1] == now[k - 1];
      if out[i - 1] == DOT {
        CarryNine(text, now, k);
        assert now[k - 1 := DOT] == now;
      } else if out[i - 1] == NINE {
        CarryNine(text, now, k);
        out[i - 1] := ZERO;
        assert out[start..n] == now[k - 1 := ZERO];
      } else {
        CarryStops(text, now, k);
        out[i - 1] := out[i - 1] + 1;
        assert out[start..n] == now[k - 1 := text[k - 1] + 1];
        return false;
      }
      i := i - 1;
    }
    up := true;
  }

  lemma NothingCarried(text: seq<nat>)
    ensures Carrying(text, text, |text|)
  {
  }

  /** The kept digits, rounded up in place: the carry, and a one in front if it runs off. */
  method RoundUp(out: array<nat>, start: nat, n: nat, ghost whole: seq<nat>, ghost frac: seq<nat>, ghost f: nat) returns (end: nat)
    requires start <= n < out.Length && Canonical(whole) && AllDigits(frac) && f < |frac|
    requires out[start..n] == Cut(whole, frac, f) && AllDigits(whole + frac) && AllDigits(whole + frac[..f])
    modifies out
    ensures n <= end <= n + 1 && out[..start] == old(out[..start])
    ensures Prints(out[start..end], NatOf(whole + frac[..f]) + 1, f)
  {
    hide NatOf, Bare, Cut, Prints, Layout, Carried, SameShape;
    ghost var cut := Cut(whole, frac, f);
    CutLayout(whole, frac, f);
    var off := Carry(out, start, n);
    ghost var now := out[start..n];
    if off {
      CarryPrepends(cut, now);
      PrependLayout(cut, now, |whole|, f);
      LayoutPrints([ZERO + 1] + now, |whole| + 1, f, NatOf(whole + frac[..f]) + 1);
      ShiftRight(out, start, n);
      return n + 1;
    }
    ShapeKeepsLayout(cut, now, |whole|, f);
    ShapeDigits(cut, now);
    LayoutPrints(now, |whole|, f, NatOf(whole + frac[..f]) + 1);
    return n;
  }

  /** The sign and the expansion through the last kept digit. */
  method CopyKept(out: array<nat>, negative: bool, exact: seq<nat>, keep: nat) returns (start: nat)
    requires keep <= |exact| && 1 + keep <= out.Length
    modifies out
    ensures start == (if negative then 1 else 0) && out[..start] == (if negative then [MINUS] else [])
    ensures out[start..start + keep] == exact[..keep]
  {
    start := 0;
    if negative {
      out[0] := MINUS;
      start := 1;
    }
    for i := 0 to keep
      invariant out[start..start + i] == exact[..i] && out[..start] == (if negative then [MINUS] else [])
    {
      out[start + i] := exact[i];
    }
  }

  /** The body of `jsrt_number_to_fixed` behind `snprintf`: the expansion rounded half up behind `f` fraction
      digits, with the point put back; it fits its buffer. */
  method RoundedText(negative: bool, whole: seq<nat>, frac: seq<nat>, f: nat) returns (text: seq<nat>, ghost body: seq<nat>)
    requires Canonical(whole) && |whole| <= 21 && AllDigits(frac) && |frac| == EXPANSION && f <= 100
    ensures text == (if negative then [MINUS] else []) + body && AllDigits(whole + frac)
    ensures Prints(body, HalfUp(NatOf(whole + frac), EXPANSION - f), f)
  {
    hide NatOf, Bare, Cut, HalfUp, Prints, Layout;
    var exact := whole + [DOT] + frac;
    var point := |whole|;
    var keep := point + 1 + f;
    assert exact[keep] == frac[f];
    var up := exact[keep] >= 53;
    var out := new nat[SIZE](_ => 0);
    var start := CopyKept(out, negative, exact, keep);
    var n := if f == 0 then start + keep - 1 else start + keep;
    KeptIsCut(whole, frac, f, exact, out[start..start + keep], out[start..n]);
    CutValue(whole, frac, f);
    if up {
      n := RoundUp(out, start, n, whole, frac, f);
    } else {
      CutLayout(whole, frac, f);
      LayoutPrints(Cut(whole, frac, f), |whole|, f, NatOf(whole + frac[..f]));
    }
    body := out[start..n];
    text := out[..n];
    assert text == out[..start] + out[start..n];
  }

  // ---------------------------------------------------------------- the number

  /** A double: its sign, and 53 bits times a power of two. */
  datatype Number = NaN | Infinite(below: bool) | Finite(negative: bool, number: nat, exponent: int)

  predicate IsNumber(x: Number) { x.Finite? ==> x.number < NumericModel.LIMIT && x.exponent >= -1074 }

  /** x < 0, which -0 is not. */
  predicate Negative(x: Number)
    requires x.Finite?
  {
    x.negative && x.number > 0
  }

  /** The magnitude of `x` is at least `n`. */
  predicate AtLeast(x: Number, n: nat)
    requires x.Finite?
  {
    if x.exponent >= 0 then x.number * NumericModel.Pow2(x.exponent) >= n
    else x.number >= n * NumericModel.Pow2(-x.exponent)
  }

  function Pow5(n: nat): (p: nat)
    ensures p > 0
  {
    if n == 0 then 1 else 5 * Pow5(n - 1)
  }

  lemma {:induction false} Pow5Is(k: nat)
    ensures Pow5(k) * NumericModel.Pow2(k) == Pow10(k)
  {
    if k > 0 {
      Pow5Is(k - 1);
      FiveTwo(Pow5(k - 1), NumericModel.Pow2(k - 1));
    }
  }

  lemma FiveTwo(a: nat, b: nat)
    ensures 5 * a * (2 * b) == 10 * (a * b)
  {
  }

  /** The magnitude of `x` times 10^1100, which is a whole number. */
  function Expansion(x: Number): nat
    requires x.Finite? && IsNumber(x)
  {
    if x.exponent >= 0 then NumericModel.Product(NumericModel.Product(x.number, NumericModel.Pow2(x.exponent)), Pow10(EXPANSION))
    else NumericModel.Product(NumericModel.Product(x.number, Pow5(-x.exponent)), Pow10(EXPANSION + x.exponent))
  }

  /** It is that: over 2^k it is the number times 10^1100. */
  lemma ExpansionIs(x: Number)
    requires x.Finite? && IsNumber(x) && x.exponent < 0
    ensures NumericModel.Product(Expansion(x), NumericModel.Pow2(-x.exponent)) == NumericModel.Product(x.number, Pow10(EXPANSION))
  {
    hide Pow10, Pow5, NumericModel.Pow2;
    var k: nat := -x.exponent;
    Pow5Is(k);
    Pow10Add(EXPANSION - k, k);
    Regroup(x.number, Pow5(k), Pow10(EXPANSION - k), NumericModel.Pow2(k));
  }

  lemma Regroup(n: nat, a: nat, b: nat, c: nat)
    ensures n * a * b * c == n * (b * (a * c))
  {
    assert n * a * b * c == n * (a * b * c);
    assert a * b * c == b * (a * c);
  }

  /** The two tests of one magnitude agree. */
  lemma ExpansionAtLeast(x: Number, n: nat)
    requires x.Finite? && IsNumber(x)
    ensures AtLeast(x, n) <==> Expansion(x) >= NumericModel.Product(n, Pow10(EXPANSION))
  {
    hide Pow10, Pow5, NumericModel.Pow2;
    var t := Pow10(EXPANSION);
    if x.exponent >= 0 {
      Compared(NumericModel.Product(x.number, NumericModel.Pow2(x.exponent)), n, t);
    } else {
      var p := NumericModel.Pow2(-x.exponent);
      ExpansionIs(x);
      Compared(x.number, NumericModel.Product(n, p), t);
      Compared(Expansion(x), NumericModel.Product(n, t), p);
      Exchange(n, p, t);
    }
  }

  lemma Exchange(n: nat, p: nat, t: nat)
    ensures n * p * t == n * t * p
  {
    assert n * p * t == n * (p * t);
    assert n * t * p == n * (t * p);
  }

  lemma Compared(a: nat, b: nat, t: nat)
    requires t > 0
    ensures a >= b <==> a * t >= b * t
  {
    if a >= b { Times(b, a, t); } else { Times(a + 1, b, t); }
  }

  /** The last `k` digits of a number. */
  function LowDigits(n: nat, k: nat): (ds: seq<nat>)
    ensures |ds| == k && AllDigits(ds)
  {
    if k == 0 then [] else LowDigits(n / 10, k - 1) + [ZERO + n % 10]
  }

  lemma {:induction false} LowDigitsAre(n: nat, k: nat)
    requires n < Pow10(k)
    ensures NatOf(LowDigits(n, k)) == n
  {
    if k > 0 {
      LowDigitsAre(n / 10, k - 1);
      assert LowDigits(n, k)[..k - 1] == LowDigits(n / 10, k - 1);
    }
  }

  /** What `snprintf` prints for "%.1100f", before and behind the point. */
  function Expanded(x: Number): (seq<nat>, seq<nat>)
    requires x.Finite? && IsNumber(x)
  {
    hide Pow10;
    (NatText(Expansion(x) / Pow10(EXPANSION)), LowDigits(Expansion(x) % Pow10(EXPANSION), EXPANSION))
  }

  lemma ExpandedIs(x: Number)
    requires x.Finite? && IsNumber(x) && !AtLeast(x, Pow10(21))
    ensures var (whole, frac) := Expanded(x);
      && Canonical(whole) && |whole| <= 21 && AllDigits(frac) && |frac| == EXPANSION
      && AllDigits(whole + frac) && NatOf(whole + frac) == Expansion(x)
  {
    hide Pow10, Expansion, NatOf, AtLeast, LowDigits, NatText;
    var t := Pow10(EXPANSION);
    var w, r := Expansion(x) / t, Expansion(x) % t;
    var (whole, frac) := Expanded(x);
    NumericModel.Divides(Expansion(x), t);
    NatTextRoundTrip(w);
    LowDigitsAre(r, EXPANSION);
    NatOfConcat(whole, frac);
    ExpansionAtLeast(x, Pow10(21));
    if |whole| > 21 {
      LeadingDigit(whole);
      Pow10Grows(21, |whole| - 1);
      Times(Pow10(21), w, t);
      assert false;
    }
  }

  /** What the argument comes to: a whole number, or an infinity. */
  datatype Count = Whole(n: int) | Unbounded

  /** `AsString` is what ToString answers. */
  datatype Outcome = RangeError | AsString | Fixed(text: seq<nat>)

  predicate InRange(digits: Count) { digits.Whole? && 0 <= digits.n <= 100 }

  /** `jsrt_number_to_fixed`: of every number below 10^21 what is printed is the integer nearest to its magnitude
      times ten to the number of digits, a half rounded up (`HalfUpNearest`), and a sign below zero. */
  method ToFixed(x: Number, digits: Count) returns (r: Outcome, ghost body: seq<nat>)
    requires IsNumber(x)
    ensures r == RangeError <==> !InRange(digits)
    ensures r == AsString <==> InRange(digits) && (x.Finite? ==> AtLeast(x, Pow10(21)))
    ensures r.Fixed? ==>
      && r.text == (if Negative(x) then [MINUS] else []) + body
      && Prints(body, HalfUp(Expansion(x), EXPANSION - digits.n), digits.n)
  {
    hide Pow10, Expansion, NatOf, AtLeast, Expanded, HalfUp, Prints;
    if !InRange(digits) {
      return RangeError, [];
    }
    if !x.Finite? || AtLeast(x, Pow10(21)) {
      return AsString, [];
    }
    var (whole, frac) := Expanded(x);
    ExpandedIs(x);
    var text;
    text, body := RoundedText(Negative(x), whole, frac, digits.n);
    r := Fixed(text);
  }

  lemma ShapeDigits(text: seq<nat>, r: seq<nat>)
    requires SameShape(text, r)
    ensures DigitsOrDot(r)
  {
  }

  lemma KeptIsCut(whole: seq<nat>, frac: seq<nat>, f: nat, exact: seq<nat>, kept: seq<nat>, used: seq<nat>)
    requires f <= |frac| && exact == whole + [DOT] + frac && kept == exact[..|whole| + 1 + f]
    requires used == if f == 0 then kept[..|whole|] else kept
    ensures used == Cut(whole, frac, f)
  {
  }

  /** The cut digits, plus one if the next digit is five or more, are the rounded number. */
  lemma CutValue(whole: seq<nat>, frac: seq<nat>, f: nat)
    requires AllDigits(whole) && AllDigits(frac) && f < |frac|
    ensures AllDigits(whole + frac) && AllDigits(whole + frac[..f])
    ensures HalfUp(NatOf(whole + frac), |frac| - f) == NatOf(whole + frac[..f]) + (if frac[f] >= 53 then 1 else 0)
  {
    CutRounds(whole + frac[..f], frac[f..]);
    assert whole + frac[..f] + frac[f..] == whole + frac;
  }

  /** Room for a one in front. */
  method ShiftRight(out: array<nat>, start: nat, n: nat)
    requires start <= n < out.Length
    modifies out
    ensures out[..start] == old(out[..start]) && out[start..n + 1] == [ZERO + 1] + old(out[start..n])
  {
    var i := n;
    while i > start
      invariant start <= i <= n && out[..start] == old(out[..start])
      invariant forall k :: start <= k < i ==> out[k] == old(out[k])
      invariant forall k :: i < k <= n ==> out[k] == old(out[k - 1])
    {
      out[i] := out[i - 1];
      i := i - 1;
    }
    out[start] := ZERO + 1;
  }

  // ---------------------------------------------------------------- only one text

  lemma {:induction false} SameLengthSame(a: seq<nat>, b: seq<nat>)
    requires AllDigits(a) && AllDigits(b) && |a| == |b| && NatOf(a) == NatOf(b)
    ensures a == b
    decreases |a|
  {
    if a != [] {
      var n := |a| - 1;
      SameLengthSame(a[..n], b[..n]);
      assert a == a[..n] + [a[n]] && b == b[..n] + [b[n]];
    }
  }

  lemma LeadingDigit(ds: seq<nat>)
    requires AllDigits(ds) && ds != [] && ds[0] != ZERO
    ensures NatOf(ds) >= Pow10(|ds| - 1)
  {
    var head, tail := [ds[0]], ds[1..];
    assert ds == head + tail && head[..0] == [];
    NatOfConcat(head, tail);
    Times(1, NatOf(head), Pow10(|tail|));
  }

  lemma {:induction false} Pow10Grows(a: nat, b: nat)
    requires a <= b
    ensures Pow10(a) <= Pow10(b)
  {
    if a < b { Pow10Grows(a, b - 1); }
  }

  /** Without a leading zero, no other spelling of the number is shorter. */
  lemma Shortest(a: seq<nat>, b: seq<nat>)
    requires AllDigits(a) && AllDigits(b) && a != [] && a[0] != ZERO && NatOf(a) == NatOf(b)
    ensures |a| <= |b|
  {
    hide NatOf, Pow10;
    LeadingDigit(a);
    NatOfBound(b);
    if |b| <= |a| - 1 { Pow10Grows(|b|, |a| - 1); }
  }

  lemma NoLonger(w1: seq<nat>, f1: seq<nat>, w2: seq<nat>, f2: seq<nat>)
    requires Canonical(w1) && w2 != [] && |f1| == |f2|
    requires AllDigits(w1 + f1) && AllDigits(w2 + f2) && NatOf(w1 + f1) == NatOf(w2 + f2)
    ensures |w1| <= |w2|
  {
    hide NatOf, AllDigits;
    if |w1| > 1 {
      assert (w1 + f1)[0] == w1[0];
      Shortest(w1 + f1, w2 + f2);
    }
  }

  /** A number has one text with a given number of fraction digits. */
  lemma PrintsUnique(a: seq<nat>, b: seq<nat>, n: int, f: nat)
    requires Prints(a, n, f) && Prints(b, n, f)
    ensures a == b
  {
    var w1, f1 :| PrintsAs(a, w1, f1, n, f);
    var w2, f2 :| PrintsAs(b, w2, f2, n, f);
    NoLonger(w1, f1, w2, f2);
    NoLonger(w2, f2, w1, f1);
    SameLengthSame(w1 + f1, w2 + f2);
    assert w1 == (w1 + f1)[..|w1|] && w2 == (w2 + f2)[..|w1|];
    assert f1 == (w1 + f1)[|w1|..] && f2 == (w2 + f2)[|w1|..];
  }
}

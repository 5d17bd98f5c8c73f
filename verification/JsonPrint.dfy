/** What JSON.stringify writes (jsrt_print.c), as the tree of its text, and the round trip through
    JSON.parse. */
module JsonPrint {
  import opened CodecModel
  import opened KeyOrder
  import opened JsonModel
  import opened JsonParse
  import opened JsonComplete

  // ---------------------------------------------------------------- strings

  function HexGlyph(u: Unit): Glyph {
    Hex(HexChar(u / 0x1000), HexChar(u / 0x100 % 16), HexChar(u / 16 % 16), HexChar(u % 16))
  }

  /** `json_quote`: a pair passes; controls and lone surrogates are escaped. */
  function GlyphsAt(s: Text, i: nat): (gs: seq<Glyph>)
    requires i < |s|
    ensures |gs| == WidthAt(s, i)
  {
    var u := s[i];
    if PairAt(s, i) then [Plain(u), Plain(s[i + 1])]
    else if u == QUOTE || u == BACKSLASH then [Short(u)]
    else if u == 8 then [Short(98)]
    else if u == 12 then [Short(102)]
    else if u == 10 then [Short(110)]
    else if u == 13 then [Short(114)]
    else if u == 9 then [Short(116)]
    else if u < 0x20 || IsSurrogate(u) then [HexGlyph(u)]
    else [Plain(u)]
  }

  function GlyphsOf(s: Text, i: nat): seq<Glyph>
    decreases |s| - i
  {
    if i >= |s| then [] else GlyphsAt(s, i) + GlyphsOf(s, i + WidthAt(s, i))
  }

  lemma HexGlyphMeans(u: Unit)
    ensures ValidGlyph(HexGlyph(u)) && GlyphUnit(HexGlyph(u)) == u
  {
    assert u / 0x100 == u / 0x1000 * 16 + u / 0x100 % 16;
    assert u / 16 == u / 0x100 * 16 + u / 16 % 16;
  }

  lemma GlyphsAtMean(s: Text, i: nat)
    requires i < |s|
    ensures ValidGlyphs(GlyphsAt(s, i)) && GlyphUnits(GlyphsAt(s, i)) == s[i..i + WidthAt(s, i)]
  {
    var gs := GlyphsAt(s, i);
    if PairAt(s, i) {
      assert ValidGlyph(gs[0]) && ValidGlyph(gs[1]);
      GlyphUnitsJoin([gs[0]], [gs[1]]);
      OneGlyph(gs[0]);
      OneGlyph(gs[1]);
      assert gs == [gs[0]] + [gs[1]] && s[i..i + 2] == [s[i]] + [s[i + 1]];
    } else {
      OneGlyphAt(s, i);
      OneGlyph(gs[0]);
      assert gs == [gs[0]] && s[i..i + 1] == [s[i]];
    }
  }

  lemma OneGlyph(g: Glyph)
    requires ValidGlyph(g)
    ensures ValidGlyphs([g]) && GlyphUnits([g]) == [GlyphUnit(g)]
  {
    hide ValidGlyph, GlyphUnit;
  }

  lemma OneGlyphAt(s: Text, i: nat)
    requires i < |s| && !PairAt(s, i)
    ensures ValidGlyph(GlyphsAt(s, i)[0]) && GlyphUnit(GlyphsAt(s, i)[0]) == s[i]
  {
    hide HexGlyph;
    HexGlyphMeans(s[i]);
  }

  lemma GlyphUnitsJoin(a: seq<Glyph>, b: seq<Glyph>)
    requires ValidGlyphs(a) && ValidGlyphs(b)
    ensures ValidGlyphs(a + b) && GlyphUnits(a + b) == GlyphUnits(a) + GlyphUnits(b)
  {
  }

  /** What is quoted means the string, unit for unit. */
  lemma {:induction false} GlyphsMean(s: Text, i: nat)
    requires i <= |s|
    ensures ValidGlyphs(GlyphsOf(s, i)) && GlyphUnits(GlyphsOf(s, i)) == s[i..]
    decreases |s| - i
  {
    if i < |s| {
      var w := WidthAt(s, i);
      var gs, rest := GlyphsAt(s, i), GlyphsOf(s, i + w);
      GlyphsAtMean(s, i);
      GlyphsMean(s, i + w);
      GlyphUnitsJoin(gs, rest);
      assert s[i..] == s[i..i + w] + s[i + w..];
    }
  }

  // ---------------------------------------------------------------- numbers

  function Zeros(n: nat): (r: Text)
    ensures |r| == n && AllDigits(r)
  {
    seq(n, _ => 48)
  }

  /** `format_positive`'s five layouts, and "0" for either zero. */
  function NumeralOf(d: Decimal): Numeral {
    var k, n := |d.digits|, d.point;
    if k == 0 then Numeral(false, [48], [], NoExponent)
    else if k <= n <= 21 then Numeral(d.neg, d.digits + Zeros(n - k), [], NoExponent)
    else if 0 < n <= 21 then Numeral(d.neg, d.digits[..n], d.digits[n..], NoExponent)
    else if -6 < n <= 0 then Numeral(d.neg, [48], Zeros(-n) + d.digits, NoExponent)
    else
      var power := if n > 0 then Exponent(101, [PLUS], NatText(n - 1)) else Exponent(101, [MINUS], NatText(1 - n));
      Numeral(d.neg, [d.digits[0]], d.digits[1..], power)
  }

  function Positive(d: Decimal): Decimal { if d.digits == [] then Decimal(false, [], 0) else d }

  lemma {:induction false} DropsLeading(neg: bool, z: nat, ds: Text, point: int)
    requires AllDigits(ds)
    ensures AllDigits(Zeros(z) + ds) && Normal(neg, Zeros(z) + ds, point) == Normal(neg, ds, point - z)
    decreases z
  {
    var all := Zeros(z) + ds;
    if z == 0 {
      assert all == ds;
    } else {
      assert all[0] == 48 && all[1..] == Zeros(z - 1) + ds;
      DropsLeading(neg, z - 1, ds, point - 1);
    }
  }

  lemma {:induction false} DropsTrailing(neg: bool, ds: Text, z: nat, point: int)
    requires AllDigits(ds) && ds != [] && ds[0] != 48
    ensures AllDigits(ds + Zeros(z)) && Normal(neg, ds + Zeros(z), point) == Normal(neg, ds, point)
    decreases z
  {
    var all := ds + Zeros(z);
    if z == 0 {
      assert all == ds;
    } else {
      assert all[0] != 48 && all[|all| - 1] == 48 && all[..|all| - 1] == ds + Zeros(z - 1);
      DropsTrailing(neg, ds, z - 1, point);
    }
  }

  /** Each layout is a numeral of the grammar and denotes the number exactly. */
  lemma NumeralOfExact(d: Decimal)
    requires Shortest(d)
    ensures ValidNumeral(NumeralOf(d)) && Exact(NumeralOf(d)) == Positive(d)
  {
    var k, n := |d.digits|, d.point;
    if k == 0 {
      ZeroExact();
    } else if k <= n <= 21 {
      IntegerExact(NumeralOf(d), d);
    } else if 0 < n <= 21 {
      PointInside(NumeralOf(d), d);
    } else if -6 < n <= 0 {
      FractionExact(NumeralOf(d), d);
    } else {
      PowerExact(NumeralOf(d), d);
    }
  }

  lemma ZeroExact()
    ensures var m := Numeral(false, [48], [], NoExponent); ValidNumeral(m) && Exact(m) == Decimal(false, [], 0)
  {
    var whole: Text := [48];
    assert whole + [] == Zeros(1) + [];
    DropsLeading(false, 1, [], 1);
  }

  lemma IntegerExact(m: Numeral, d: Decimal)
    requires Shortest(d) && 0 < |d.digits| <= d.point
    requires m == Numeral(d.neg, d.digits + Zeros(d.point - |d.digits|), [], NoExponent)
    ensures ValidNumeral(m) && Exact(m) == d
  {
    assert m.whole[0] == d.digits[0];
    assert m.whole + m.frac == d.digits + Zeros(d.point - |d.digits|);
    DropsTrailing(d.neg, d.digits, d.point - |d.digits|, d.point);
  }

  lemma FractionExact(m: Numeral, d: Decimal)
    requires Shortest(d) && d.digits != [] && d.point <= 0
    requires m == Numeral(d.neg, [48], Zeros(-d.point) + d.digits, NoExponent)
    ensures ValidNumeral(m) && Exact(m) == d
  {
    assert m.whole + m.frac == Zeros(1 - d.point) + d.digits;
    DropsLeading(d.neg, 1 - d.point, d.digits, 1);
  }

  lemma PointInside(m: Numeral, d: Decimal)
    requires Shortest(d) && 0 < d.point < |d.digits|
    requires m == Numeral(d.neg, d.digits[..d.point], d.digits[d.point..], NoExponent)
    ensures ValidNumeral(m) && Exact(m) == d
  {
    assert m.whole + m.frac == d.digits;
  }

  lemma PowerExact(m: Numeral, d: Decimal)
    requires Shortest(d) && d.digits != [] && (d.point > 21 || d.point <= -6)
    requires m.neg == d.neg && m.whole == [d.digits[0]] && m.frac == d.digits[1..]
    requires m.exp == if d.point > 0 then Exponent(101, [PLUS], NatText(d.point - 1)) else Exponent(101, [MINUS], NatText(1 - d.point))
    ensures ValidNumeral(m) && Exact(m) == d
  {
    NatTextRoundTrip(if d.point > 0 then d.point - 1 else 1 - d.point);
    assert m.whole + m.frac == d.digits;
    assert [PLUS] != [MINUS] by { assert [PLUS][0] != [MINUS][0]; }
  }

  /** No number overruns the 64-byte buffer it is formatted in. */
  lemma {:induction false} NumeralFits(d: Decimal)
    requires Shortest(d) && |d.digits| <= 18 && -400 < d.point < 400
    ensures |SpellNumeral(NumeralOf(d))| < 64
  {
    var e: nat := if d.point > 0 then d.point - 1 else 1 - d.point;
    assert |NatText(e / 10 / 10)| == 1;
    assert |NatText(e / 10)| <= 2;
    assert |NatText(e)| <= 3;
  }

  // ---------------------------------------------------------------- values

  function TreeOf(v: Value): Tree
    requires !v.Undefined?
    decreases v, 0
  {
    match v
    case Null => NullWord
    case Bool(b) => if b then TrueWord else FalseWord
    case Num(n) => if n.Finite? then Numeric(NumeralOf(n.value)) else NullWord
    case Str(s) => Quoted(GlyphsOf(s, 0))
    case Arr(items) => if items == [] then EmptyArray([]) else Array(ItemsOf(items))
    case Obj(props) =>
      var ms := MembersOf(props, Order(Keys(props)), 0);
      if ms.NoMembers? then EmptyObject([]) else Object(ms)
  }

  /** A hole, undefined or a function is null among elements. */
  function ItemsOf(items: seq<Value>): Items
    decreases items, 0
  {
    if items == [] then NoItems
    else Item([], if items[0].Undefined? then NullWord else TreeOf(items[0]), [], ItemsOf(items[1..]))
  }

  /** Properties in listing order; one that is undefined or a function is left out. */
  function MembersOf(props: seq<Prop>, order: seq<nat>, k: nat): Members
    requires Slots(Keys(props), order)
    decreases props, |order| - k
  {
    if k >= |order| then NoMembers
    else
      var p := props[order[k]];
      if p.value.Undefined? then MembersOf(props, order, k + 1)
      else Member([], GlyphsOf(p.key, 0), [], [], TreeOf(p.value), [], MembersOf(props, order, k + 1))
  }

  /** The text JSON.stringify answers. */
  function Stringify(v: Value): Text
    requires !v.Undefined?
  {
    Spell(TreeOf(v))
  }

  /** What survives the trip: no negative zero or non-finite number, no undefined, keys as listed. */
  function Canon(v: Value): Value
    requires !v.Undefined?
    decreases v, 0
  {
    match v
    case Num(n) => if n.Finite? then Num(Finite(Positive(n.value))) else Null
    case Arr(items) => Arr(CanonItems(items))
    case Obj(props) => Obj(CanonProps(props, Order(Keys(props)), 0))
    case _ => v
  }

  function CanonItems(items: seq<Value>): (r: seq<Value>)
    ensures |r| == |items|
    decreases items, 0
  {
    if items == [] then [] else [if items[0].Undefined? then Null else Canon(items[0])] + CanonItems(items[1..])
  }

  function CanonProps(props: seq<Prop>, order: seq<nat>, k: nat): seq<Prop>
    requires Slots(Keys(props), order)
    decreases props, |order| - k
  {
    if k >= |order| then []
    else
      var p := props[order[k]];
      if p.value.Undefined? then CanonProps(props, order, k + 1)
      else [Prop(p.key, Canon(p.value))] + CanonProps(props, order, k + 1)
  }

  /** How many values lie on the longest path down what is written. */
  function Depth(v: Value): nat
    requires !v.Undefined?
    decreases v, 0
  {
    match v
    case Arr(items) => 1 + ItemsDepth(items)
    case Obj(props) => 1 + PropsDepth(props, Order(Keys(props)), 0)
    case _ => 1
  }

  function ItemsDepth(items: seq<Value>): nat
    decreases items, 0
  {
    if items == [] then 0 else Max(if items[0].Undefined? then 1 else Depth(items[0]), ItemsDepth(items[1..]))
  }

  function PropsDepth(props: seq<Prop>, order: seq<nat>, k: nat): nat
    requires Slots(Keys(props), order)
    decreases props, |order| - k
  {
    if k >= |order| then 0
    else
      var p := props[order[k]];
      if p.value.Undefined? then PropsDepth(props, order, k + 1)
      else Max(Depth(p.value), PropsDepth(props, order, k + 1))
  }

  /** A value the runtime can hold: numbers by their shortest digits, keys distinct and without NUL. */
  predicate Proper(v: Value) {
    match v
    case Num(n) => n.Finite? ==> Shortest(n.value)
    case Arr(items) => forall i :: 0 <= i < |items| ==> Proper(items[i])
    case Obj(props) =>
      && DistinctKeys(props)
      && forall i :: 0 <= i < |props| ==> 0 !in props[i].key && Proper(props[i].value)
    case _ => true
  }

  /** Every number of `v` is what `round` answers for its own shortest digits. */
  predicate Doubles(round: Decimal -> Number, v: Value) {
    match v
    case Num(n) => n.Finite? ==> round(Positive(n.value)) == Finite(Positive(n.value))
    case Arr(items) => forall i :: 0 <= i < |items| ==> Doubles(round, items[i])
    case Obj(props) => forall i :: 0 <= i < |props| ==> Doubles(round, props[i].value)
    case _ => true
  }

  /** strtod rounds the exact decimal a numeral denotes. */
  ghost predicate Rounds(strtod: Text -> Number, round: Decimal -> Number) {
    forall n: Numeral :: ValidNumeral(n) ==> strtod(SpellNumeral(n)) == round(Exact(n))
  }

  /** The written tree is grammatical, has the value's canonical form for its meaning, and its depth. */
  ghost predicate Written(strtod: Text -> Number, v: Value, t: Tree)
    requires !v.Undefined?
  {
    ValidTree(t) && PlainKeys(t) && Denote(strtod, t) == Canon(v) && Height(t) == Depth(v)
  }

  lemma {:induction false} TreeWritten(strtod: Text -> Number, round: Decimal -> Number, v: Value)
    requires !v.Undefined? && Proper(v) && Rounds(strtod, round) && Doubles(round, v)
    ensures Written(strtod, v, TreeOf(v))
    decreases v, 0
  {
    match v
    case Arr(items) =>
      ItemsWritten(strtod, round, items);
      hide ItemsOf, CanonItems, ItemsDepth, Proper, Doubles;
    case Obj(props) => ObjectWritten(strtod, round, props);
    case _ => ScalarWritten(strtod, round, v);
  }

  lemma ScalarWritten(strtod: Text -> Number, round: Decimal -> Number, v: Value)
    requires !v.Undefined? && !v.Arr? && !v.Obj? && Proper(v) && Rounds(strtod, round) && Doubles(round, v)
    ensures Written(strtod, v, TreeOf(v))
  {
    hide NumeralOf, GlyphsOf, Exact, Positive;
    match v
    case Num(n) =>
      if n.Finite? { NumeralOfExact(n.value); }
    case Str(s) =>
      GlyphsMean(s, 0);
      assert s[0..] == s;
    case _ =>
  }

  lemma {:induction false} ItemsWritten(strtod: Text -> Number, round: Decimal -> Number, items: seq<Value>)
    requires Rounds(strtod, round) && forall i :: 0 <= i < |items| ==> Proper(items[i]) && Doubles(round, items[i])
    ensures var t := ItemsOf(items);
      ValidItems(t) && PlainItems(t) && DenoteItems(strtod, t) == CanonItems(items) && ItemsHeight(t) == ItemsDepth(items)
    decreases items, 0
  {
    if items != [] {
      if !items[0].Undefined? { TreeWritten(strtod, round, items[0]); }
      ItemsWritten(strtod, round, items[1..]);
    }
  }

  lemma {:induction false} ObjectWritten(strtod: Text -> Number, round: Decimal -> Number, props: seq<Prop>)
    requires Rounds(strtod, round) && Proper(Obj(props)) && Doubles(round, Obj(props))
    ensures Written(strtod, Obj(props), TreeOf(Obj(props)))
    decreases props, |props| + 1
  {
    var order := Order(Keys(props));
    OrderListed(Keys(props), |props|);
    MembersWritten(strtod, round, props, order, 0, []);
    Unshift(CanonProps(props, order, 0));
  }

  lemma Unshift(a: seq<Prop>)
    ensures [] + a == a
  {
  }

  /** None of the properties still to be written has the key of one already there. */
  ghost predicate Apart(done: seq<Prop>, props: seq<Prop>, order: seq<nat>, k: nat)
    requires Slots(Keys(props), order)
  {
    forall i, j :: 0 <= i < |done| && k <= j < |order| ==> done[i].key != props[order[j]].key
  }

  /** The members from the `k`-th listed slot on, written after `done`. */
  ghost predicate MembersGood(strtod: Text -> Number, props: seq<Prop>, order: seq<nat>, k: nat, done: seq<Prop>)
    requires Slots(Keys(props), order)
  {
    var ms := MembersOf(props, order, k);
    && ValidMembers(ms) && PlainMembers(ms) && MembersHeight(ms) == PropsDepth(props, order, k)
    && DenoteMembers(strtod, ms, done) == done + CanonProps(props, order, k)
  }

  lemma {:induction false} MembersWritten(strtod: Text -> Number, round: Decimal -> Number, props: seq<Prop>, order: seq<nat>, k: nat, done: seq<Prop>)
    requires Rounds(strtod, round) && Proper(Obj(props)) && Doubles(round, Obj(props))
    requires Slots(Keys(props), order) && Listed(Keys(props), order) && |order| <= |props| && Apart(done, props, order, k)
    ensures MembersGood(strtod, props, order, k, done)
    decreases props, |order| - k
  {
    if k < |order| {
      var p := props[order[k]];
      if p.value.Undefined? {
        MembersWritten(strtod, round, props, order, k + 1, done);
      } else {
        TreeWritten(strtod, round, p.value);
        StillApart(done, props, order, k, Canon(p.value));
        MembersWritten(strtod, round, props, order, k + 1, done + [Prop(p.key, Canon(p.value))]);
        MemberWritten(strtod, props, order, k, done);
      }
    }
  }

  lemma MemberWritten(strtod: Text -> Number, props: seq<Prop>, order: seq<nat>, k: nat, done: seq<Prop>)
    requires Slots(Keys(props), order) && k < |order| && Apart(done, props, order, k)
    requires !props[order[k]].value.Undefined? && 0 !in props[order[k]].key
    requires Written(strtod, props[order[k]].value, TreeOf(props[order[k]].value))
    requires MembersGood(strtod, props, order, k + 1, done + [Prop(props[order[k]].key, Canon(props[order[k]].value))])
    ensures MembersGood(strtod, props, order, k, done)
  {
    var p := props[order[k]];
    GlyphsMean(p.key, 0);
    assert p.key[0..] == p.key;
    SetNewProp(done, p.key, Canon(p.value));
    Shift(done, Prop(p.key, Canon(p.value)), CanonProps(props, order, k + 1));
  }

  lemma Shift(a: seq<Prop>, p: Prop, b: seq<Prop>)
    ensures (a + [p]) + b == a + ([p] + b)
  {
  }

  lemma StillApart(done: seq<Prop>, props: seq<Prop>, order: seq<nat>, k: nat, v: Value)
    requires DistinctKeys(props) && Slots(Keys(props), order) && Listed(Keys(props), order)
    requires k < |order| && Apart(done, props, order, k)
    ensures Apart(done + [Prop(props[order[k]].key, v)], props, order, k + 1)
  {
    forall j | k < j < |order| ensures props[order[k]].key != props[order[j]].key {
      BeforeIsOrder(Keys(props), order[k], order[j], order[k]);
    }
  }

  /** JSON.parse gives back what JSON.stringify wrote, exactly when at most 512 values nest. */
  lemma StringifyParses(strtod: Text -> Number, round: Decimal -> Number, v: Value)
    requires !v.Undefined? && Proper(v) && Rounds(strtod, round) && Doubles(round, v)
    ensures Parse(strtod, Stringify(v)) == Ok(Canon(v), |Stringify(v)|) <==> Depth(v) <= 512
    ensures Parse(strtod, Stringify(v)).Ok? <==> Depth(v) <= 512
  {
    var t := TreeOf(v);
    TreeWritten(strtod, round, v);
    var text := Spell(t);
    assert text == [] + text + [];
    DocumentText(text, [], t, []);
    DocumentParses(strtod, text, [], t, []);
  }

  // ---------------------------------------------------------------- values that survive

  predicate InListing(props: seq<Prop>) {
    forall a, b :: 0 <= a < b < |props| ==> Precedes(props[a].key, props[b].key)
  }

  /** Nothing in `v` that the text cannot carry, and every object's keys already as listed. */
  predicate Settled(v: Value) {
    match v
    case Undefined => false
    case Num(n) => n.Finite? && Positive(n.value) == n.value
    case Arr(items) => forall i :: 0 <= i < |items| ==> Settled(items[i])
    case Obj(props) =>
      && InListing(props)
      && forall i :: 0 <= i < |props| ==> Settled(props[i].value)
    case _ => true
  }

  lemma {:induction false} SettledIsCanon(v: Value)
    requires Settled(v)
    ensures Canon(v) == v
    decreases v, 0
  {
    match v
    case Arr(items) => SettledItems(items);
    case Obj(props) =>
      OrderOfListed(Keys(props), |props|);
      SettledProps(props, 0);
      assert props[0..] == props;
    case _ =>
  }

  lemma {:induction false} SettledItems(items: seq<Value>)
    requires forall i :: 0 <= i < |items| ==> Settled(items[i])
    ensures CanonItems(items) == items
    decreases items, 0
  {
    if items != [] {
      SettledIsCanon(items[0]);
      SettledItems(items[1..]);
      assert items == [items[0]] + items[1..];
    }
  }

  lemma {:induction false} SettledProps(props: seq<Prop>, k: nat)
    requires k <= |props| && forall i :: 0 <= i < |props| ==> Settled(props[i].value)
    ensures CanonProps(props, seq(|props|, i => i), k) == props[k..]
    decreases props, |props| - k
  {
    if k < |props| {
      SettledIsCanon(props[k].value);
      SettledProps(props, k + 1);
      assert props[k..] == [props[k]] + props[k + 1..];
    }
  }

  /** What comes back is settled, so a second trip changes nothing. */
  lemma {:induction false} CanonSettles(v: Value)
    requires !v.Undefined? && Proper(v)
    ensures Settled(Canon(v))
    decreases v, 0
  {
    match v
    case Arr(items) =>
      forall i | 0 <= i < |items| ensures Settled(CanonItems(items)[i]) {
        CanonItemAt(items, i);
        if !items[i].Undefined? { CanonSettles(items[i]); }
      }
    case Obj(props) =>
      OrderListed(Keys(props), |props|);
      CanonPropsSettle(props, Order(Keys(props)), 0);
    case _ =>
  }

  /** The value itself comes back exactly when at most 512 values nest and nothing in it is lost on paper:
      no negative zero, NaN, infinity or undefined, and no key that would be listed before an earlier one. */
  lemma ValueComesBack(strtod: Text -> Number, round: Decimal -> Number, v: Value)
    requires !v.Undefined? && Proper(v) && Rounds(strtod, round) && Doubles(round, v)
    ensures Parse(strtod, Stringify(v)) == Ok(v, |Stringify(v)|) <==> Depth(v) <= 512 && Settled(v)
  {
    StringifyParses(strtod, round, v);
    CanonSettles(v);
    if Settled(v) { SettledIsCanon(v); }
  }

  lemma {:induction false} CanonItemAt(items: seq<Value>, i: nat)
    requires i < |items|
    ensures CanonItems(items)[i] == if items[i].Undefined? then Null else Canon(items[i])
    decreases items
  {
    if i > 0 { CanonItemAt(items[1..], i - 1); }
  }

  ghost predicate KeyFrom(key: Text, props: seq<Prop>, order: seq<nat>, k: nat)
    requires Slots(Keys(props), order)
  {
    exists j :: k <= j < |order| && key == props[order[j]].key
  }

  /** Settled values under listed keys, all from the slots from `k` on. */
  ghost predicate SettledFrom(r: seq<Prop>, props: seq<Prop>, order: seq<nat>, k: nat)
    requires Slots(Keys(props), order)
  {
    && InListing(r) && (forall i :: 0 <= i < |r| ==> Settled(r[i].value))
    && (forall i :: 0 <= i < |r| ==> KeyFrom(r[i].key, props, order, k))
  }

  lemma SettledNext(r: seq<Prop>, props: seq<Prop>, order: seq<nat>, k: nat)
    requires Slots(Keys(props), order) && SettledFrom(r, props, order, k + 1)
    ensures SettledFrom(r, props, order, k)
  {
    forall i | 0 <= i < |r| ensures KeyFrom(r[i].key, props, order, k) {
      assert KeyFrom(r[i].key, props, order, k + 1);
    }
  }

  lemma SettledPrepend(p: Prop, rest: seq<Prop>, props: seq<Prop>, order: seq<nat>, k: nat)
    requires Slots(Keys(props), order) && Listed(Keys(props), order) && k < |order|
    requires SettledFrom(rest, props, order, k + 1) && p.key == props[order[k]].key && Settled(p.value)
    ensures SettledFrom([p] + rest, props, order, k)
  {
    forall i | 0 <= i < |rest| ensures Precedes(p.key, rest[i].key) {
      assert KeyFrom(rest[i].key, props, order, k + 1);
      var j :| k + 1 <= j < |order| && rest[i].key == props[order[j]].key;
      BeforePrecedes(Keys(props), order[k], order[j]);
    }
    SettledNext(rest, props, order, k);
    assert KeyFrom(p.key, props, order, k);
  }

  lemma {:induction false} CanonPropsSettle(props: seq<Prop>, order: seq<nat>, k: nat)
    requires Proper(Obj(props)) && Slots(Keys(props), order) && Listed(Keys(props), order)
    ensures SettledFrom(CanonProps(props, order, k), props, order, k)
    decreases props, |order| - k
  {
    if k < |order| {
      var p := props[order[k]];
      CanonPropsSettle(props, order, k + 1);
      if p.value.Undefined? {
        SettledNext(CanonProps(props, order, k + 1), props, order, k);
      } else {
        CanonSettles(p.value);
        SettledPrepend(Prop(p.key, Canon(p.value)), CanonProps(props, order, k + 1), props, order, k);
      }
    }
  }
}

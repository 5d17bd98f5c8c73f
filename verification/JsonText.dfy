/** The text JSON.stringify writes is the only compact one of its value, and what is not written is what text
    cannot carry (sections 6.1.6.1.20 and 25.5.2 of ECMA-262). */
module JsonText {
  import opened CodecModel
  import opened KeyOrder
  import opened JsonModel
  import opened JsonPrint

  // ---------------------------------------------------------------- numbers

  /** Zero, and magnitudes from 1e-6 to below 1e21. */
  predicate WithoutExponent(d: Decimal) { d.digits == [] || -5 <= d.point <= 21 }

  predicate TidyExponent(e: Exponent) {
    e.Exponent? && e.marker == 101 && (e.sign == [PLUS] || e.sign == [MINUS]) && Canonical(e.digits) && NatOf(e.digits) > 0
  }

  /** As the language writes numbers: an exponent only outside that range, with its sign and behind one digit;
      no needless zero, and no sign on zero. */
  predicate Tidy(m: Numeral) {
    && ValidNumeral(m)
    && (m.exp.NoExponent? <==> WithoutExponent(Exact(m)))
    && (m.exp.Exponent? ==> TidyExponent(m.exp) && |m.whole| == 1 && m.whole[0] != 48)
    && (m.frac != [] ==> m.frac[|m.frac| - 1] != 48)
    && (Exact(m).digits == [] ==> !m.neg)
  }

  /** What the source writes is that. */
  lemma NumeralTidy(d: Decimal)
    requires Shortest(d)
    ensures Tidy(NumeralOf(d))
  {
    hide Exact, NatText, NatOf, AllDigits;
    NumeralOfExact(d);
    var n := d.point;
    NatTextRoundTrip(if n > 0 then n - 1 else 1 - n);
    PowerPositive(if n > 0 then n - 1 else 1 - n);
  }

  lemma PowerPositive(e: nat)
    ensures AllDigits(NatText(e)) && NatOf(NatText(e)) == e
  {
    NatTextRoundTrip(e);
  }

  lemma LeadingZeros(ds: Text) returns (z: nat)
    requires AllDigits(ds) && ds != [] && ds[|ds| - 1] != 48
    ensures z < |ds| && ds == Zeros(z) + ds[z..] && ds[z] != 48
  {
    z := 0;
    while ds[z] == 48
      invariant z < |ds| && ds[..z] == Zeros(z)
      decreases |ds| - z
    {
      z := z + 1;
    }
    assert ds == ds[..z] + ds[z..];
  }

  lemma TrailingZeros(ds: Text) returns (k: nat)
    requires AllDigits(ds) && ds != [] && ds[0] != 48
    ensures 0 < k <= |ds| && ds == ds[..k] + Zeros(|ds| - k) && ds[k - 1] != 48
  {
    k := |ds|;
    while ds[k - 1] == 48
      invariant 0 < k <= |ds| && ds[k..] == Zeros(|ds| - k)
      decreases k
    {
      k := k - 1;
    }
    assert ds == ds[..k] + ds[k..];
  }

  /** A tidy numeral is the one of its own shortest digits. */
  lemma TidyIs(m: Numeral)
    requires Tidy(m)
    ensures m == NumeralOf(Exact(m))
  {
    if m.exp.Exponent? {
      TidyPower(m);
    } else if m.frac == [] {
      TidyWhole(m);
    } else {
      TidyFraction(m);
    }
  }

  lemma TidyFraction(m: Numeral)
    requires Tidy(m) && m.exp.NoExponent? && m.frac != []
    ensures m == NumeralOf(Exact(m))
  {
    hide Exact, Normal, AllDigits, NatText;
    if m.whole == [48] {
      var z := BelowOne(m);
    } else {
      PointBetween(m);
    }
  }

  lemma ZeroBefore(frac: Text, z: nat)
    requires z <= |frac| && frac == Zeros(z) + frac[z..]
    ensures [48] + frac == Zeros(z + 1) + frac[z..]
  {
  }

  lemma BelowOne(m: Numeral) returns (z: nat)
    requires Tidy(m) && m.exp.NoExponent? && m.frac != [] && m.whole == [48]
    ensures z < |m.frac| && m.frac == Zeros(z) + m.frac[z..] && Exact(m) == Decimal(m.neg, m.frac[z..], 0 - z as int)
  {
    hide Normal;
    z := LeadingZeros(m.frac);
    ZeroBefore(m.frac, z);
    hide Zeros;
    DropsLeading(m.neg, z + 1, m.frac[z..], 1);
    Stripped(m.neg, m.frac[z..], 1 - (z + 1));
  }

  lemma PointBetween(m: Numeral)
    requires Tidy(m) && m.exp.NoExponent? && m.frac != [] && m.whole != [48]
    ensures var ds := m.whole + m.frac;
      ds[..|m.whole|] == m.whole && ds[|m.whole|..] == m.frac && m.whole != [] && Exact(m) == Decimal(m.neg, ds, |m.whole|)
  {
    var ds := m.whole + m.frac;
    assert ds[0] == m.whole[0] && ds[|ds| - 1] == m.frac[|m.frac| - 1];
    hide Normal;
    Stripped(m.neg, ds, |m.whole|);
  }

  lemma Stripped(neg: bool, ds: Text, point: int)
    requires AllDigits(ds) && ds != [] && ds[0] != 48 && ds[|ds| - 1] != 48
    ensures Normal(neg, ds, point) == Decimal(neg, ds, point)
  {
  }

  lemma TidyWhole(m: Numeral)
    requires Tidy(m) && m.exp.NoExponent? && m.frac == []
    ensures m == NumeralOf(Exact(m))
  {
    assert m.whole + m.frac == m.whole;
    if m.whole == [48] {
      ZeroExact();
    } else {
      var k := TrailingZeros(m.whole);
      DropsTrailing(m.neg, m.whole[..k], |m.whole| - k, |m.whole|);
    }
  }

  lemma TidyPower(m: Numeral)
    requires Tidy(m) && m.exp.Exponent?
    ensures m == NumeralOf(Exact(m))
  {
    var ds := m.whole + m.frac;
    assert ds[0] == m.whole[0] && ds[1..] == m.frac && m.whole == [ds[0]];
    assert Exact(m) == Decimal(m.neg, ds, 1 + ExponentValue(m.exp));
    CanonicalText(m.exp.digits);
    assert [PLUS] != [MINUS] by { assert [PLUS][0] != [MINUS][0]; }
  }

  /** A number has one tidy numeral. */
  lemma TidyUnique(m: Numeral, n: Numeral)
    requires Tidy(m) && Tidy(n) && Exact(m) == Exact(n)
    ensures m == n
  {
    hide NumeralOf, Tidy;
    TidyIs(m);
    TidyIs(n);
  }

  // ---------------------------------------------------------------- strings

  /** A surrogate that is half of no pair. */
  predicate Lone(s: Text, i: nat)
    requires i < |s|
  {
    IsSurrogate(s[i]) && !PairAt(s, i) && !(i > 0 && PairAt(s, i - 1))
  }

  predicate IsLowerHex(c: nat) { 48 <= c <= 57 || 97 <= c <= 102 }

  predicate HasShort(u: nat) { u == 34 || u == 92 || u == 8 || u == 9 || u == 10 || u == 12 || u == 13 }

  /** As the language quotes: short escapes where there are any, lower-case digits for other controls and lone
      surrogates, and nothing else escaped. */
  predicate Best(s: Text, i: nat, g: Glyph)
    requires i < |s|
  {
    match g
    case Plain(u) => u == s[i] && u >= 0x20 && !HasShort(u) && !Lone(s, i)
    case Short(c) => HasShort(s[i]) && IsShort(c) && ShortUnit(c) == s[i]
    case Hex(a, b, c, d) =>
      && !HasShort(s[i]) && (s[i] < 0x20 || Lone(s, i))
      && IsLowerHex(a) && IsLowerHex(b) && IsLowerHex(c) && IsLowerHex(d)
      && ValidGlyph(g) && GlyphUnit(g) == s[i]
  }

  predicate Quotes(s: Text, gs: seq<Glyph>) { |gs| == |s| && forall i :: 0 <= i < |s| ==> Best(s, i, gs[i]) }

  ghost predicate QuotesFrom(s: Text, i: nat, gs: seq<Glyph>) {
    i + |gs| == |s| && forall k :: 0 <= k < |gs| ==> Best(s, i + k, gs[k])
  }

  lemma {:induction false} GlyphsQuote(s: Text, i: nat)
    requires i <= |s| && (0 < i < |s| ==> !PairAt(s, i - 1))
    ensures QuotesFrom(s, i, GlyphsOf(s, i))
    decreases |s| - i
  {
    hide Best, PairAt, GlyphsAt, WidthAt;
    if i < |s| {
      var w := WidthAt(s, i);
      WidthFits(s, i);
      GlyphsQuote(s, i + w);
      if w == 2 {
        PairBest(s, i);
      } else {
        BestAt(s, i);
      }
    }
  }

  lemma WidthFits(s: Text, i: nat)
    requires i < |s|
    ensures var w := WidthAt(s, i); i + w <= |s| && (w == 1 || w == 2) && (w == 2 <==> PairAt(s, i)) && (i + w < |s| ==> !PairAt(s, i + w - 1))
  {
  }

  lemma PairBest(s: Text, i: nat)
    requires i < |s| && PairAt(s, i)
    ensures i + 1 < |s| && Best(s, i, GlyphsAt(s, i)[0]) && Best(s, i + 1, GlyphsAt(s, i)[1])
  {
    assert PairAt(s, i + 1 - 1);
  }

  lemma BestAt(s: Text, i: nat)
    requires i < |s| && !PairAt(s, i) && (0 < i ==> !PairAt(s, i - 1))
    ensures Best(s, i, GlyphsAt(s, i)[0])
  {
    hide PairAt, HexVal, ValidGlyph, GlyphUnit, HexGlyph;
    HexBest(s, i);
  }

  lemma HexBest(s: Text, i: nat)
    requires i < |s| && !PairAt(s, i)
    ensures var g := HexGlyph(s[i]);
      g.Hex? && IsLowerHex(g.a) && IsLowerHex(g.b) && IsLowerHex(g.c) && IsLowerHex(g.d) && ValidGlyph(g) && GlyphUnit(g) == s[i]
  {
    HexGlyphMeans(s[i]);
    hide ValidGlyph, GlyphUnit, HexVal;
  }

  lemma BestUnique(s: Text, i: nat, g: Glyph, h: Glyph)
    requires i < |s| && Best(s, i, g) && Best(s, i, h)
    ensures g == h
  {
    if g.Hex? { HexUnique(g, h); }
  }

  lemma HexUnique(g: Glyph, h: Glyph)
    requires g.Hex? && h.Hex? && ValidGlyph(g) && ValidGlyph(h) && GlyphUnit(g) == GlyphUnit(h)
    requires IsLowerHex(g.a) && IsLowerHex(g.b) && IsLowerHex(g.c) && IsLowerHex(g.d)
    requires IsLowerHex(h.a) && IsLowerHex(h.b) && IsLowerHex(h.c) && IsLowerHex(h.d)
    ensures g == h
  {
    LastHex((HexVal(g.a) * 16 + HexVal(g.b)) * 16 + HexVal(g.c), g.d, (HexVal(h.a) * 16 + HexVal(h.b)) * 16 + HexVal(h.c), h.d);
    LastHex(HexVal(g.a) * 16 + HexVal(g.b), g.c, HexVal(h.a) * 16 + HexVal(h.b), h.c);
    LastHex(HexVal(g.a), g.b, HexVal(h.a), h.b);
  }

  lemma LastHex(x: nat, c: nat, y: nat, d: nat)
    requires IsLowerHex(c) && IsLowerHex(d) && x * 16 + HexVal(c) == y * 16 + HexVal(d)
    ensures x == y && c == d
  {
  }

  lemma QuotesUnique(s: Text, gs: seq<Glyph>, hs: seq<Glyph>)
    requires Quotes(s, gs) && Quotes(s, hs)
    ensures gs == hs
  {
    forall i | 0 <= i < |s| ensures gs[i] == hs[i] { BestUnique(s, i, gs[i], hs[i]); }
  }

  // ---------------------------------------------------------------- trees

  function KeysIn(ms: Members): seq<Text>
    requires ValidMembers(ms)
    decreases ms
  {
    if ms.NoMembers? then [] else [GlyphUnits(ms.key)] + KeysIn(ms.more)
  }

  /** Nothing between the tokens, numbers tidy, strings quoted as little as can be, no key twice. */
  predicate Compact(t: Tree) {
    && ValidTree(t)
    && match t
       case Numeric(n) => Tidy(n)
       case Quoted(gs) => Quotes(GlyphUnits(gs), gs)
       case EmptyArray(gap) => gap == []
       case EmptyObject(gap) => gap == []
       case Array(items) => CompactItems(items)
       case Object(ms) => CompactMembers(ms)
       case _ => true
  }

  predicate CompactItems(items: Items)
    requires ValidItems(items)
  {
    items.Item? ==> items.before == [] && Compact(items.tree) && items.after == [] && CompactItems(items.more)
  }

  predicate CompactMembers(ms: Members)
    requires ValidMembers(ms)
  {
    ms.Member? ==>
      && ms.lead == [] && Quotes(GlyphUnits(ms.key), ms.key) && ms.mid == [] && ms.before == []
      && Compact(ms.tree) && ms.after == [] && GlyphUnits(ms.key) !in KeysIn(ms.more) && CompactMembers(ms.more)
  }

  lemma {:induction false} TreeCompact(v: Value)
    requires !v.Undefined? && Proper(v)
    ensures Compact(TreeOf(v))
    decreases v, 0
  {
    match v
    case Num(n) => if n.Finite? { NumeralTidy(n.value); }
    case Str(s) => StringCompact(s);
    case Arr(items) => ItemsCompact(items);
    case Obj(props) =>
      OrderListed(Keys(props), |props|);
      MembersCompact(props, Order(Keys(props)), 0);
    case _ =>
  }

  lemma StringCompact(s: Text)
    ensures ValidGlyphs(GlyphsOf(s, 0)) && GlyphUnits(GlyphsOf(s, 0)) == s && Quotes(s, GlyphsOf(s, 0))
  {
    hide GlyphsOf, Best;
    GlyphsMean(s, 0);
    GlyphsQuote(s, 0);
    assert s[0..] == s;
  }

  lemma {:induction false} ItemsCompact(items: seq<Value>)
    requires forall i :: 0 <= i < |items| ==> Proper(items[i])
    ensures ValidItems(ItemsOf(items)) && CompactItems(ItemsOf(items))
    decreases items, 0
  {
    if items != [] {
      if !items[0].Undefined? { TreeCompact(items[0]); }
      ItemsCompact(items[1..]);
    }
  }

  lemma {:induction false} MembersCompact(props: seq<Prop>, order: seq<nat>, k: nat)
    requires Proper(Obj(props)) && Slots(Keys(props), order) && Listed(Keys(props), order)
    ensures var ms := MembersOf(props, order, k);
      ValidMembers(ms) && CompactMembers(ms) && forall key :: key in KeysIn(ms) ==> KeyFrom(key, props, order, k)
    decreases props, |order| - k
  {
    if k < |order| {
      var p := props[order[k]];
      var more := MembersOf(props, order, k + 1);
      MembersCompact(props, order, k + 1);
      forall key | KeyFrom(key, props, order, k + 1) ensures KeyFrom(key, props, order, k) && key != p.key {
        var j :| k + 1 <= j < |order| && key == props[order[j]].key;
        BeforeIsOrder(Keys(props), order[k], order[j], order[k]);
      }
      if !p.value.Undefined? {
        TreeCompact(p.value);
        StringCompact(p.key);
        assert KeyFrom(p.key, props, order, k);
      }
    }
  }

  /** A reading of numerals that tells different decimals apart. */
  ghost predicate ReadsExactly(strtod: Text -> Number) {
    forall m: Numeral :: ValidNumeral(m) ==> strtod(SpellNumeral(m)) == Finite(Exact(m))
  }

  function PropsIn(strtod: Text -> Number, ms: Members): seq<Prop>
    requires ValidMembers(ms)
    decreases ms
  {
    if ms.NoMembers? then [] else [Prop(GlyphUnits(ms.key), Denote(strtod, ms.tree))] + PropsIn(strtod, ms.more)
  }

  lemma Grouped(a: seq<Prop>, p: Prop, b: seq<Prop>)
    ensures a + [p] + b == a + ([p] + b)
  {
  }

  /** Without a key twice, members denote themselves in order. */
  lemma {:induction false} DenoteDistinct(strtod: Text -> Number, ms: Members, done: seq<Prop>)
    requires ValidMembers(ms) && CompactMembers(ms)
    requires forall i :: 0 <= i < |done| ==> done[i].key !in KeysIn(ms)
    ensures DenoteMembers(strtod, ms, done) == done + PropsIn(strtod, ms)
    decreases ms
  {
    hide Compact, ValidTree, Quotes, Blank, ValidGlyphs;
    if ms.Member? {
      var p := Prop(GlyphUnits(ms.key), Denote(strtod, ms.tree));
      SetNewProp(done, p.key, p.value);
      assert forall i :: 0 <= i < |done + [p]| ==> (done + [p])[i].key !in KeysIn(ms.more);
      DenoteDistinct(strtod, ms.more, done + [p]);
      Grouped(done, p, PropsIn(strtod, ms.more));
    }
  }

  /** A value has one compact text. */
  lemma {:induction false} CompactUnique(strtod: Text -> Number, t: Tree, u: Tree)
    requires ReadsExactly(strtod) && Compact(t) && Compact(u) && Denote(strtod, t) == Denote(strtod, u)
    ensures t == u
    decreases t, 1
  {
    match t
    case Numeric(m) => TidyUnique(m, u.n);
    case Quoted(gs) => QuotesUnique(GlyphUnits(gs), gs, u.gs);
    case Array(items) =>
      NonEmptyItems(strtod, items);
      ItemsUnique(strtod, items, u.items);
    case EmptyArray(_) =>
      if u.Array? { NonEmptyItems(strtod, u.items); }
    case Object(ms) =>
      DenoteDistinct(strtod, ms, []);
      if u.Object? {
        DenoteDistinct(strtod, u.members, []);
        Bare(PropsIn(strtod, ms));
        Bare(PropsIn(strtod, u.members));
        MembersUnique(strtod, ms, u.members);
      }
    case EmptyObject(_) =>
      if u.Object? { DenoteDistinct(strtod, u.members, []); }
    case _ =>
  }

  lemma Bare(ps: seq<Prop>)
    ensures [] + ps == ps
  {
  }

  lemma NonEmptyItems(strtod: Text -> Number, items: Items)
    requires ValidItems(items) && items.Item?
    ensures DenoteItems(strtod, items) != []
  {
  }

  lemma {:induction false} ItemsUnique(strtod: Text -> Number, a: Items, b: Items)
    requires ReadsExactly(strtod) && ValidItems(a) && ValidItems(b) && CompactItems(a) && CompactItems(b)
    requires DenoteItems(strtod, a) == DenoteItems(strtod, b)
    ensures a == b
    decreases a, 0
  {
    if a.Item? && b.Item? {
      assert DenoteItems(strtod, a)[0] == DenoteItems(strtod, b)[0];
      assert DenoteItems(strtod, a)[1..] == DenoteItems(strtod, a.more) && DenoteItems(strtod, b)[1..] == DenoteItems(strtod, b.more);
      CompactUnique(strtod, a.tree, b.tree);
      ItemsUnique(strtod, a.more, b.more);
    }
  }

  lemma {:induction false} MembersUnique(strtod: Text -> Number, a: Members, b: Members)
    requires ReadsExactly(strtod) && ValidMembers(a) && ValidMembers(b) && CompactMembers(a) && CompactMembers(b)
    requires PropsIn(strtod, a) == PropsIn(strtod, b)
    ensures a == b
    decreases a, 0
  {
    if a.Member? && b.Member? {
      assert PropsIn(strtod, a)[0] == PropsIn(strtod, b)[0];
      assert PropsIn(strtod, a)[1..] == PropsIn(strtod, a.more) && PropsIn(strtod, b)[1..] == PropsIn(strtod, b.more);
      QuotesUnique(GlyphUnits(a.key), a.key, b.key);
      CompactUnique(strtod, a.tree, b.tree);
      MembersUnique(strtod, a.more, b.more);
    }
  }

  lemma {:induction false} ExactDoubles(exact: Decimal -> Number, v: Value)
    requires forall d :: exact(d) == Finite(d)
    ensures Doubles(exact, v)
  {
    match v
    case Arr(items) => forall i | 0 <= i < |items| ensures Doubles(exact, items[i]) { ExactDoubles(exact, items[i]); }
    case Obj(props) => forall i | 0 <= i < |props| ensures Doubles(exact, props[i].value) { ExactDoubles(exact, props[i].value); }
    case _ =>
  }

  /** Whatever else is a compact text of the canonical value is the text JSON.stringify writes. */
  lemma StringifyIsOnly(strtod: Text -> Number, v: Value, t: Tree)
    requires !v.Undefined? && Proper(v) && ReadsExactly(strtod)
    requires Compact(t) && Denote(strtod, t) == Canon(v)
    ensures Compact(TreeOf(v)) && Stringify(v) == Spell(t)
  {
    var exact := (d: Decimal) => Finite(d);
    TreeCompact(v);
    ExactDoubles(exact, v);
    TreeWritten(strtod, exact, v);
    CompactUnique(strtod, t, TreeOf(v));
  }

  // ---------------------------------------------------------------- what text cannot carry

  /** Null for a number that is not finite, no sign on zero, null for an element that is undefined, and no property
      that is; the others all there, as listed. */
  lemma CanonMeans(v: Value)
    requires !v.Undefined? && Proper(v)
    ensures match v
      case Num(NaN) => Canon(v) == Null
      case Num(Infinite(_)) => Canon(v) == Null
      case Num(Finite(d)) => Canon(v) == Num(Finite(if d.digits == [] then Decimal(false, [], 0) else d))
      case Arr(items) => Canon(v).Arr? && |Canon(v).items| == |items| && forall i :: 0 <= i < |items| ==>
          Canon(v).items[i] == if items[i].Undefined? then Null else Canon(items[i])
      case Obj(props) => Canon(v).Obj? && InListing(Canon(v).props) && DistinctKeys(Canon(v).props)
        && (forall p :: p in Canon(v).props <==> exists i :: 0 <= i < |props| && Kept(props, i, p))
      case _ => Canon(v) == v
  {
    match v
    case Arr(items) =>
      forall i | 0 <= i < |items| ensures CanonItems(items)[i] == if items[i].Undefined? then Null else Canon(items[i]) {
        CanonItemAt(items, i);
      }
    case Obj(props) =>
      CanonSettles(v);
      ObjectMeans(props);
    case _ =>
  }

  /** The property is the `i`-th one, with what is left of its value. */
  predicate Kept(props: seq<Prop>, i: nat, p: Prop)
    requires i < |props|
  {
    !props[i].value.Undefined? && p == Prop(props[i].key, Canon(props[i].value))
  }

  ghost predicate KeptFrom(props: seq<Prop>, order: seq<nat>, k: nat, p: Prop)
    requires Slots(Keys(props), order)
  {
    exists j :: k <= j < |order| && Kept(props, order[j], p)
  }

  lemma ObjectMeans(props: seq<Prop>)
    requires Proper(Obj(props))
    ensures var r := Canon(Obj(props)).props;
      DistinctKeys(r) && forall p :: p in r <==> exists i :: 0 <= i < |props| && Kept(props, i, p)
  {
    var order := Order(Keys(props));
    OrderListed(Keys(props), |props|);
    PropsMean(props, order, 0);
    EverySlot(Keys(props));
    var r := Canon(Obj(props)).props;
    forall p ensures p in r <==> exists i :: 0 <= i < |props| && Kept(props, i, p) {
      if p in r {
        assert KeptFrom(props, order, 0, p);
        var j :| 0 <= j < |order| && Kept(props, order[j], p);
        assert 0 <= order[j] < |props| && Kept(props, order[j], p);
      }
      if i :| 0 <= i < |props| && Kept(props, i, p) {
        assert i in order;
        var j :| 0 <= j < |order| && order[j] == i;
        assert KeptFrom(props, order, 0, p);
      }
    }
  }

  lemma {:induction false} PropsMean(props: seq<Prop>, order: seq<nat>, k: nat)
    requires Proper(Obj(props)) && Slots(Keys(props), order) && Listed(Keys(props), order)
    ensures var r := CanonProps(props, order, k);
      DistinctKeys(r) && forall p :: p in r <==> KeptFrom(props, order, k, p)
    decreases |order| - k
  {
    if k < |order| {
      PropsMean(props, order, k + 1);
      var p := props[order[k]];
      var r, rest := CanonProps(props, order, k), CanonProps(props, order, k + 1);
      forall q ensures KeptFrom(props, order, k, q) <==> KeptFrom(props, order, k + 1, q) || Kept(props, order[k], q) {
        if KeptFrom(props, order, k, q) { var j :| k <= j < |order| && Kept(props, order[j], q); }
      }
      if !p.value.Undefined? {
        forall i | 0 <= i < |rest| ensures rest[i].key != p.key {
          assert rest[i] in rest;
          var j :| k + 1 <= j < |order| && Kept(props, order[j], rest[i]);
          BeforeIsOrder(Keys(props), order[k], order[j], order[k]);
        }
      }
    }
  }
}

/** The serializer as it runs: UTF-8 appended to a buffer, then decoded into the answer (jsrt_print.c). */
module JsonWriter {
  import opened CodecModel
  import CodecRuntime
  import opened KeyOrder
  import opened JsonModel
  import opened JsonParse
  import opened JsonPrint
  import JsonReader

  lemma Assoc<T>(a: seq<T>, b: seq<T>, c: seq<T>)
    ensures a + b + c == a + (b + c)
  {
  }

  lemma {:induction false} AllUnitsJoin(a: seq<Point>, b: seq<Point>)
    ensures AllUnits(a + b) == AllUnits(a) + AllUnits(b)
    decreases a
  {
    if a == [] {
      assert a + b == b;
    } else {
      AllUnitsJoin(a[1..], b);
      Assoc(UnitsOf(a[0]), AllUnits(a[1..]), AllUnits(b));
      assert a + b == [a[0]] + (a[1..] + b);
    }
  }

  lemma {:induction false} EncodeJoin(a: seq<Point>, b: seq<Point>)
    ensures Encode(a + b) == Encode(a) + Encode(b)
    decreases a
  {
    if a == [] {
      assert a + b == b;
    } else {
      EncodeJoin(a[1..], b);
      Assoc(Utf8(a[0]), Encode(a[1..]), Encode(b));
      assert a + b == [a[0]] + (a[1..] + b);
    }
  }

  lemma PointAppended(points: seq<Point>, cp: Point)
    ensures Encode(points + [cp]) == Encode(points) + Utf8(cp)
    ensures AllUnits(points + [cp]) == AllUnits(points) + UnitsOf(cp)
  {
    EncodeJoin(points, [cp]);
    AllUnitsJoin(points, [cp]);
    assert Encode([cp]) == Utf8(cp) + [] && AllUnits([cp]) == UnitsOf(cp) + [];
  }

  predicate Ascii(t: Text) { forall i :: 0 <= i < |t| ==> t[i] < 0x80 }

  function SpellAll(gs: seq<Glyph>): Text { if gs == [] then [] else SpellGlyph(gs[0]) + SpellAll(gs[1..]) }

  lemma {:induction false} SpellJoin(gs: seq<Glyph>, rest: seq<Glyph>)
    ensures SpellGlyphs(gs + rest) == SpellAll(gs) + SpellGlyphs(rest)
    decreases gs
  {
    if gs == [] {
      assert gs + rest == rest;
    } else {
      SpellJoin(gs[1..], rest);
      Assoc(SpellGlyph(gs[0]), SpellAll(gs[1..]), SpellGlyphs(rest));
      assert gs + rest == [gs[0]] + (gs[1..] + rest);
    }
  }

  /** What is written for a code point. */
  function QuotedPoint(cp: Point): Text {
    if cp == QUOTE || cp == BACKSLASH then [BACKSLASH, cp]
    else if cp == 8 then [BACKSLASH, 98]
    else if cp == 12 then [BACKSLASH, 102]
    else if cp == 10 then [BACKSLASH, 110]
    else if cp == 13 then [BACKSLASH, 114]
    else if cp == 9 then [BACKSLASH, 116]
    else if cp < 0x20 || IsSurrogate(cp) then SpellGlyph(HexGlyph(cp))
    else UnitsOf(cp)
  }

  lemma PointQuoted(s: Text, i: nat)
    requires i < |s|
    ensures QuotedPoint(PointAt(s, i)) == SpellAll(GlyphsAt(s, i))
  {
    var gs := GlyphsAt(s, i);
    if PairAt(s, i) {
      UnitsOfPointAt(s, i);
      assert gs[1..] == [Plain(s[i + 1])];
      assert SpellAll(gs) == [s[i]] + SpellAll([Plain(s[i + 1])]);
      assert s[i..i + 2] == [s[i]] + [s[i + 1]];
    } else {
      assert SpellAll(gs) == SpellGlyph(gs[0]);
    }
  }

  lemma QuoteStep(before: Text, s: Text, i: nat)
    requires i < |s|
    ensures before + SpellAll(GlyphsAt(s, i)) + SpellGlyphs(GlyphsOf(s, i + WidthAt(s, i))) ==
      before + SpellGlyphs(GlyphsOf(s, i))
  {
    SpellJoin(GlyphsAt(s, i), GlyphsOf(s, i + WidthAt(s, i)));
  }

  // ---------------------------------------------------------------- what is still to be written

  function ItemsRest(items: seq<Value>, i: nat): Text
    requires i <= |items|
  {
    if i == |items| then [CLOSE_ARRAY] else (if i > 0 then [COMMA] else []) + SpellItems(ItemsOf(items[i..]))
  }

  function ItemTree(v: Value): Tree { if v.Undefined? then NullWord else TreeOf(v) }

  lemma ItemsRestStep(items: seq<Value>, i: nat)
    requires i < |items|
    ensures ItemsRest(items, i) == (if i > 0 then [COMMA] else []) + Spell(ItemTree(items[i])) + ItemsRest(items, i + 1)
  {
    var here, more := ItemsOf(items[i..]), ItemsOf(items[i + 1..]);
    assert items[i..][1..] == items[i + 1..];
    assert here == Item([], ItemTree(items[i]), [], more);
    assert [] + Spell(ItemTree(items[i])) + [] == Spell(ItemTree(items[i]));
  }

  lemma ItemsWrite(before: Text, after: Text, items: seq<Value>, i: nat)
    requires i < |items|
    requires after == before + (if i > 0 then [COMMA] else []) + Spell(ItemTree(items[i]))
    ensures after + ItemsRest(items, i + 1) == before + ItemsRest(items, i)
  {
    var comma: Text := if i > 0 then [COMMA] else [];
    ItemsRestStep(items, i);
    Assoc(before, comma, Spell(ItemTree(items[i])));
    Assoc(before, comma + Spell(ItemTree(items[i])), ItemsRest(items, i + 1));
  }

  lemma ArrayText(items: seq<Value>)
    ensures Spell(TreeOf(Arr(items))) == [OPEN_ARRAY] + ItemsRest(items, 0)
  {
    assert items[0..] == items;
    if items == [] { assert [OPEN_ARRAY] + [] == [OPEN_ARRAY]; }
  }

  lemma ArrayEnds(items: seq<Value>)
    ensures ItemsRest(items, |items|) == [CLOSE_ARRAY]
  {
  }

  function MembersRest(props: seq<Prop>, order: seq<nat>, k: nat, first: bool): Text
    requires Slots(Keys(props), order)
  {
    var ms := MembersOf(props, order, k);
    if ms.NoMembers? then [CLOSE_OBJECT] else (if first then [] else [COMMA]) + SpellMembers(ms)
  }

  lemma MembersRestStep(props: seq<Prop>, order: seq<nat>, k: nat, first: bool)
    requires Slots(Keys(props), order) && k < |order| && !props[order[k]].value.Undefined?
    ensures var p := props[order[k]];
      MembersRest(props, order, k, first) == (if first then [] else [COMMA]) + ([QUOTE] + SpellGlyphs(GlyphsOf(p.key, 0)))
        + [COLON] + Spell(TreeOf(p.value)) + MembersRest(props, order, k + 1, false)
  {
    var p := props[order[k]];
    var ms := MembersOf(props, order, k);
    var key, value, rest := [QUOTE] + SpellGlyphs(GlyphsOf(p.key, 0)), Spell(TreeOf(p.value)), MembersRest(props, order, k + 1, false);
    NoGaps(SpellGlyphs(GlyphsOf(p.key, 0)), value, rest);
    assert SpellMembers(ms) == key + [COLON] + value + rest;
    Four(if first then [] else [COMMA], key, [COLON], value, rest);
  }

  lemma MembersSkip(props: seq<Prop>, order: seq<nat>, k: nat, first: bool)
    requires Slots(Keys(props), order) && k < |order| && props[order[k]].value.Undefined?
    ensures MembersRest(props, order, k, first) == MembersRest(props, order, k + 1, first)
  {
  }

  lemma MembersEnd(props: seq<Prop>, order: seq<nat>, first: bool)
    requires Slots(Keys(props), order)
    ensures MembersRest(props, order, |order|, first) == [CLOSE_OBJECT]
  {
  }

  lemma NoGaps(key: Text, value: Text, rest: Text)
    ensures [] + [QUOTE] + key + [] + [COLON] + [] + value + [] + rest == [QUOTE] + key + [COLON] + value + rest
  {
    Bare<Unit>([QUOTE]);
    Bare([QUOTE] + key);
    Bare([QUOTE] + key + [COLON]);
    Bare([QUOTE] + key + [COLON] + value);
  }

  lemma Bare<T>(a: seq<T>)
    ensures [] + a == a && a + [] == a
  {
  }

  lemma Four(a: Text, b: Text, c: Text, d: Text, e: Text)
    ensures a + (b + c + d + e) == a + b + c + d + e
  {
    Assoc(a, b, c);
    Assoc(a, b + c, d);
    Assoc(a, b + c + d, e);
  }

  lemma MembersWrite(before: Text, after: Text, props: seq<Prop>, order: seq<nat>, k: nat, first: bool)
    requires Slots(Keys(props), order) && k < |order| && !props[order[k]].value.Undefined?
    requires after == before + (if first then [] else [COMMA]) + ([QUOTE] + SpellGlyphs(GlyphsOf(props[order[k]].key, 0)))
        + [COLON] + Spell(TreeOf(props[order[k]].value))
    ensures after + MembersRest(props, order, k + 1, false) == before + MembersRest(props, order, k, first)
  {
    var p := props[order[k]];
    MembersRestStep(props, order, k, first);
    Five(before, if first then [] else [COMMA], [QUOTE] + SpellGlyphs(GlyphsOf(p.key, 0)), [COLON], Spell(TreeOf(p.value)),
         MembersRest(props, order, k + 1, false));
  }

  lemma Five(w: Text, a: Text, b: Text, c: Text, d: Text, e: Text)
    ensures (w + a + b + c + d) + e == w + (a + b + c + d + e)
  {
    Assoc(w, a, b);
    Assoc(w, a + b, c);
    Assoc(w, a + b + c, d);
    Assoc(w, a + b + c + d, e);
  }

  lemma ObjectText(props: seq<Prop>)
    ensures Spell(TreeOf(Obj(props))) == [OPEN_OBJECT] + MembersRest(props, Order(Keys(props)), 0, true)
  {
    assert [OPEN_OBJECT] + [] == [OPEN_OBJECT];
  }

  lemma Signed(d: Decimal)
    requires d.digits != []
    ensures SpellNumeral(NumeralOf(d)) == SpellSign(d.neg) + SpellNumeral(NumeralOf(Decimal(false, d.digits, d.point)))
  {
    var m := NumeralOf(d);
    SignFirst(m);
    SignFirst(m.(neg := false));
  }

  lemma SignFirst(m: Numeral)
    ensures SpellNumeral(m) == SpellSign(m.neg) + (m.whole + SpellFrac(m.frac) + SpellExponent(m.exp))
  {
    Assoc(SpellSign(m.neg), m.whole, SpellFrac(m.frac));
    Assoc(SpellSign(m.neg), m.whole + SpellFrac(m.frac), SpellExponent(m.exp));
  }

  function PowerText(n: int): Text {
    [101, if n > 0 then PLUS else MINUS] + NatText(if n > 0 then n - 1 else 1 - n)
  }

  /** `format_positive`: five layouts of the shortest digits. */
  method FormatPositive(digits: Text, n: int) returns (buf: Text)
    requires digits != []
    ensures buf == SpellNumeral(NumeralOf(Decimal(false, digits, n)))
  {
    var k := |digits|;
    Unsigned(NumeralOf(Decimal(false, digits, n)));
    if k <= n <= 21 {
      buf := digits + Zeros(n - k);
      Bare(buf);
    } else if 0 < n <= 21 {
      buf := digits[..n] + ([DOT] + digits[n..]);
      Bare(buf);
    } else if -6 < n <= 0 {
      buf := [48] + ([DOT] + (Zeros(-n) + digits));
      Bare(buf);
    } else if k == 1 {
      buf := digits + PowerText(n);
      OneDigit(digits, n);
    } else {
      buf := [digits[0]] + ([DOT] + digits[1..]) + PowerText(n);
    }
  }

  lemma Unsigned(m: Numeral)
    requires !m.neg
    ensures SpellNumeral(m) == m.whole + SpellFrac(m.frac) + SpellExponent(m.exp)
  {
    Bare(m.whole);
  }

  lemma OneDigit(digits: Text, n: int)
    requires |digits| == 1
    ensures digits[1..] == [] && digits + PowerText(n) == [digits[0]] + [] + PowerText(n)
  {
    assert digits == [digits[0]] + [];
  }

  lemma PositiveAscii(m: Numeral)
    requires AllDigits(m.whole) && AllDigits(m.frac) && (m.exp.Exponent? ==> m.exp.marker == 101 && AllDigits(m.exp.digits))
    requires m.exp.Exponent? ==> m.exp.sign == [PLUS] || m.exp.sign == [MINUS]
    ensures Ascii(SpellNumeral(m))
  {
  }

  /** `JSRTBuf`: bytes, which always encode whole code points. */
  class Buffer {
    var data: seq<Byte>
    ghost var points: seq<Point>

    ghost predicate Valid()
      reads this
    {
      data == Encode(points)
    }

    /** The text the bytes will be read back as. */
    ghost function Written(): Text
      reads this
    {
      AllUnits(points)
    }

    constructor ()
      ensures Valid() && Written() == []
    {
      data, points := [], [];
    }

    method Putc(c: Unit)
      requires Valid() && c < 0x80
      modifies this
      ensures Valid() && Written() == old(Written()) + [c]
    {
      PointAppended(points, c);
      data := data + [c];
      points := points + [c];
    }

    method Puts(s: Text)
      requires Valid() && Ascii(s)
      modifies this
      ensures Valid() && Written() == old(Written()) + s
    {
      for i := 0 to |s|
        invariant Valid() && Written() == old(Written()) + s[..i]
      {
        Putc(s[i]);
        assert s[..i + 1] == s[..i] + [s[i]];
      }
      assert s[..|s|] == s;
    }

    /** `append_utf8`. */
    method AppendUtf8(cp: Point)
      requires Valid()
      modifies this
      ensures Valid() && Written() == old(Written()) + UnitsOf(cp)
    {
      if cp < 0x80 {
        data := data + [cp];
      } else if cp < 0x800 {
        data := data + [0xC0 + cp / 0x40];
        data := data + [0x80 + cp % 0x40];
      } else if cp < 0x10000 {
        data := data + [0xE0 + cp / 0x1000];
        data := data + [0x80 + cp / 0x40 % 0x40];
        data := data + [0x80 + cp % 0x40];
      } else {
        data := data + [0xF0 + cp / 0x40000];
        data := data + [0x80 + cp / 0x1000 % 0x40];
        data := data + [0x80 + cp / 0x40 % 0x40];
        data := data + [0x80 + cp % 0x40];
      }
      assert data == old(data) + Utf8(cp);
      PointAppended(points, cp);
      points := points + [cp];
    }

    /** One code point of a string, escaped where it must be. */
    method QuotePoint(s: Text, i: nat) returns (width: nat)
      requires Valid() && i < |s|
      modifies this
      ensures Valid() && width == WidthAt(s, i) && Written() == old(Written()) + SpellAll(GlyphsAt(s, i))
    {
      var cp;
      cp, width := CodecRuntime.NextPoint(s, i);
      PointQuoted(s, i);
      if cp == QUOTE || cp == BACKSLASH {
        Putc(BACKSLASH);
        Putc(cp);
      } else if cp == 8 {
        Puts([BACKSLASH, 98]);
      } else if cp == 12 {
        Puts([BACKSLASH, 102]);
      } else if cp == 10 {
        Puts([BACKSLASH, 110]);
      } else if cp == 13 {
        Puts([BACKSLASH, 114]);
      } else if cp == 9 {
        Puts([BACKSLASH, 116]);
      } else if cp < 0x20 || 0xD800 <= cp <= 0xDFFF {
        Puts([BACKSLASH, 117, HexChar(cp / 0x1000), HexChar(cp / 0x100 % 16), HexChar(cp / 16 % 16), HexChar(cp % 16)]);
      } else {
        AppendUtf8(cp);
      }
    }

    /** `json_quote`. */
    method JsonQuote(s: Text)
      requires Valid()
      modifies this
      ensures Valid() && Written() == old(Written()) + ([QUOTE] + SpellGlyphs(GlyphsOf(s, 0)))
    {
      Putc(QUOTE);
      var i := 0;
      while i < |s|
        invariant i <= |s| && Valid()
        invariant Written() + SpellGlyphs(GlyphsOf(s, i)) == old(Written()) + ([QUOTE] + SpellGlyphs(GlyphsOf(s, 0)))
      {
        ghost var before := Written();
        var width := QuotePoint(s, i);
        QuoteStep(before, s, i);
        i := i + width;
      }
      Putc(QUOTE);
    }

    /** A finite double, a zero without its sign. */
    method FormatDouble(d: Decimal)
      requires Valid() && Shortest(d)
      modifies this
      ensures Valid() && Written() == old(Written()) + SpellNumeral(NumeralOf(d))
    {
      if d.digits == [] {
        Puts([48]);
        return;
      }
      if d.neg {
        Putc(MINUS);
      }
      var rest := FormatPositive(d.digits, d.point);
      PositiveAscii(NumeralOf(Decimal(false, d.digits, d.point)));
      Puts(rest);
      Signed(d);
      Assoc(old(Written()), SpellSign(d.neg), SpellNumeral(NumeralOf(Decimal(false, d.digits, d.point))));
    }

    method PutComma(comma: bool)
      requires Valid()
      modifies this
      ensures Valid() && Written() == old(Written()) + if comma then [COMMA] else []
    {
      if comma {
        Putc(COMMA);
      } else {
        Bare(Written());
      }
    }

    method JsonElement(comma: bool, v: Value)
      requires Valid() && Proper(v)
      modifies this
      ensures Valid() && Written() == old(Written()) + (if comma then [COMMA] else []) + Spell(ItemTree(v))
      decreases v, 3
    {
      PutComma(comma);
      if v.Undefined? {
        Puts(NULL);
      } else {
        JsonValue(v);
      }
    }

    method JsonMember(comma: bool, p: Prop)
      requires Valid() && Proper(p.value) && !p.value.Undefined?
      modifies this
      ensures Valid()
      ensures Written() == old(Written()) + (if comma then [COMMA] else []) + ([QUOTE] + SpellGlyphs(GlyphsOf(p.key, 0)))
        + [COLON] + Spell(TreeOf(p.value))
      decreases p, 3
    {
      PutComma(comma);
      JsonQuote(p.key);
      Putc(COLON);
      JsonValue(p.value);
    }

    /** `json_value` for an array: an element that cannot be written is null. */
    method JsonArray(items: seq<Value>)
      requires Valid() && Proper(Arr(items))
      modifies this
      ensures Valid() && Written() == old(Written()) + Spell(TreeOf(Arr(items)))
      decreases items, 1
    {
      hide Spell, TreeOf, ItemsRest, AllUnits, Encode, ItemTree;
      ghost var whole := Written() + Spell(TreeOf(Arr(items)));
      ArrayText(items);
      ArrayEnds(items);
      Assoc(Written(), [OPEN_ARRAY], ItemsRest(items, 0));
      Putc(OPEN_ARRAY);
      for i := 0 to |items|
        invariant Valid() && Written() + ItemsRest(items, i) == whole
      {
        ghost var before := Written();
        JsonElement(i > 0, items[i]);
        ItemsWrite(before, Written(), items, i);
      }
      Putc(CLOSE_ARRAY);
    }

    /** `json_value` for an object: keys as listed, one whose value cannot be written left out. */
    method JsonObject(props: seq<Prop>)
      requires Valid() && Proper(Obj(props))
      modifies this
      ensures Valid() && Written() == old(Written()) + Spell(TreeOf(Obj(props)))
      decreases props, 1
    {
      hide Spell, TreeOf, MembersRest, AllUnits, Encode;
      ghost var whole := Written() + Spell(TreeOf(Obj(props)));
      ObjectText(props);
      var keys := PropertyOrder(Keys(props));
      ghost var order := Order(Keys(props));
      Assoc(Written(), [OPEN_OBJECT], MembersRest(props, order, 0, true));
      Putc(OPEN_OBJECT);
      var first := true;
      for i := 0 to keys.Length
        invariant Valid() && keys[..] == order
        invariant Written() + MembersRest(props, order, i, first) == whole
      {
        ghost var before := Written();
        var p := props[keys[i]];
        if !p.value.Undefined? {
          JsonMember(!first, p);
          MembersWrite(before, Written(), props, order, i, first);
          first := false;
        } else {
          MembersSkip(props, order, i, first);
        }
      }
      MembersEnd(props, order, first);
      Putc(CLOSE_OBJECT);
    }

    /** `json_value`. */
    method JsonValue(v: Value)
      requires Valid() && Proper(v) && !v.Undefined?
      modifies this
      ensures Valid() && Written() == old(Written()) + Spell(TreeOf(v))
      decreases v, 2
    {
      match v {
        case Null => Puts(NULL);
        case Bool(b) => Puts(if b then TRUE else FALSE);
        case Num(n) =>
          if n.Finite? {
            FormatDouble(n.value);
          } else {
            Puts(NULL);
          }
        case Str(s) => JsonQuote(s);
        case Arr(items) => JsonArray(items);
        case Obj(props) => JsonObject(props);
      }
    }
  }

  /** `jsrt_json_stringify`: the text of the value's tree. */
  method JsonStringify(v: Value) returns (text: array<Unit>)
    requires Proper(v) && !v.Undefined?
    ensures fresh(text) && text[..] == Stringify(v)
  {
    var out := new Buffer();
    out.JsonValue(v);
    assert out.data[0..] == out.data;
    DecodeAllEncoded(out.data, 0, out.points);
    text := CodecRuntime.StringFromUtf8(out.data);
  }

  /** Written and read back: the canonical value, exactly when at most 512 values nest. */
  method RoundTrip(strtod: Text -> Number, ghost round: Decimal -> Number, v: Value) returns (r: Result<Value>)
    requires Proper(v) && !v.Undefined? && Rounds(strtod, round) && Doubles(round, v)
    ensures r == Ok(Canon(v), |Stringify(v)|) <==> Depth(v) <= 512
  {
    var text := JsonStringify(v);
    r := JsonReader.ParseText(text[..], strtod);
    StringifyParses(strtod, round, v);
  }
}

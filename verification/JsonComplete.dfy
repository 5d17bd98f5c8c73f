/** The parser reads every text of the grammar: from a tree's text it answers the tree's value, unless
    the tree is nested too deep or has a key with a U+0000, and then it fails. */
module JsonComplete {
  import opened CodecModel
  import opened KeyOrder
  import opened JsonModel
  import opened JsonParse

  lemma Slice(text: Text, pos: nat, w: Text)
    requires WordAt(text, pos, w)
    ensures text[pos..pos + |w|] == w
  {
  }

  lemma AtSplit(text: Text, pos: nat, a: Text, b: Text)
    requires WordAt(text, pos, a + b)
    ensures WordAt(text, pos, a) && WordAt(text, pos + |a|, b)
  {
    forall i | 0 <= i < |a| ensures text[pos + i] == a[i] { assert (a + b)[i] == a[i]; }
    forall i | 0 <= i < |b| ensures text[pos + |a| + i] == b[i] { assert (a + b)[|a| + i] == b[i]; }
  }

  lemma AtOne(text: Text, pos: nat, c: Unit, b: Text)
    requires WordAt(text, pos, [c] + b)
    ensures Peek(text, pos) == c && pos < |text| && WordAt(text, pos + 1, b)
  {
    AtSplit(text, pos, [c], b);
    assert [c][0] == c;
  }

  lemma {:induction false} SkipsBlank(text: Text, pos: nat, gap: Text)
    requires WordAt(text, pos, gap) && Blank(gap) && !IsBlank(Peek(text, pos + |gap|))
    ensures Skip(text, pos) == pos + |gap|
    decreases gap
  {
    if gap != [] {
      assert gap == [gap[0]] + gap[1..];
      AtOne(text, pos, gap[0], gap[1..]);
      SkipsBlank(text, pos + 1, gap[1..]);
    }
  }

  lemma {:induction false} RunsDigits(text: Text, pos: nat, ds: Text)
    requires WordAt(text, pos, ds) && AllDigits(ds) && !IsDigit(Peek(text, pos + |ds|))
    ensures Run(text, pos) == pos + |ds|
    decreases ds
  {
    if ds != [] {
      assert ds == [ds[0]] + ds[1..];
      AtOne(text, pos, ds[0], ds[1..]);
      RunsDigits(text, pos + 1, ds[1..]);
    }
  }

  // ---------------------------------------------------------------- strings

  lemma HexNext(text: Text, pos: nat, i: nat, out: nat, c: Unit)
    requires i < 4 && out < 0x1000 && pos < |text| && text[pos] == c && IsHex(c)
    ensures Hex4(text, pos, i, out) == Hex4(text, pos + 1, i + 1, out * 16 + HexVal(c))
  {
  }

  lemma HexReads(text: Text, pos: nat, a: Unit, b: Unit, c: Unit, d: Unit)
    requires pos + 4 <= |text| && text[pos] == a && text[pos + 1] == b && text[pos + 2] == c && text[pos + 3] == d
    requires IsHex(a) && IsHex(b) && IsHex(c) && IsHex(d)
    ensures Hex4(text, pos, 0, 0) == Ok(GlyphUnit(Hex(a, b, c, d)), pos + 4)
  {
    var two := HexVal(a) * 16 + HexVal(b);
    var three := two * 16 + HexVal(c);
    hide HexVal, IsHex, Hex4;
    HexDone(text, pos + 4, three * 16 + HexVal(d));
    HexNext(text, pos, 0, 0, a);
    HexNext(text, pos + 1, 1, HexVal(a), b);
    HexNext(text, pos + 2, 2, two, c);
    HexNext(text, pos + 3, 3, three, d);
  }

  lemma HexDone(text: Text, pos: nat, out: Unit)
    requires pos <= |text|
    ensures Hex4(text, pos, 4, out) == Ok(out, pos)
  {
  }

  lemma {:induction false} GlyphsRead(text: Text, pos: nat, gs: seq<Glyph>)
    requires WordAt(text, pos, SpellGlyphs(gs)) && ValidGlyphs(gs)
    ensures StringBody(text, pos) == Ok(GlyphUnits(gs), pos + |SpellGlyphs(gs)|)
    decreases gs
  {
    if gs == [] {
      AtOne(text, pos, QUOTE, []);
    } else {
      var g := gs[0];
      var w := SpellGlyph(g);
      AtSplit(text, pos, w, SpellGlyphs(gs[1..]));
      GlyphsRead(text, pos + |w|, gs[1..]);
      assert GlyphUnits(gs) == [GlyphUnit(g)] + GlyphUnits(gs[1..]);
      GlyphReads(text, pos, g);
    }
  }

  lemma HexGlyphReads(text: Text, pos: nat, g: Glyph)
    requires WordAt(text, pos, SpellGlyph(g)) && ValidGlyph(g) && g.Hex?
    ensures StringBody(text, pos) == Prepend(GlyphUnit(g), StringBody(text, pos + 6))
  {
    HexChars(text, pos, g);
    HexReads(text, pos + 2, g.a, g.b, g.c, g.d);
    HexBody(text, pos, GlyphUnit(g));
  }

  lemma HexChars(text: Text, pos: nat, g: Glyph)
    requires WordAt(text, pos, SpellGlyph(g)) && g.Hex?
    ensures text[pos] == BACKSLASH && text[pos + 1] == 117 && text[pos + 2] == g.a && text[pos + 3] == g.b
    ensures text[pos + 4] == g.c && text[pos + 5] == g.d
  {
    var w := SpellGlyph(g);
    assert w[0] == BACKSLASH && w[1] == 117 && w[2] == g.a && w[3] == g.b && w[4] == g.c && w[5] == g.d;
  }

  lemma HexBody(text: Text, pos: nat, u: Unit)
    requires pos + 6 <= |text| && text[pos] == BACKSLASH && text[pos + 1] == 117
    requires Hex4(text, pos + 2, 0, 0) == Ok(u, pos + 6)
    ensures StringBody(text, pos) == Prepend(u, StringBody(text, pos + 6))
  {
  }

  /** One glyph read is one unit in front of the rest. */
  lemma GlyphReads(text: Text, pos: nat, g: Glyph)
    requires WordAt(text, pos, SpellGlyph(g)) && ValidGlyph(g)
    ensures StringBody(text, pos) == Prepend(GlyphUnit(g), StringBody(text, pos + |SpellGlyph(g)|))
  {
    if g.Hex? {
      HexGlyphReads(text, pos, g);
    } else {
      var w := SpellGlyph(g);
      assert text[pos] == w[0];
      if g.Short? { assert w[1] == g.c; }
    }
  }

  lemma StringReads(text: Text, pos: nat, gs: seq<Glyph>)
    requires WordAt(text, pos, [QUOTE] + SpellGlyphs(gs)) && ValidGlyphs(gs)
    ensures StringAt(text, pos) == Ok(GlyphUnits(gs), pos + 1 + |SpellGlyphs(gs)|)
  {
    AtOne(text, pos, QUOTE, SpellGlyphs(gs));
    GlyphsRead(text, pos + 1, gs);
  }

  // ---------------------------------------------------------------- numbers

  /** What cannot carry a number on. */
  predicate Stop(c: nat) { !IsDigit(c) && c != DOT && !IsMarker(c) }

  lemma ExponentEnds(text: Text, pos: nat, e: Exponent)
    requires WordAt(text, pos, SpellExponent(e)) && ValidExponent(e) && Stop(Peek(text, pos + |SpellExponent(e)|))
    ensures ExponentEnd(text, pos) == Ok((), pos + |SpellExponent(e)|)
    ensures e.Exponent? ==>
      && Peek(text, pos) == e.marker
      && (Peek(text, pos + 1) == PLUS || Peek(text, pos + 1) == MINUS <==> e.sign != [])
      && Run(text, pos + 1 + |e.sign|) == pos + |SpellExponent(e)|
  {
    if e.Exponent? {
      var tail := e.sign + e.digits;
      assert SpellExponent(e) == [e.marker] + tail;
      AtOne(text, pos, e.marker, tail);
      AtSplit(text, pos + 1, e.sign, e.digits);
      var at := pos + 1 + |e.sign|;
      assert e.digits == [e.digits[0]] + e.digits[1..];
      AtOne(text, at, e.digits[0], e.digits[1..]);
      RunsDigits(text, at, e.digits);
      if e.sign != [] { AtOne(text, pos + 1, e.sign[0], e.digits); }
    }
  }

  lemma FracEnds(text: Text, pos: nat, frac: Text)
    requires WordAt(text, pos, SpellFrac(frac)) && AllDigits(frac)
    requires !IsDigit(Peek(text, pos + |SpellFrac(frac)|)) && Peek(text, pos + |SpellFrac(frac)|) != DOT
    ensures FracEnd(text, pos) == Ok((), pos + |SpellFrac(frac)|)
    ensures frac != [] ==> Peek(text, pos) == DOT && pos < |text| && Run(text, pos + 1) == pos + |SpellFrac(frac)|
  {
    if frac != [] {
      AtOne(text, pos, DOT, frac);
      assert frac == [frac[0]] + frac[1..];
      AtOne(text, pos + 1, frac[0], frac[1..]);
      RunsDigits(text, pos + 1, frac);
    }
  }

  lemma WholeEnds(text: Text, pos: nat, whole: Text)
    requires WordAt(text, pos, whole) && Canonical(whole) && !IsDigit(Peek(text, pos + |whole|))
    ensures WholeEnd(text, pos) == Ok((), pos + |whole|) && Run(text, pos) == pos + |whole|
    ensures pos < |text| && IsDigit(Peek(text, pos))
  {
    assert whole == [whole[0]] + whole[1..];
    AtOne(text, pos, whole[0], whole[1..]);
    RunsDigits(text, pos, whole);
  }

  function FracStart(n: Numeral): nat { |SpellSign(n.neg)| + |n.whole| }

  function ExponentStart(n: Numeral): nat { FracStart(n) + |SpellFrac(n.frac)| }

  function NumeralEnd(n: Numeral): nat { ExponentStart(n) + |SpellExponent(n.exp)| }

  /** The pieces of a numeral stand at `pos`, one after the other. */
  predicate HoldsNumeral(text: Text, pos: nat, n: Numeral) {
    && WordAt(text, pos, SpellSign(n.neg)) && WordAt(text, pos + |SpellSign(n.neg)|, n.whole)
    && WordAt(text, pos + FracStart(n), SpellFrac(n.frac))
    && WordAt(text, pos + ExponentStart(n), SpellExponent(n.exp))
  }

  lemma NumeralSplit(text: Text, pos: nat, n: Numeral)
    requires WordAt(text, pos, SpellNumeral(n))
    ensures HoldsNumeral(text, pos, n) && NumeralEnd(n) == |SpellNumeral(n)|
  {
    AtSplit(text, pos, SpellSign(n.neg) + n.whole + SpellFrac(n.frac), SpellExponent(n.exp));
    AtSplit(text, pos, SpellSign(n.neg) + n.whole, SpellFrac(n.frac));
    AtSplit(text, pos, SpellSign(n.neg), n.whole);
  }

  /** A sign is there exactly when the numeral has one, and every piece ends where the next begins. */
  lemma NumeralParts(text: Text, pos: nat, n: Numeral)
    requires HoldsNumeral(text, pos, n) && ValidNumeral(n) && Stop(Peek(text, pos + NumeralEnd(n)))
    ensures Peek(text, pos) == MINUS <==> n.neg
    ensures WholeEnd(text, pos + |SpellSign(n.neg)|) == Ok((), pos + FracStart(n))
    ensures Run(text, pos + |SpellSign(n.neg)|) == pos + FracStart(n)
    ensures FracEnd(text, pos + FracStart(n)) == Ok((), pos + ExponentStart(n))
    ensures Peek(text, pos + FracStart(n)) == DOT <==> n.frac != []
    ensures n.frac != [] ==> Run(text, pos + FracStart(n) + 1) == pos + ExponentStart(n)
    ensures ExponentEnd(text, pos + ExponentStart(n)) == Ok((), pos + NumeralEnd(n))
  {
    var w, f, e := pos + |SpellSign(n.neg)|, pos + FracStart(n), pos + ExponentStart(n);
    PiecesEnd(text, w, f, e, n.whole, n.frac, n.exp);
    if n.neg { AtOne(text, pos, MINUS, []); }
  }

  lemma PiecesEnd(text: Text, w: nat, f: nat, e: nat, whole: Text, frac: Text, exp: Exponent)
    requires WordAt(text, w, whole) && Canonical(whole) && f == w + |whole|
    requires WordAt(text, f, SpellFrac(frac)) && AllDigits(frac) && e == f + |SpellFrac(frac)|
    requires WordAt(text, e, SpellExponent(exp)) && ValidExponent(exp) && Stop(Peek(text, e + |SpellExponent(exp)|))
    ensures WholeEnd(text, w) == Ok((), f) && Run(text, w) == f && IsDigit(Peek(text, w))
    ensures FracEnd(text, f) == Ok((), e) && (Peek(text, f) == DOT <==> frac != [])
    ensures frac != [] ==> Run(text, f + 1) == e
    ensures ExponentEnd(text, e) == Ok((), e + |SpellExponent(exp)|)
  {
    ExponentEnds(text, e, exp);
    StopsAt(text, e, exp);
    FracEnds(text, f, frac);
    WholeEnds(text, w, whole);
  }

  lemma StopsAt(text: Text, e: nat, exp: Exponent)
    requires WordAt(text, e, SpellExponent(exp)) && ValidExponent(exp) && Stop(Peek(text, e + |SpellExponent(exp)|))
    ensures !IsDigit(Peek(text, e)) && Peek(text, e) != DOT
  {
    ExponentEnds(text, e, exp);
  }

  lemma NumeralEnds(text: Text, pos: nat, n: Numeral)
    requires WordAt(text, pos, SpellNumeral(n)) && ValidNumeral(n) && Stop(Peek(text, pos + |SpellNumeral(n)|))
    ensures NumberEnd(text, pos) == Ok((), pos + |SpellNumeral(n)|)
  {
    NumeralSplit(text, pos, n);
    NumeralParts(text, pos, n);
  }

  lemma NumberReads(strtod: Text -> Number, text: Text, pos: nat, n: Numeral)
    requires WordAt(text, pos, SpellNumeral(n)) && ValidNumeral(n) && Stop(Peek(text, pos + |SpellNumeral(n)|))
    ensures NumberAt(strtod, text, pos) == Ok(Num(strtod(SpellNumeral(n))), pos + |SpellNumeral(n)|)
  {
    NumeralEnds(text, pos, n);
    Slice(text, pos, SpellNumeral(n));
  }

  // ---------------------------------------------------------------- values

  predicate Fits(t: Tree, depth: nat)
    requires ValidTree(t)
  {
    PlainKeys(t) && depth + Height(t) <= MAX_DEPTH
  }

  predicate Opens(c: nat) {
    !IsBlank(c) && c != CLOSE_ARRAY && c != CLOSE_OBJECT
  }

  lemma FirstChar(t: Tree)
    requires ValidTree(t)
    ensures Spell(t) != [] && Opens(Spell(t)[0])
    ensures Spell(t)[0] == OPEN_OBJECT <==> t.EmptyObject? || t.Object?
    ensures Spell(t)[0] == OPEN_ARRAY <==> t.EmptyArray? || t.Array?
    ensures Spell(t)[0] == QUOTE <==> t.Quoted?
    ensures Spell(t)[0] == MINUS || IsDigit(Spell(t)[0]) <==> t.Numeric?
  {
  }

  ghost predicate Reads(r: Result<Value>, v: Value, end: nat, fits: bool) {
    if fits then r == Ok(v, end) else r.Fail?
  }

  lemma WordReads(text: Text, pos: nat, t: Tree)
    requires WordAt(text, pos, Spell(t)) && (t.TrueWord? || t.FalseWord? || t.NullWord?)
    ensures t.FalseWord? ==> !WordAt(text, pos, TRUE)
    ensures t.NullWord? ==> !WordAt(text, pos, TRUE) && !WordAt(text, pos, FALSE)
  {
    assert text[pos] == Spell(t)[0];
    assert TRUE[0] == 116 && FALSE[0] == 102;
  }

  /** An opening bracket, a gap and what follows the gap. */
  lemma OpensGap(text: Text, pos: nat, open: Unit, gap: Text, rest: Text)
    requires WordAt(text, pos, [open] + gap + rest) && Blank(gap) && rest != [] && !IsBlank(rest[0])
    ensures WordAt(text, pos + 1, gap) && WordAt(text, pos + 1 + |gap|, rest)
    ensures Skip(text, pos + 1) == pos + 1 + |gap| && Peek(text, pos + 1 + |gap|) == rest[0]
  {
    AtSplit(text, pos, [open] + gap, rest);
    AtSplit(text, pos, [open], gap);
    assert text[pos + 1 + |gap|] == rest[0];
    SkipsBlank(text, pos + 1, gap);
  }

  /** What follows a value: blanks, then a comma or a closing bracket. */
  lemma ClosesGap(text: Text, pos: nat, gap: Text, rest: Text)
    requires WordAt(text, pos, gap) && WordAt(text, pos + |gap|, rest) && Blank(gap)
    requires rest != [] && (rest[0] == COMMA || rest[0] == COLON || rest[0] == CLOSE_ARRAY || rest[0] == CLOSE_OBJECT)
    ensures Stop(Peek(text, pos)) && Skip(text, pos) == pos + |gap| && Peek(text, pos + |gap|) == rest[0]
  {
    assert text[pos + |gap|] == rest[0];
    if gap != [] { assert text[pos] == gap[0]; }
    SkipsBlank(text, pos, gap);
  }

  function ItemsTail(items: Items): Text
    requires items.Item?
  {
    if items.more.NoItems? then [CLOSE_ARRAY] else [COMMA] + SpellItems(items.more)
  }

  function MembersTail(ms: Members): Text
    requires ms.Member?
  {
    if ms.more.NoMembers? then [CLOSE_OBJECT] else [COMMA] + SpellMembers(ms.more)
  }

  predicate FitItems(items: Items, depth: nat)
    requires ValidItems(items)
  {
    PlainItems(items) && depth + ItemsHeight(items) <= MAX_DEPTH
  }

  predicate FitMembers(ms: Members, depth: nat)
    requires ValidMembers(ms)
  {
    PlainMembers(ms) && depth + MembersHeight(ms) <= MAX_DEPTH
  }

  /** The pieces of the first element. */
  lemma ItemPieces(text: Text, pos: nat, items: Items)
    requires WordAt(text, pos, SpellItems(items)) && items.Item? && ValidItems(items)
    ensures var a := pos + |items.before|; var b := a + |Spell(items.tree)|; var c := b + |items.after|;
      && WordAt(text, pos, items.before) && WordAt(text, a, Spell(items.tree))
      && WordAt(text, b, items.after) && WordAt(text, c, ItemsTail(items))
      && Stop(Peek(text, b)) && Skip(text, b) == c && Peek(text, c) == ItemsTail(items)[0]
      && c + |ItemsTail(items)| == pos + |SpellItems(items)|
  {
    AtSplit(text, pos, items.before + Spell(items.tree) + items.after, ItemsTail(items));
    AtSplit(text, pos, items.before + Spell(items.tree), items.after);
    AtSplit(text, pos, items.before, Spell(items.tree));
    ClosesGap(text, pos + |items.before| + |Spell(items.tree)|, items.after, ItemsTail(items));
  }

  function KeyText(ms: Members): Text
    requires ms.Member?
  {
    [QUOTE] + SpellGlyphs(ms.key)
  }

  function ValueText(ms: Members): Text
    requires ms.Member?
  {
    ms.before + Spell(ms.tree) + ms.after + MembersTail(ms)
  }

  lemma MemberSpelled(ms: Members)
    requires ms.Member?
    ensures SpellMembers(ms) == ms.lead + KeyText(ms) + ms.mid + ([COLON] + ValueText(ms))
  {
    assert ms.lead + KeyText(ms) == ms.lead + [QUOTE] + SpellGlyphs(ms.key);
    var head := ms.lead + [QUOTE] + SpellGlyphs(ms.key) + ms.mid;
    var tail := ms.before + Spell(ms.tree) + ms.after + MembersTail(ms);
    assert head + [COLON] + ms.before + Spell(ms.tree) + ms.after + MembersTail(ms) == head + ([COLON] + tail);
  }

  /** The key of the first member and its colon. */
  lemma KeyPieces(text: Text, pos: nat, ms: Members)
    requires WordAt(text, pos, SpellMembers(ms)) && ms.Member? && ValidMembers(ms)
    ensures var k := pos + |ms.lead|; var m := k + |KeyText(ms)|; var colon := m + |ms.mid|;
      && WordAt(text, pos, ms.lead) && WordAt(text, k, KeyText(ms)) && Peek(text, k) == QUOTE
      && Skip(text, m) == colon && Peek(text, colon) == COLON && colon < |text|
      && WordAt(text, colon + 1, ValueText(ms))
      && colon + 1 + |ValueText(ms)| == pos + |SpellMembers(ms)|
  {
    MemberSpelled(ms);
    var head := ms.lead + KeyText(ms) + ms.mid;
    AtSplit(text, pos, head, [COLON] + ValueText(ms));
    AtSplit(text, pos, ms.lead + KeyText(ms), ms.mid);
    AtSplit(text, pos, ms.lead, KeyText(ms));
    AtOne(text, pos + |ms.lead|, QUOTE, SpellGlyphs(ms.key));
    var colon := pos + |head|;
    ClosesGap(text, colon - |ms.mid|, ms.mid, [COLON] + ValueText(ms));
    AtOne(text, colon, COLON, ValueText(ms));
  }

  lemma ValuePieces(text: Text, pos: nat, ms: Members)
    requires ms.Member? && ValidMembers(ms)
    requires WordAt(text, pos, ValueText(ms))
    ensures
      var a := pos + |ms.before|; var b := a + |Spell(ms.tree)|; var c := b + |ms.after|;
      && WordAt(text, pos, ms.before) && WordAt(text, a, Spell(ms.tree))
      && WordAt(text, b, ms.after) && WordAt(text, c, MembersTail(ms))
      && Stop(Peek(text, b)) && Skip(text, b) == c && Peek(text, c) == MembersTail(ms)[0]
      && c + |MembersTail(ms)| == pos + |ValueText(ms)|
  {
    AtSplit(text, pos, ms.before + Spell(ms.tree) + ms.after, MembersTail(ms));
    AtSplit(text, pos, ms.before + Spell(ms.tree), ms.after);
    AtSplit(text, pos, ms.before, Spell(ms.tree));
    ClosesGap(text, pos + |ms.before| + |Spell(ms.tree)|, ms.after, MembersTail(ms));
  }

  /** From a tree's text, after any blanks, the tree's value. */
  lemma {:induction false} TreeReads(strtod: Text -> Number, text: Text, start: nat, gap: Text, t: Tree, depth: nat)
    requires ValidTree(t) && Blank(gap) && WordAt(text, start, gap) && WordAt(text, start + |gap|, Spell(t))
    requires Stop(Peek(text, start + |gap| + |Spell(t)|))
    ensures Reads(ValueAt(strtod, text, start, depth), Denote(strtod, t), start + |gap| + |Spell(t)|, Fits(t, depth))
    decreases t, 1
  {
    hide WordAt, Skip, Blank, Denote, Spell, ItemsAt, MembersAt, ScalarAt, Stop, ArrayAt, ObjectAt, Fits;
    var pos := start + |gap|;
    Starts(text, pos, t);
    SkipsBlank(text, start, gap);
    PlainFits(t, depth);
    if depth < MAX_DEPTH {
      match t
      case EmptyArray(g) => EmptyReads(strtod, text, pos, t, depth);
      case EmptyObject(g) => EmptyReads(strtod, text, pos, t, depth);
      case Array(items) => ArrayReads(strtod, text, pos, t, depth);
      case Object(ms) => ObjectReads(strtod, text, pos, t, depth);
      case _ => ScalarReads(strtod, text, pos, t);
    }
  }

  lemma Starts(text: Text, pos: nat, t: Tree)
    requires ValidTree(t) && WordAt(text, pos, Spell(t))
    ensures pos < |text| && Opens(text[pos])
    ensures text[pos] == OPEN_OBJECT <==> t.EmptyObject? || t.Object?
    ensures text[pos] == OPEN_ARRAY <==> t.EmptyArray? || t.Array?
  {
    FirstChar(t);
    assert text[pos] == Spell(t)[0];
  }

  lemma PlainFits(t: Tree, depth: nat)
    requires ValidTree(t)
    ensures Fits(t, depth) ==> depth < MAX_DEPTH
    ensures !t.Array? && !t.Object? ==> (Fits(t, depth) <==> depth < MAX_DEPTH)
  {
  }

  lemma EmptyReads(strtod: Text -> Number, text: Text, pos: nat, t: Tree, depth: nat)
    requires ValidTree(t) && WordAt(text, pos, Spell(t)) && (t.EmptyArray? || t.EmptyObject?) && pos < |text|
    ensures t.EmptyArray? ==> ArrayAt(strtod, text, pos, depth + 1) == Ok(Denote(strtod, t), pos + |Spell(t)|)
    ensures t.EmptyObject? ==> ObjectAt(strtod, text, pos, depth + 1) == Ok(Denote(strtod, t), pos + |Spell(t)|)
  {
    match t
    case EmptyArray(g) => OpensGap(text, pos, OPEN_ARRAY, g, [CLOSE_ARRAY]);
    case EmptyObject(g) => OpensGap(text, pos, OPEN_OBJECT, g, [CLOSE_OBJECT]);
    case _ =>
  }

  lemma ScalarReads(strtod: Text -> Number, text: Text, pos: nat, t: Tree)
    requires ValidTree(t) && WordAt(text, pos, Spell(t)) && Stop(Peek(text, pos + |Spell(t)|))
    requires !t.Array? && !t.EmptyArray? && !t.Object? && !t.EmptyObject?
    ensures ScalarAt(strtod, text, pos) == Ok(Denote(strtod, t), pos + |Spell(t)|)
  {
    FirstChar(t);
    assert text[pos] == Spell(t)[0];
    match t
    case Numeric(n) => NumberReads(strtod, text, pos, n);
    case Quoted(gs) => StringReads(text, pos, gs);
    case _ => WordReads(text, pos, t);
  }

  lemma FitsInside(t: Tree, depth: nat)
    requires ValidTree(t)
    ensures t.Array? ==> (Fits(t, depth) <==> FitItems(t.items, depth + 1))
    ensures t.Object? ==> (Fits(t, depth) <==> FitMembers(t.members, depth + 1))
  {
  }

  lemma FitFirst(items: Items, depth: nat)
    requires items.Item? && ValidItems(items)
    ensures FitItems(items, depth) <==> Fits(items.tree, depth) && FitItems(items.more, depth)
  {
  }

  lemma FitMember(ms: Members, depth: nat)
    requires ms.Member? && ValidMembers(ms)
    ensures FitMembers(ms, depth) <==> 0 !in GlyphUnits(ms.key) && Fits(ms.tree, depth) && FitMembers(ms.more, depth)
  {
  }

  lemma ArrayReads(strtod: Text -> Number, text: Text, pos: nat, t: Tree, depth: nat)
    requires t.Array? && ValidTree(t) && WordAt(text, pos, Spell(t))
    ensures Reads(ArrayAt(strtod, text, pos, depth + 1), Denote(strtod, t), pos + |Spell(t)|, Fits(t, depth))
    decreases t, 0
  {
    ArrayOpens(text, pos, t);
    ItemsRead(strtod, text, pos + 1, pos + 1 + |t.items.before|, t.items, depth + 1, []);
    assert [] + DenoteItems(strtod, t.items) == DenoteItems(strtod, t.items);
    FitsInside(t, depth);
  }

  lemma ArrayOpens(text: Text, pos: nat, t: Tree)
    requires t.Array? && ValidTree(t) && WordAt(text, pos, Spell(t))
    ensures Peek(text, pos) == OPEN_ARRAY && WordAt(text, pos + 1, SpellItems(t.items))
    ensures Skip(text, pos + 1) == pos + 1 + |t.items.before|
    ensures Peek(text, pos + 1 + |t.items.before|) != CLOSE_ARRAY
  {
    AtOne(text, pos, OPEN_ARRAY, SpellItems(t.items));
    ItemPieces(text, pos + 1, t.items);
    FirstChar(t.items.tree);
    var p := pos + 1 + |t.items.before|;
    assert text[p] == Spell(t.items.tree)[0];
    SkipsBlank(text, pos + 1, t.items.before);
  }

  lemma ObjectReads(strtod: Text -> Number, text: Text, pos: nat, t: Tree, depth: nat)
    requires t.Object? && ValidTree(t) && WordAt(text, pos, Spell(t))
    ensures Reads(ObjectAt(strtod, text, pos, depth + 1), Denote(strtod, t), pos + |Spell(t)|, Fits(t, depth))
    decreases t, 0
  {
    ObjectOpens(text, pos, t);
    MembersRead(strtod, text, pos + 1, pos + 1 + |t.members.lead|, t.members, depth + 1, []);
    FitsInside(t, depth);
  }

  lemma ObjectOpens(text: Text, pos: nat, t: Tree)
    requires t.Object? && ValidTree(t) && WordAt(text, pos, Spell(t))
    ensures Peek(text, pos) == OPEN_OBJECT && WordAt(text, pos + 1, SpellMembers(t.members))
    ensures Skip(text, pos + 1) == pos + 1 + |t.members.lead|
    ensures Peek(text, pos + 1 + |t.members.lead|) == QUOTE
  {
    AtOne(text, pos, OPEN_OBJECT, SpellMembers(t.members));
    KeyPieces(text, pos + 1, t.members);
    SkipsBlank(text, pos + 1, t.members.lead);
  }

  lemma GoesOn(strtod: Text -> Number, text: Text, b: nat, c: nat, depth: nat, props: seq<Prop>, items: seq<Value>)
    requires b <= |text| && Skip(text, b) == c < |text| && text[c] == COMMA
    ensures MemberEnd(strtod, text, b, depth, props) == MembersAt(strtod, text, c + 1, depth, props)
    ensures ItemEnd(strtod, text, b, depth, items) == ItemsAt(strtod, text, c + 1, depth, items)
  {
  }

  /** Elements from `p` on, before or after the blanks that lead the first. */
  lemma {:induction false} ItemsRead(strtod: Text -> Number, text: Text, pos: nat, p: nat, items: Items, depth: nat, done: seq<Value>)
    requires items.Item? && ValidItems(items) && WordAt(text, pos, SpellItems(items))
    requires p == pos || p == pos + |items.before|
    ensures p <= |text|
    ensures Reads(ItemsAt(strtod, text, p, depth, done), Arr(done + DenoteItems(strtod, items)),
                  pos + |SpellItems(items)|, FitItems(items, depth))
    decreases items, 2
  {
    ItemPieces(text, pos, items);
    TreeReads(strtod, text, p, if p == pos then items.before else [], items.tree, depth);
    ItemBody(strtod, text, p, pos + |items.before| + |Spell(items.tree)|, items, depth, done);
  }

  /** The first element read, the elements after it. */
  lemma {:induction false} ItemBody(strtod: Text -> Number, text: Text, p: nat, b: nat, items: Items, depth: nat, done: seq<Value>)
    requires items.Item? && ValidItems(items) && p <= |text|
    requires Reads(ValueAt(strtod, text, p, depth), Denote(strtod, items.tree), b, Fits(items.tree, depth))
    requires b + |items.after| <= |text| && Skip(text, b) == b + |items.after|
    requires WordAt(text, b + |items.after|, ItemsTail(items)) && Peek(text, b + |items.after|) == ItemsTail(items)[0]
    ensures Reads(ItemsAt(strtod, text, p, depth, done), Arr(done + DenoteItems(strtod, items)),
                  b + |items.after| + |ItemsTail(items)|, FitItems(items, depth))
    decreases items, 1
  {
    FitFirst(items, depth);
    if Fits(items.tree, depth) {
      var v := Denote(strtod, items.tree);
      assert done + DenoteItems(strtod, items) == (done + [v]) + DenoteItems(strtod, items.more);
      ItemEnds(strtod, text, b, items, depth, done + [v]);
    }
  }

  lemma {:induction false} ItemEnds(strtod: Text -> Number, text: Text, b: nat, items: Items, depth: nat, done: seq<Value>)
    requires items.Item? && ValidItems(items) && Fits(items.tree, depth)
    requires b + |items.after| <= |text| && Skip(text, b) == b + |items.after|
    requires WordAt(text, b + |items.after|, ItemsTail(items)) && Peek(text, b + |items.after|) == ItemsTail(items)[0]
    ensures Reads(ItemEnd(strtod, text, b, depth, done), Arr(done + DenoteItems(strtod, items.more)),
                  b + |items.after| + |ItemsTail(items)|, FitItems(items.more, depth))
    decreases items, 0
  {
    hide WordAt, Skip, SpellItems, ItemsAt, Spell, Denote, ValueAt;
    var c := b + |items.after|;
    if items.more.Item? {
      AtOne(text, c, COMMA, SpellItems(items.more));
      ItemsRead(strtod, text, c + 1, c + 1, items.more, depth, done);
      GoesOn(strtod, text, b, c, depth, [], done);
    } else {
      assert done + DenoteItems(strtod, items.more) == done;
    }
  }

  /** The label of the first member, as the parser finds it. */
  lemma LabelReads(text: Text, pos: nat, p: nat, ms: Members)
    requires ms.Member? && ValidMembers(ms) && WordAt(text, pos, SpellMembers(ms))
    requires p == pos || p == pos + |ms.lead|
    ensures p <= |text|
    ensures var k := LabelAt(text, p); var v := pos + |ms.lead| + |KeyText(ms)| + |ms.mid| + 1;
      && (if 0 in GlyphUnits(ms.key) then k.Fail? else k == Ok(GlyphUnits(ms.key), v))
      && WordAt(text, v, ValueText(ms)) && v + |ValueText(ms)| == pos + |SpellMembers(ms)|
  {
    hide Skip, Blank, SpellGlyphs, SpellMembers;
    KeyPieces(text, pos, ms);
    SkipsBlank(text, p, if p == pos then ms.lead else []);
    StringReads(text, pos + |ms.lead|, ms.key);
  }

  lemma MembersStuck(strtod: Text -> Number, text: Text, p: nat, depth: nat, done: seq<Prop>, v: nat)
    requires p <= |text| && LabelAt(text, p).Ok? && LabelAt(text, p).pos == v && ValueAt(strtod, text, v, depth).Fail?
    ensures MembersAt(strtod, text, p, depth, done).Fail?
  {
  }

  lemma MembersJoin(strtod: Text -> Number, text: Text, p: nat, depth: nat, done: seq<Prop>, ms: Members, v: nat, b: nat, end: nat)
    requires p <= |text| && ms.Member? && ValidMembers(ms) && LabelAt(text, p) == Ok(GlyphUnits(ms.key), v)
    requires ValueAt(strtod, text, v, depth) == Ok(Denote(strtod, ms.tree), b)
    requires var done' := SetProp(done, GlyphUnits(ms.key), Denote(strtod, ms.tree));
      Reads(MemberEnd(strtod, text, b, depth, done'), Obj(DenoteMembers(strtod, ms.more, done')), end, FitMembers(ms.more, depth))
    ensures Reads(MembersAt(strtod, text, p, depth, done), Obj(DenoteMembers(strtod, ms, done)), end, FitMembers(ms.more, depth))
  {
  }

  /** Members from `p` on, before or after the blanks that lead the first. */
  lemma {:induction false} MembersRead(strtod: Text -> Number, text: Text, pos: nat, p: nat, ms: Members, depth: nat, done: seq<Prop>)
    requires ms.Member? && ValidMembers(ms) && WordAt(text, pos, SpellMembers(ms))
    requires p == pos || p == pos + |ms.lead|
    ensures p <= |text|
    ensures Reads(MembersAt(strtod, text, p, depth, done), Obj(DenoteMembers(strtod, ms, done)),
                  pos + |SpellMembers(ms)|, FitMembers(ms, depth))
    decreases ms, 2
  {
    LabelReads(text, pos, p, ms);
    FitMember(ms, depth);
    if 0 !in GlyphUnits(ms.key) {
      MemberBody(strtod, text, p, LabelAt(text, p).pos, ms, depth, done);
    }
  }

  /** The value of the first member, its label read, and the members after it. */
  lemma {:induction false} MemberBody(strtod: Text -> Number, text: Text, p: nat, v: nat, ms: Members, depth: nat, done: seq<Prop>)
    requires ms.Member? && ValidMembers(ms) && 0 !in GlyphUnits(ms.key)
    requires p <= |text| && LabelAt(text, p) == Ok(GlyphUnits(ms.key), v) && WordAt(text, v, ValueText(ms))
    ensures Reads(MembersAt(strtod, text, p, depth, done), Obj(DenoteMembers(strtod, ms, done)),
                  v + |ValueText(ms)|, FitMembers(ms, depth))
    decreases ms, 1
  {
    hide WordAt, SpellMembers, DenoteMembers, FitMembers, SetProp, Denote, Fits, MembersAt, ValueAt, MemberEnd, LabelAt, Skip, MembersTail;
    ValuePieces(text, v, ms);
    FitMember(ms, depth);
    TreeReads(strtod, text, v, ms.before, ms.tree, depth);
    if Fits(ms.tree, depth) {
      var b := v + |ms.before| + |Spell(ms.tree)|;
      MemberEnds(strtod, text, b, ms, depth, SetProp(done, GlyphUnits(ms.key), Denote(strtod, ms.tree)));
      MembersJoin(strtod, text, p, depth, done, ms, v, b, v + |ValueText(ms)|);
    } else {
      MembersStuck(strtod, text, p, depth, done, v);
    }
  }

  lemma {:induction false} MemberEnds(strtod: Text -> Number, text: Text, b: nat, ms: Members, depth: nat, done: seq<Prop>)
    requires ms.Member? && ValidMembers(ms) && Fits(ms.tree, depth)
    requires b + |ms.after| <= |text| && Skip(text, b) == b + |ms.after|
    requires WordAt(text, b + |ms.after|, MembersTail(ms)) && Peek(text, b + |ms.after|) == MembersTail(ms)[0]
    ensures Reads(MemberEnd(strtod, text, b, depth, done), Obj(DenoteMembers(strtod, ms.more, done)),
                  b + |ms.after| + |MembersTail(ms)|, FitMembers(ms.more, depth))
    decreases ms, 0
  {
    hide WordAt, Skip, SpellMembers, MembersAt, Spell, Denote, SetProp, ValueAt;
    var c := b + |ms.after|;
    if ms.more.Member? {
      AtOne(text, c, COMMA, SpellMembers(ms.more));
      MembersRead(strtod, text, c + 1, c + 1, ms.more, depth, done);
      GoesOn(strtod, text, b, c, depth, done, []);
    }
  }

  /** The text is the tree's, blanks around. */
  ghost predicate Document(text: Text, lead: Text, t: Tree, trail: Text) {
    && ValidTree(t) && Blank(lead) && Blank(trail) && |text| == |lead| + |Spell(t)| + |trail|
    && WordAt(text, 0, lead) && WordAt(text, |lead|, Spell(t)) && WordAt(text, |lead| + |Spell(t)|, trail)
  }

  lemma Placed(text: Text, a: Text, w: Text, b: Text)
    requires text == a + w + b
    ensures WordAt(text, |a|, w)
  {
  }

  lemma Assembled(text: Text, a: Text, w: Text, b: Text)
    requires WordAt(text, 0, a) && WordAt(text, |a|, w) && WordAt(text, |a| + |w|, b) && |text| == |a| + |w| + |b|
    ensures text == a + w + b
  {
    Slice(text, 0, a);
    Slice(text, |a|, w);
    Slice(text, |a| + |w|, b);
  }

  lemma DocumentText(text: Text, lead: Text, t: Tree, trail: Text)
    requires ValidTree(t) && Blank(lead) && Blank(trail)
    ensures Document(text, lead, t, trail) <==> text == lead + Spell(t) + trail
  {
    var w := Spell(t);
    if Document(text, lead, t, trail) { Assembled(text, lead, w, trail); }
    if text == lead + w + trail {
      assert text == [] + lead + (w + trail) && text == (lead + w) + trail + [];
      Placed(text, [], lead, w + trail);
      Placed(text, lead, w, trail);
      Placed(text, lead + w, trail, []);
    }
  }

  /** Every document parses to its tree's value, or is too deep or has an impossible key and fails. */
  lemma DocumentParses(strtod: Text -> Number, text: Text, lead: Text, t: Tree, trail: Text)
    requires Document(text, lead, t, trail)
    ensures Reads(Parse(strtod, text), Denote(strtod, t), |text|, Fits(t, 0))
  {
    var end := |lead| + |Spell(t)|;
    if trail != [] { assert text[end] == trail[0]; }
    SkipsBlank(text, end, trail);
    TreeReads(strtod, text, 0, lead, t, 0);
  }
}

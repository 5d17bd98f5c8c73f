/** The parser reads nothing but the grammar: what it accepts is the text of a tree whose value it
    answers. With JsonComplete, it accepts exactly the documents nested at most 512 deep. */
module JsonSound {
  import opened CodecModel
  import opened KeyOrder
  import opened JsonModel
  import opened JsonParse
  import opened JsonComplete

  lemma Join(text: Text, pos: nat, a: Text, b: Text)
    requires WordAt(text, pos, a) && WordAt(text, pos + |a|, b)
    ensures WordAt(text, pos, a + b)
  {
    Slice(text, pos, a);
    Slice(text, pos + |a|, b);
    assert text[pos..pos + |a + b|] == a + b;
    SliceWord(text, pos, a + b);
  }

  lemma SliceWord(text: Text, pos: nat, w: Text)
    requires pos + |w| <= |text| && text[pos..pos + |w|] == w
    ensures WordAt(text, pos, w)
  {
    forall i | 0 <= i < |w| ensures text[pos + i] == w[i] { assert text[pos..pos + |w|][i] == text[pos + i]; }
  }

  lemma {:induction false} SkipGap(text: Text, pos: nat) returns (gap: Text)
    requires pos <= |text|
    ensures Blank(gap) && WordAt(text, pos, gap) && Skip(text, pos) == pos + |gap|
    decreases |text| - pos
  {
    gap := [];
    if pos < |text| && IsBlank(text[pos]) {
      var more := SkipGap(text, pos + 1);
      gap := [text[pos]] + more;
    }
  }

  lemma {:induction false} RunDigits(text: Text, pos: nat) returns (ds: Text)
    requires pos <= |text|
    ensures AllDigits(ds) && WordAt(text, pos, ds) && Run(text, pos) == pos + |ds|
    decreases |text| - pos
  {
    ds := [];
    if IsDigit(Peek(text, pos)) {
      var more := RunDigits(text, pos + 1);
      ds := [text[pos]] + more;
    }
  }

  // ---------------------------------------------------------------- strings

  lemma HexSound(text: Text, pos: nat) returns (g: Glyph)
    requires pos <= |text| && Hex4(text, pos, 0, 0).Ok?
    ensures g.Hex? && ValidGlyph(g) && Hex4(text, pos, 0, 0) == Ok(GlyphUnit(g), pos + 4) && pos + 4 <= |text|
    ensures text[pos] == g.a && text[pos + 1] == g.b && text[pos + 2] == g.c && text[pos + 3] == g.d
  {
    HexChain(text, pos);
    g := Hex(text[pos], text[pos + 1], text[pos + 2], text[pos + 3]);
    HexReads(text, pos, g.a, g.b, g.c, g.d);
  }

  lemma HexChain(text: Text, pos: nat)
    requires pos <= |text| && Hex4(text, pos, 0, 0).Ok?
    ensures pos + 4 <= |text| && forall k :: pos <= k < pos + 4 ==> IsHex(text[k])
  {
    var one := HexStep(text, pos, 0, 0);
    var two := HexStep(text, pos + 1, 1, one);
    var three := HexStep(text, pos + 2, 2, two);
    var four := HexStep(text, pos + 3, 3, three);
  }

  lemma HexStep(text: Text, pos: nat, i: nat, out: nat) returns (next: nat)
    requires i < 4 && pos <= |text| && Hex4(text, pos, i, out).Ok?
    ensures pos < |text| && IsHex(text[pos]) && Hex4(text, pos + 1, i + 1, next).Ok?
  {
    next := (out * 16 + HexVal(Peek(text, pos))) % 0x10000;
  }

  /** The first glyph of a string that is read and does not end at once. */
  lemma GlyphSound(text: Text, pos: nat) returns (g: Glyph)
    requires pos < |text| && StringBody(text, pos).Ok? && text[pos] != QUOTE
    ensures ValidGlyph(g) && WordAt(text, pos, SpellGlyph(g))
    ensures StringBody(text, pos + |SpellGlyph(g)|).Ok?
  {
    if text[pos] != BACKSLASH {
      g := Plain(text[pos]);
      assert StringBody(text, pos) == Prepend(text[pos], StringBody(text, pos + 1));
    } else if IsShort(Peek(text, pos + 1)) {
      g := Short(text[pos + 1]);
      assert StringBody(text, pos) == Prepend(ShortUnit(g.c), StringBody(text, pos + 2));
    } else {
      g := HexSound(text, pos + 2);
      HexBody(text, pos, GlyphUnit(g));
    }
  }

  lemma {:induction false} BodySound(text: Text, pos: nat) returns (gs: seq<Glyph>)
    requires pos <= |text| && StringBody(text, pos).Ok?
    ensures ValidGlyphs(gs) && WordAt(text, pos, SpellGlyphs(gs))
    ensures StringBody(text, pos) == Ok(GlyphUnits(gs), pos + |SpellGlyphs(gs)|)
    decreases |text| - pos
  {
    if text[pos] == QUOTE {
      gs := [];
    } else {
      var g := GlyphSound(text, pos);
      var more := BodySound(text, pos + |SpellGlyph(g)|);
      gs := [g] + more;
      assert gs[1..] == more;
      Join(text, pos, SpellGlyph(g), SpellGlyphs(more));
      GlyphsRead(text, pos, gs);
    }
  }

  lemma StringSound(text: Text, pos: nat) returns (gs: seq<Glyph>)
    requires pos <= |text| && StringAt(text, pos).Ok?
    ensures ValidGlyphs(gs) && WordAt(text, pos, [QUOTE] + SpellGlyphs(gs))
    ensures StringAt(text, pos) == Ok(GlyphUnits(gs), pos + 1 + |SpellGlyphs(gs)|)
  {
    gs := BodySound(text, pos + 1);
    Join(text, pos, [QUOTE], SpellGlyphs(gs));
  }

  // ---------------------------------------------------------------- numbers

  lemma WholeSound(text: Text, pos: nat) returns (whole: Text)
    requires pos <= |text| && WholeEnd(text, pos).Ok?
    ensures Canonical(whole) && WordAt(text, pos, whole) && WholeEnd(text, pos).pos == pos + |whole|
  {
    if Peek(text, pos) == 48 {
      whole := [text[pos]];
    } else {
      whole := RunDigits(text, pos);
      assert whole[0] == text[pos];
    }
  }

  lemma FracSound(text: Text, pos: nat) returns (frac: Text)
    requires pos <= |text| && FracEnd(text, pos).Ok?
    ensures AllDigits(frac) && WordAt(text, pos, SpellFrac(frac)) && FracEnd(text, pos).pos == pos + |SpellFrac(frac)|
  {
    frac := [];
    if Peek(text, pos) == DOT {
      frac := RunDigits(text, pos + 1);
      Join(text, pos, [DOT], frac);
    }
  }

  lemma ExponentSound(text: Text, pos: nat) returns (e: Exponent)
    requires pos <= |text| && ExponentEnd(text, pos).Ok?
    ensures ValidExponent(e) && WordAt(text, pos, SpellExponent(e)) && ExponentEnd(text, pos).pos == pos + |SpellExponent(e)|
  {
    e := NoExponent;
    if IsMarker(Peek(text, pos)) {
      var c := Peek(text, pos + 1);
      var sign: Text := if c == PLUS || c == MINUS then [c] else [];
      var ds := RunDigits(text, pos + 1 + |sign|);
      e := Exponent(text[pos], sign, ds);
      Join(text, pos, [text[pos]], sign);
      Join(text, pos, [text[pos]] + sign, ds);
    }
  }

  lemma NumeralSound(text: Text, pos: nat) returns (n: Numeral)
    requires pos <= |text| && NumberEnd(text, pos).Ok?
    ensures ValidNumeral(n) && WordAt(text, pos, SpellNumeral(n)) && NumberEnd(text, pos).pos == pos + |SpellNumeral(n)|
  {
    var neg := Peek(text, pos) == MINUS;
    var sign := SpellSign(neg);
    var w := pos + |sign|;
    var whole := WholeSound(text, w);
    var frac := FracSound(text, w + |whole|);
    var e := ExponentSound(text, w + |whole| + |SpellFrac(frac)|);
    n := Numeral(neg, whole, frac, e);
    JoinNumeral(text, pos, n);
  }

  lemma JoinNumeral(text: Text, pos: nat, n: Numeral)
    requires HoldsNumeral(text, pos, n)
    ensures WordAt(text, pos, SpellNumeral(n)) && |SpellNumeral(n)| == NumeralEnd(n)
  {
    Join(text, pos, SpellSign(n.neg), n.whole);
    Join(text, pos, SpellSign(n.neg) + n.whole, SpellFrac(n.frac));
    Join(text, pos, SpellSign(n.neg) + n.whole + SpellFrac(n.frac), SpellExponent(n.exp));
  }

  lemma NumberSound(strtod: Text -> Number, text: Text, pos: nat) returns (t: Tree)
    requires pos <= |text| && NumberAt(strtod, text, pos).Ok?
    ensures t.Numeric? && ValidTree(t) && WordAt(text, pos, Spell(t))
    ensures NumberAt(strtod, text, pos) == Ok(Denote(strtod, t), pos + |Spell(t)|)
  {
    var n := NumeralSound(text, pos);
    t := Numeric(n);
    Slice(text, pos, SpellNumeral(n));
  }

  // ---------------------------------------------------------------- values

  lemma ScalarSound(strtod: Text -> Number, text: Text, pos: nat) returns (t: Tree)
    requires pos <= |text| && ScalarAt(strtod, text, pos).Ok?
    ensures ValidTree(t) && PlainKeys(t) && Height(t) == 1 && WordAt(text, pos, Spell(t))
    ensures ScalarAt(strtod, text, pos) == Ok(Denote(strtod, t), pos + |Spell(t)|)
  {
    var c := Peek(text, pos);
    if c == QUOTE {
      var gs := StringSound(text, pos);
      t := Quoted(gs);
    } else if c == MINUS || IsDigit(c) {
      t := NumberSound(strtod, text, pos);
    } else if WordAt(text, pos, TRUE) {
      t := TrueWord;
    } else if WordAt(text, pos, FALSE) {
      t := FalseWord;
    } else {
      t := NullWord;
    }
  }

  /** A gap and a tree that the parser reads as it does from `start`. */
  ghost predicate ReadTree(r: Result<Value>, strtod: Text -> Number, text: Text, start: nat, gap: Text, t: Tree, depth: nat) {
    && ValidTree(t) && Blank(gap) && Fits(t, depth)
    && WordAt(text, start, gap) && WordAt(text, start + |gap|, Spell(t))
    && r == Ok(Denote(strtod, t), start + |gap| + |Spell(t)|)
  }

  lemma {:induction false} ValueSound(strtod: Text -> Number, text: Text, start: nat, depth: nat) returns (gap: Text, t: Tree)
    requires start <= |text| && ValueAt(strtod, text, start, depth).Ok?
    ensures ReadTree(ValueAt(strtod, text, start, depth), strtod, text, start, gap, t, depth)
    decreases |text| - start, 2
  {
    gap := SkipGap(text, start);
    var pos := start + |gap|;
    if Peek(text, pos) == OPEN_OBJECT {
      t := ObjectSound(strtod, text, pos, depth);
    } else if Peek(text, pos) == OPEN_ARRAY {
      t := ArraySound(strtod, text, pos, depth);
    } else {
      t := ScalarSound(strtod, text, pos);
    }
  }

  lemma Enclosed(text: Text, pos: nat, open: Unit, gap: Text, close: Unit)
    requires pos < |text| && text[pos] == open && WordAt(text, pos + 1, gap)
    requires pos + 1 + |gap| < |text| && text[pos + 1 + |gap|] == close
    ensures WordAt(text, pos, [open] + gap + [close])
  {
    Join(text, pos, [open], gap);
    Join(text, pos, [open] + gap, [close]);
  }

  // Arrays.

  lemma LeadItems(text: Text, pos: nat, lead: Text, items: Items, strtod: Text -> Number, depth: nat) returns (r: Items)
    requires items.Item? && ValidItems(items) && FitItems(items, depth) && Blank(lead)
    requires WordAt(text, pos, lead) && WordAt(text, pos + |lead|, SpellItems(items))
    ensures r.Item? && ValidItems(r) && FitItems(r, depth) && DenoteItems(strtod, r) == DenoteItems(strtod, items)
    ensures WordAt(text, pos, SpellItems(r)) && |SpellItems(r)| == |lead| + |SpellItems(items)|
  {
    hide WordAt;
    r := items.(before := lead + items.before);
    LedItems(lead, items, strtod, depth);
    Join(text, pos, lead, SpellItems(items));
  }

  lemma LedItems(lead: Text, items: Items, strtod: Text -> Number, depth: nat)
    requires items.Item? && ValidItems(items) && FitItems(items, depth) && Blank(lead)
    ensures var r := items.(before := lead + items.before);
      ValidItems(r) && FitItems(r, depth) && DenoteItems(strtod, r) == DenoteItems(strtod, items) && SpellItems(r) == lead + SpellItems(items)
  {
    hide Spell, Denote, Fits, Blank;
    LongerGap(lead, items.before);
    LedText(lead, items);
    hide SpellItems;
  }

  lemma LedText(lead: Text, items: Items)
    requires items.Item?
    ensures SpellItems(items.(before := lead + items.before)) == lead + SpellItems(items)
  {
    hide Spell;
    assert (lead + items.before) + Spell(items.tree) == lead + (items.before + Spell(items.tree));
  }

  lemma LongerGap(a: Text, b: Text)
    requires Blank(a) && Blank(b)
    ensures Blank(a + b)
  {
  }

  lemma {:induction false} ArraySound(strtod: Text -> Number, text: Text, pos: nat, depth: nat) returns (t: Tree)
    requires pos < |text| && text[pos] == OPEN_ARRAY && depth < MAX_DEPTH && ArrayAt(strtod, text, pos, depth + 1).Ok?
    ensures ReadTree(ArrayAt(strtod, text, pos, depth + 1), strtod, text, pos, [], t, depth)
    decreases |text| - pos, 1
  {
    hide ItemsAt, DenoteItems, SpellItems, ValidItems, FitItems, WordAt, ReadTree, Skip, Blank;
    var lead := SkipGap(text, pos + 1);
    var p := pos + 1 + |lead|;
    if Peek(text, p) == CLOSE_ARRAY {
      t := EmptyArray(lead);
      EmptyArraySound(strtod, text, pos, lead, depth);
    } else {
      assert ArrayAt(strtod, text, pos, depth + 1) == ItemsAt(strtod, text, p, depth + 1, []);
      var items := ItemsSound(strtod, text, p, depth + 1, []);
      assert [] + DenoteItems(strtod, items) == DenoteItems(strtod, items);
      items := LeadItems(text, pos + 1, lead, items, strtod, depth + 1);
      t := Array(items);
      ArrayJoin(strtod, text, pos, p, t, depth);
    }
  }

  lemma EmptyArraySound(strtod: Text -> Number, text: Text, pos: nat, lead: Text, depth: nat)
    requires pos < |text| && text[pos] == OPEN_ARRAY && depth < MAX_DEPTH && Blank(lead) && WordAt(text, pos + 1, lead)
    requires Skip(text, pos + 1) == pos + 1 + |lead| && Peek(text, pos + 1 + |lead|) == CLOSE_ARRAY
    ensures ReadTree(ArrayAt(strtod, text, pos, depth + 1), strtod, text, pos, [], EmptyArray(lead), depth)
  {
    hide WordAt, Skip, Blank;
    Enclosed(text, pos, OPEN_ARRAY, lead, CLOSE_ARRAY);
    NoGap(text, pos);
  }

  lemma ArrayJoin(strtod: Text -> Number, text: Text, pos: nat, p: nat, t: Tree, depth: nat)
    requires pos < |text| && text[pos] == OPEN_ARRAY && Skip(text, pos + 1) == p && Peek(text, p) != CLOSE_ARRAY
    requires t.Array? && ValidTree(t) && FitItems(t.items, depth + 1) && WordAt(text, pos + 1, SpellItems(t.items))
    requires ItemsAt(strtod, text, p, depth + 1, []) ==
      Ok(Arr(DenoteItems(strtod, t.items)), pos + 1 + |SpellItems(t.items)|)
    ensures ReadTree(ArrayAt(strtod, text, pos, depth + 1), strtod, text, pos, [], t, depth)
  {
    Join(text, pos, [OPEN_ARRAY], SpellItems(t.items));
    FitsInside(t, depth);
    assert ArrayAt(strtod, text, pos, depth + 1) == ItemsAt(strtod, text, p, depth + 1, []);
  }

  ghost predicate ReadItems(r: Result<Value>, strtod: Text -> Number, text: Text, p: nat, items: Items, depth: nat, done: seq<Value>) {
    && items.Item? && ValidItems(items) && FitItems(items, depth) && WordAt(text, p, SpellItems(items))
    && r == Ok(Arr(done + DenoteItems(strtod, items)), p + |SpellItems(items)|)
  }

  lemma {:induction false} ItemsSound(strtod: Text -> Number, text: Text, p: nat, depth: nat, done: seq<Value>) returns (items: Items)
    requires p <= |text| && ItemsAt(strtod, text, p, depth, done).Ok?
    ensures ReadItems(ItemsAt(strtod, text, p, depth, done), strtod, text, p, items, depth, done)
    decreases |text| - p, 3
  {
    hide ReadItems, ReadTree, WordAt, SpellItems, DenoteItems, ValidItems, FitItems, Blank, Skip;
    var before, t := ValueSound(strtod, text, p, depth);
    var b := ValueAt(strtod, text, p, depth).pos;
    TreeEnds(ValueAt(strtod, text, p, depth), strtod, text, p, before, t, depth);
    var after := SkipGap(text, b);
    var more := ItemEndSound(strtod, text, b, b + |after|, depth, done + [Denote(strtod, t)]);
    items := Item(before, t, after, more);
    ItemsBuilt(strtod, text, p, depth, done, items, b);
  }

  /** A value and what follows it are elements that the parser reads as it does from `p`. */
  lemma ItemsBuilt(strtod: Text -> Number, text: Text, p: nat, depth: nat, done: seq<Value>, items: Items, b: nat)
    requires p <= |text| && items.Item?
    requires ReadTree(ValueAt(strtod, text, p, depth), strtod, text, p, items.before, items.tree, depth)
    requires ValueAt(strtod, text, p, depth).pos == b && Blank(items.after) && WordAt(text, b, items.after)
    requires ValidItems(items.more) && FitItems(items.more, depth) && WordAt(text, b + |items.after|, ItemsTail(items))
    requires var done' := done + [Denote(strtod, items.tree)];
      ItemEnd(strtod, text, b, depth, done') == Ok(Arr(done' + DenoteItems(strtod, items.more)), b + |items.after| + |ItemsTail(items)|)
    ensures ReadItems(ItemsAt(strtod, text, p, depth, done), strtod, text, p, items, depth, done)
  {
    hide WordAt, SpellItems, DenoteItems, FitItems, Blank, Spell, Denote, ItemsAt, ItemEnd, ValueAt, Fits, ItemsTail;
    JoinItem(text, p, items);
    FitFirst(items, depth);
    ItemsJoin(strtod, text, p, b, items, depth, done);
  }

  lemma ItemsJoin(strtod: Text -> Number, text: Text, p: nat, b: nat, items: Items, depth: nat, done: seq<Value>)
    requires items.Item? && ValidItems(items) && p <= |text|
    requires ValueAt(strtod, text, p, depth) == Ok(Denote(strtod, items.tree), b)
    requires ItemEnd(strtod, text, b, depth, done + [Denote(strtod, items.tree)]).Ok?
    requires ItemEnd(strtod, text, b, depth, done + [Denote(strtod, items.tree)]).value ==
      Arr(done + [Denote(strtod, items.tree)] + DenoteItems(strtod, items.more))
    ensures ItemsAt(strtod, text, p, depth, done) ==
      Ok(Arr(done + DenoteItems(strtod, items)), ItemEnd(strtod, text, b, depth, done + [Denote(strtod, items.tree)]).pos)
  {
    hide Denote, ValueAt, ItemEnd;
    var v := Denote(strtod, items.tree);
    assert done + DenoteItems(strtod, items) == (done + [v]) + DenoteItems(strtod, items.more);
  }

  lemma JoinItem(text: Text, p: nat, items: Items)
    requires items.Item? && WordAt(text, p, items.before) && WordAt(text, p + |items.before|, Spell(items.tree))
    requires var b := p + |items.before| + |Spell(items.tree)|;
      WordAt(text, b, items.after) && WordAt(text, b + |items.after|, ItemsTail(items))
    ensures WordAt(text, p, SpellItems(items))
    ensures |SpellItems(items)| == |items.before| + |Spell(items.tree)| + |items.after| + |ItemsTail(items)|
  {
    Join(text, p, items.before, Spell(items.tree));
    Join(text, p, items.before + Spell(items.tree), items.after);
    Join(text, p, items.before + Spell(items.tree) + items.after, ItemsTail(items));
  }

  lemma {:induction false} ItemEndSound(strtod: Text -> Number, text: Text, b: nat, c: nat, depth: nat, done: seq<Value>) returns (more: Items)
    requires b <= |text| && Skip(text, b) == c && ItemEnd(strtod, text, b, depth, done).Ok? && depth <= MAX_DEPTH
    ensures ValidItems(more) && FitItems(more, depth)
    ensures var tail := if more.NoItems? then [CLOSE_ARRAY] else [COMMA] + SpellItems(more);
      && WordAt(text, c, tail)
      && ItemEnd(strtod, text, b, depth, done) == Ok(Arr(done + DenoteItems(strtod, more)), c + |tail|)
    decreases |text| - b, 0
  {
    if Peek(text, c) == COMMA {
      more := ItemsSound(strtod, text, c + 1, depth, done);
      GoesOn(strtod, text, b, c, depth, [], done);
      Join(text, c, [COMMA], SpellItems(more));
    } else {
      more := NoItems;
      assert done + DenoteItems(strtod, more) == done;
    }
  }

  // Objects.

  lemma LeadMembers(text: Text, pos: nat, lead: Text, ms: Members, strtod: Text -> Number, depth: nat) returns (r: Members)
    requires ms.Member? && ValidMembers(ms) && FitMembers(ms, depth) && Blank(lead)
    requires WordAt(text, pos, lead) && WordAt(text, pos + |lead|, SpellMembers(ms))
    ensures r.Member? && ValidMembers(r) && FitMembers(r, depth)
    ensures DenoteMembers(strtod, r, []) == DenoteMembers(strtod, ms, [])
    ensures WordAt(text, pos, SpellMembers(r)) && |SpellMembers(r)| == |lead| + |SpellMembers(ms)|
  {
    r := ms.(lead := lead + ms.lead);
    MemberSpelled(ms);
    MemberSpelled(r);
    Regroup(lead, ms.lead, KeyText(ms), ms.mid, [COLON] + ValueText(ms));
    Join(text, pos, lead, SpellMembers(ms));
  }

  lemma Regroup(a: Text, b: Text, c: Text, d: Text, e: Text)
    ensures (a + b) + c + d + e == a + (b + c + d + e)
  {
  }

  lemma {:induction false} ObjectSound(strtod: Text -> Number, text: Text, pos: nat, depth: nat) returns (t: Tree)
    requires pos < |text| && text[pos] == OPEN_OBJECT && depth < MAX_DEPTH && ObjectAt(strtod, text, pos, depth + 1).Ok?
    ensures ReadTree(ObjectAt(strtod, text, pos, depth + 1), strtod, text, pos, [], t, depth)
    decreases |text| - pos, 1
  {
    hide MembersAt, DenoteMembers, SpellMembers, ValidMembers, FitMembers, WordAt, ReadTree, Skip, Blank;
    var lead := SkipGap(text, pos + 1);
    var p := pos + 1 + |lead|;
    if Peek(text, p) == CLOSE_OBJECT {
      t := EmptyObject(lead);
      EmptyObjectSound(strtod, text, pos, lead, depth);
    } else {
      assert ObjectAt(strtod, text, pos, depth + 1) == MembersAt(strtod, text, p, depth + 1, []);
      var ms := MembersSound(strtod, text, p, depth + 1, []);
      ms := LeadMembers(text, pos + 1, lead, ms, strtod, depth + 1);
      t := Object(ms);
      ObjectJoin(strtod, text, pos, p, t, depth);
    }
  }

  lemma EmptyObjectSound(strtod: Text -> Number, text: Text, pos: nat, lead: Text, depth: nat)
    requires pos < |text| && text[pos] == OPEN_OBJECT && depth < MAX_DEPTH && Blank(lead) && WordAt(text, pos + 1, lead)
    requires Skip(text, pos + 1) == pos + 1 + |lead| && Peek(text, pos + 1 + |lead|) == CLOSE_OBJECT
    ensures ReadTree(ObjectAt(strtod, text, pos, depth + 1), strtod, text, pos, [], EmptyObject(lead), depth)
  {
    hide WordAt, Skip, Blank;
    Enclosed(text, pos, OPEN_OBJECT, lead, CLOSE_OBJECT);
    NoGap(text, pos);
  }

  lemma NoGap(text: Text, pos: nat)
    requires pos <= |text|
    ensures Blank([]) && WordAt(text, pos, [])
  {
  }

  lemma ObjectJoin(strtod: Text -> Number, text: Text, pos: nat, p: nat, t: Tree, depth: nat)
    requires pos < |text| && text[pos] == OPEN_OBJECT && Skip(text, pos + 1) == p && Peek(text, p) != CLOSE_OBJECT
    requires t.Object? && ValidTree(t) && FitMembers(t.members, depth + 1) && WordAt(text, pos + 1, SpellMembers(t.members))
    requires MembersAt(strtod, text, p, depth + 1, []) ==
      Ok(Obj(DenoteMembers(strtod, t.members, [])), pos + 1 + |SpellMembers(t.members)|)
    ensures ReadTree(ObjectAt(strtod, text, pos, depth + 1), strtod, text, pos, [], t, depth)
  {
    Join(text, pos, [OPEN_OBJECT], SpellMembers(t.members));
    FitsInside(t, depth);
    assert ObjectAt(strtod, text, pos, depth + 1) == MembersAt(strtod, text, p, depth + 1, []);
  }

  ghost predicate ReadMembers(r: Result<Value>, strtod: Text -> Number, text: Text, p: nat, ms: Members, depth: nat, done: seq<Prop>) {
    && ms.Member? && ValidMembers(ms) && FitMembers(ms, depth) && WordAt(text, p, SpellMembers(ms))
    && r == Ok(Obj(DenoteMembers(strtod, ms, done)), p + |SpellMembers(ms)|)
  }

  /** A key and its colon, read as they stand. */
  ghost predicate LabelHolds(text: Text, p: nat, lead: Text, key: seq<Glyph>, mid: Text)
    requires p <= |text|
  {
    var k := p + |lead|; var w := [QUOTE] + SpellGlyphs(key); var colon := k + |w| + |mid|;
    && Blank(lead) && ValidGlyphs(key) && Blank(mid) && 0 !in GlyphUnits(key)
    && WordAt(text, p, lead) && WordAt(text, k, w) && WordAt(text, k + |w|, mid) && WordAt(text, colon, [COLON])
    && LabelAt(text, p) == Ok(GlyphUnits(key), colon + 1)
  }

  lemma LabelSound(text: Text, p: nat) returns (lead: Text, key: seq<Glyph>, mid: Text)
    requires p <= |text| && LabelAt(text, p).Ok?
    ensures LabelHolds(text, p, lead, key, mid)
  {
    hide SpellGlyphs, Blank, Skip;
    lead := SkipGap(text, p);
    key := StringSound(text, p + |lead|);
    mid := SkipGap(text, p + |lead| + 1 + |SpellGlyphs(key)|);
  }

  lemma {:induction false} MembersSound(strtod: Text -> Number, text: Text, p: nat, depth: nat, done: seq<Prop>) returns (ms: Members)
    requires p <= |text| && MembersAt(strtod, text, p, depth, done).Ok?
    ensures ReadMembers(MembersAt(strtod, text, p, depth, done), strtod, text, p, ms, depth, done)
    decreases |text| - p, 3
  {
    hide ReadMembers, ReadTree, WordAt, SpellMembers, SpellGlyphs, DenoteMembers, ValidMembers, FitMembers, SetProp, Blank, Skip;
    var lead, key, mid := LabelSound(text, p);
    var v := LabelAt(text, p).pos;
    var before, t := ValueSound(strtod, text, v, depth);
    var b := ValueAt(strtod, text, v, depth).pos;
    TreeEnds(ValueAt(strtod, text, v, depth), strtod, text, v, before, t, depth);
    var after := SkipGap(text, b);
    var done' := SetProp(done, GlyphUnits(key), Denote(strtod, t));
    var more := MemberEndSound(strtod, text, b, b + |after|, depth, done');
    ms := Member(lead, key, mid, before, t, after, more);
    MembersBuilt(strtod, text, p, depth, done, ms, v, b);
  }

  lemma TreeEnds(r: Result<Value>, strtod: Text -> Number, text: Text, start: nat, gap: Text, t: Tree, depth: nat)
    requires ReadTree(r, strtod, text, start, gap, t, depth)
    ensures r == Ok(Denote(strtod, t), start + |gap| + |Spell(t)|)
  {
    hide Spell, Denote;
  }

  /** A label, a value and what follows it are members that the parser reads as it does from `p`. */
  lemma MembersBuilt(strtod: Text -> Number, text: Text, p: nat, depth: nat, done: seq<Prop>, ms: Members, v: nat, b: nat)
    requires p <= |text| && ms.Member? && LabelHolds(text, p, ms.lead, ms.key, ms.mid) && LabelAt(text, p).pos == v
    requires ReadTree(ValueAt(strtod, text, v, depth), strtod, text, v, ms.before, ms.tree, depth)
    requires ValueAt(strtod, text, v, depth).pos == b && Blank(ms.after) && WordAt(text, b, ms.after)
    requires ValidMembers(ms.more) && FitMembers(ms.more, depth) && WordAt(text, b + |ms.after|, MembersTail(ms))
    requires var done' := SetProp(done, GlyphUnits(ms.key), Denote(strtod, ms.tree));
      MemberEnd(strtod, text, b, depth, done') == Ok(Obj(DenoteMembers(strtod, ms.more, done')), b + |ms.after| + |MembersTail(ms)|)
    ensures ReadMembers(MembersAt(strtod, text, p, depth, done), strtod, text, p, ms, depth, done)
  {
    hide WordAt, SpellMembers, SpellGlyphs, DenoteMembers, FitMembers, SetProp, Blank, Spell, Denote, GlyphUnits, MembersAt, MemberEnd, ValueAt, LabelAt, Fits, MembersTail;
    JoinMember(text, p, ms);
    FitMember(ms, depth);
    MembersJoin(strtod, text, p, depth, done, ms, v, b, p + |SpellMembers(ms)|);
  }

  lemma JoinMember(text: Text, p: nat, ms: Members)
    requires ms.Member? && WordAt(text, p, ms.lead) && WordAt(text, p + |ms.lead|, KeyText(ms))
    requires var m := p + |ms.lead| + |KeyText(ms)|; var v := m + |ms.mid| + 1;
      && WordAt(text, m, ms.mid) && WordAt(text, m + |ms.mid|, [COLON]) && WordAt(text, v, ms.before)
      && WordAt(text, v + |ms.before|, Spell(ms.tree))
      && WordAt(text, v + |ms.before| + |Spell(ms.tree)|, ms.after)
      && WordAt(text, v + |ms.before| + |Spell(ms.tree)| + |ms.after|, MembersTail(ms))
    ensures WordAt(text, p, SpellMembers(ms))
    ensures |SpellMembers(ms)| == |ms.lead| + |KeyText(ms)| + |ms.mid| + 1 + |ms.before| + |Spell(ms.tree)| + |ms.after| + |MembersTail(ms)|
  {
    var colon := p + |ms.lead| + |KeyText(ms)| + |ms.mid|;
    JoinValue(text, colon + 1, ms);
    MemberSpelled(ms);
    JoinLabel(text, p, ms.lead, KeyText(ms), ms.mid, ValueText(ms));
  }

  lemma JoinValue(text: Text, v: nat, ms: Members)
    requires ms.Member? && WordAt(text, v, ms.before) && WordAt(text, v + |ms.before|, Spell(ms.tree))
    requires WordAt(text, v + |ms.before| + |Spell(ms.tree)|, ms.after)
    requires WordAt(text, v + |ms.before| + |Spell(ms.tree)| + |ms.after|, MembersTail(ms))
    ensures WordAt(text, v, ValueText(ms))
    ensures |ValueText(ms)| == |ms.before| + |Spell(ms.tree)| + |ms.after| + |MembersTail(ms)|
  {
    Join(text, v, ms.before, Spell(ms.tree));
    Join(text, v, ms.before + Spell(ms.tree), ms.after);
    Join(text, v, ms.before + Spell(ms.tree) + ms.after, MembersTail(ms));
  }

  lemma JoinLabel(text: Text, p: nat, lead: Text, key: Text, mid: Text, value: Text)
    requires WordAt(text, p, lead) && WordAt(text, p + |lead|, key) && WordAt(text, p + |lead| + |key|, mid)
    requires var colon := p + |lead| + |key| + |mid|; WordAt(text, colon, [COLON]) && WordAt(text, colon + 1, value)
    ensures WordAt(text, p, lead + key + mid + ([COLON] + value))
  {
    Join(text, p, lead, key);
    Join(text, p, lead + key, mid);
    Join(text, p + |lead| + |key| + |mid|, [COLON], value);
    Join(text, p, lead + key + mid, [COLON] + value);
  }

  lemma {:induction false} MemberEndSound(strtod: Text -> Number, text: Text, b: nat, c: nat, depth: nat, done: seq<Prop>) returns (more: Members)
    requires b <= |text| && Skip(text, b) == c && MemberEnd(strtod, text, b, depth, done).Ok? && depth <= MAX_DEPTH
    ensures ValidMembers(more) && FitMembers(more, depth)
    ensures var tail := if more.NoMembers? then [CLOSE_OBJECT] else [COMMA] + SpellMembers(more);
      && WordAt(text, c, tail)
      && MemberEnd(strtod, text, b, depth, done) == Ok(Obj(DenoteMembers(strtod, more, done)), c + |tail|)
    decreases |text| - b, 0
  {
    hide WordAt, Skip, SpellMembers, DenoteMembers, ValidMembers, FitMembers, MembersAt;
    if Peek(text, c) == COMMA {
      more := MembersSound(strtod, text, c + 1, depth, done);
      GoesOn(strtod, text, b, c, depth, done, []);
      OneAt(text, c);
      Join(text, c, [COMMA], SpellMembers(more));
    } else {
      more := NoMembers;
      NoMore(strtod, depth, done);
      OneAt(text, c);
    }
  }

  lemma OneAt(text: Text, pos: nat)
    requires pos < |text|
    ensures WordAt(text, pos, [text[pos]])
  {
  }

  lemma NoMore(strtod: Text -> Number, depth: nat, done: seq<Prop>)
    requires depth <= MAX_DEPTH
    ensures ValidMembers(NoMembers) && FitMembers(NoMembers, depth) && DenoteMembers(strtod, NoMembers, done) == done
  {
  }

  // ---------------------------------------------------------------- whole texts

  lemma ParseSound(strtod: Text -> Number, text: Text) returns (lead: Text, t: Tree, trail: Text)
    requires Parse(strtod, text).Ok?
    ensures Document(text, lead, t, trail) && Fits(t, 0) && Parse(strtod, text).value == Denote(strtod, t)
  {
    lead, t := ValueSound(strtod, text, 0, 0);
    trail := SkipGap(text, |lead| + |Spell(t)|);
  }

  /** JSON.parse accepts a text exactly when it is a document nested at most 512 deep whose keys can be
      property keys, and then answers that document's value. */
  lemma ParseIsGrammar(strtod: Text -> Number, text: Text, v: Value)
    ensures Parse(strtod, text).Ok? && Parse(strtod, text).value == v <==>
      exists lead, t, trail :: Document(text, lead, t, trail) && PlainKeys(t) && Height(t) <= 512 && Denote(strtod, t) == v
  {
    if Parse(strtod, text).Ok? {
      var lead, t, trail := ParseSound(strtod, text);
    }
    forall lead, t, trail | Document(text, lead, t, trail) ensures Reads(Parse(strtod, text), Denote(strtod, t), |text|, Fits(t, 0)) {
      DocumentParses(strtod, text, lead, t, trail);
    }
  }
}

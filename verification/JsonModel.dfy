/** JSON values, and the grammar of JSON text as concrete syntax trees (RFC 8259 sections 2 to 7):
    every byte of a text, blanks and escapes included, is in the tree that spells it. */
module JsonModel {
  import opened CodecModel
  import opened KeyOrder

  type Text = seq<Unit>

  // ---------------------------------------------------------------- values

  /** A finite double by its shortest decimal, 0.digits times ten to the point; zero has no digits. */
  datatype Decimal = Decimal(neg: bool, digits: Text, point: int)
  datatype Number = NaN | Infinite(neg: bool) | Finite(value: Decimal)
  datatype Prop = Prop(key: Text, value: Value)
  /** `Undefined` stands for a hole and a closure too. Properties are in the order they were added. */
  datatype Value =
    | Undefined | Null | Bool(b: bool) | Num(n: Number) | Str(units: Text)
    | Arr(items: seq<Value>) | Obj(props: seq<Prop>)

  predicate Shortest(d: Decimal) {
    && AllDigits(d.digits)
    && (if d.digits == [] then d.point == 0 else d.digits[0] != 48 && d.digits[|d.digits| - 1] != 48)
  }

  function Keys(props: seq<Prop>): (ks: seq<Text>)
    ensures |ks| == |props|
  {
    seq(|props|, i requires 0 <= i < |props| => props[i].key)
  }

  predicate DistinctKeys(props: seq<Prop>) {
    forall i, j :: 0 <= i < j < |props| ==> props[i].key != props[j].key
  }

  /** `jsrt_set_prop` on a plain object: overwrite in place, or append. */
  function SetProp(props: seq<Prop>, key: Text, value: Value): seq<Prop> {
    if props == [] then [Prop(key, value)]
    else if props[0].key == key then [Prop(key, value)] + props[1..]
    else [props[0]] + SetProp(props[1..], key, value)
  }

  /** No key is added twice, and the last value written is the one found. */
  lemma {:induction false} SetPropKeeps(props: seq<Prop>, key: Text, value: Value)
    requires DistinctKeys(props)
    ensures DistinctKeys(SetProp(props, key, value)) && Prop(key, value) in SetProp(props, key, value)
    ensures forall p :: p in SetProp(props, key, value) ==> p == Prop(key, value) || (p in props && p.key != key)
  {
    if props != [] {
      var tail := SetProp(props[1..], key, value);
      if props[0].key != key {
        SetPropKeeps(props[1..], key, value);
        forall j | 0 <= j < |tail| ensures tail[j].key != props[0].key { assert tail[j] in tail; }
      }
    }
  }

  lemma {:induction false} SetNewProp(props: seq<Prop>, key: Text, value: Value)
    requires forall i :: 0 <= i < |props| ==> props[i].key != key
    ensures SetProp(props, key, value) == props + [Prop(key, value)]
  {
    if props != [] { SetNewProp(props[1..], key, value); }
  }

  // ---------------------------------------------------------------- characters

  predicate IsBlank(c: nat) { c == 9 || c == 10 || c == 13 || c == 32 }

  predicate Blank(t: Text) { forall i :: 0 <= i < |t| ==> IsBlank(t[i]) }

  predicate IsHex(c: nat) { 48 <= c <= 57 || 97 <= c <= 102 || 65 <= c <= 70 }

  function HexVal(c: nat): (v: nat)
    requires IsHex(c)
    ensures v < 16
  {
    if c <= 57 then c - 48 else if c >= 97 then c - 87 else c - 55
  }

  function HexChar(v: nat): (c: Unit)
    requires v < 16
    ensures IsHex(c) && HexVal(c) == v
  {
    if v < 10 then 48 + v else 87 + v
  }

  const QUOTE: Unit := 34
  const BACKSLASH: Unit := 92

  /** What a short escape stands for. */
  predicate IsShort(c: nat) {
    c == 34 || c == 92 || c == 47 || c == 98 || c == 102 || c == 110 || c == 114 || c == 116
  }

  function ShortUnit(c: nat): Unit
    requires IsShort(c)
  {
    if c == 98 then 8 else if c == 102 then 12 else if c == 110 then 10
    else if c == 114 then 13 else if c == 116 then 9 else c
  }

  // ---------------------------------------------------------------- strings

  datatype Glyph = Plain(u: Unit) | Short(c: Unit) | Hex(a: Unit, b: Unit, c: Unit, d: Unit)

  predicate ValidGlyph(g: Glyph) {
    match g
    case Plain(u) => u >= 0x20 && u != QUOTE && u != BACKSLASH
    case Short(c) => IsShort(c)
    case Hex(a, b, c, d) => IsHex(a) && IsHex(b) && IsHex(c) && IsHex(d)
  }

  predicate ValidGlyphs(gs: seq<Glyph>) { forall i :: 0 <= i < |gs| ==> ValidGlyph(gs[i]) }

  function SpellGlyph(g: Glyph): Text {
    match g
    case Plain(u) => [u]
    case Short(c) => [BACKSLASH, c]
    case Hex(a, b, c, d) => [BACKSLASH, 117, a, b, c, d]
  }

  function GlyphUnit(g: Glyph): Unit
    requires ValidGlyph(g)
  {
    match g
    case Plain(u) => u
    case Short(c) => ShortUnit(c)
    case Hex(a, b, c, d) => ((HexVal(a) * 16 + HexVal(b)) * 16 + HexVal(c)) * 16 + HexVal(d)
  }

  /** The glyphs and the closing quote. */
  function SpellGlyphs(gs: seq<Glyph>): Text {
    if gs == [] then [QUOTE] else SpellGlyph(gs[0]) + SpellGlyphs(gs[1..])
  }

  function GlyphUnits(gs: seq<Glyph>): (r: Text)
    requires ValidGlyphs(gs)
    ensures |r| == |gs|
  {
    seq(|gs|, i requires 0 <= i < |gs| => GlyphUnit(gs[i]))
  }

  // ---------------------------------------------------------------- numbers

  datatype Exponent = NoExponent | Exponent(marker: Unit, sign: Text, digits: Text)
  datatype Numeral = Numeral(neg: bool, whole: Text, frac: Text, exp: Exponent)

  const DOT: Unit := 46
  const MINUS: Unit := 45
  const PLUS: Unit := 43

  predicate IsMarker(c: nat) { c == 101 || c == 69 }

  predicate ValidExponent(e: Exponent) {
    e.Exponent? ==>
      IsMarker(e.marker) && (e.sign == [] || e.sign == [PLUS] || e.sign == [MINUS]) && e.digits != [] && AllDigits(e.digits)
  }

  predicate ValidNumeral(n: Numeral) {
    Canonical(n.whole) && AllDigits(n.frac) && ValidExponent(n.exp)
  }

  function SpellSign(neg: bool): Text { if neg then [MINUS] else [] }

  function SpellFrac(frac: Text): Text { if frac == [] then [] else [DOT] + frac }

  function SpellExponent(e: Exponent): Text {
    if e.NoExponent? then [] else [e.marker] + e.sign + e.digits
  }

  function SpellNumeral(n: Numeral): Text {
    SpellSign(n.neg) + n.whole + SpellFrac(n.frac) + SpellExponent(n.exp)
  }

  /** The decimal with outer zeros dropped. */
  function Normal(neg: bool, ds: Text, point: int): (d: Decimal)
    requires AllDigits(ds)
    ensures Shortest(d) && d.neg == neg
    decreases |ds|
  {
    if ds == [] then Decimal(neg, [], 0)
    else if ds[0] == 48 then Normal(neg, ds[1..], point - 1)
    else if ds[|ds| - 1] == 48 then Normal(neg, ds[..|ds| - 1], point)
    else Decimal(neg, ds, point)
  }

  function ExponentValue(e: Exponent): int
    requires ValidExponent(e)
  {
    var n: int := if e.NoExponent? then 0 else NatOf(e.digits);
    if e.Exponent? && e.sign == [MINUS] then -n else n
  }

  /** The exact decimal a numeral denotes. */
  function Exact(n: Numeral): Decimal
    requires ValidNumeral(n)
  {
    Normal(n.neg, n.whole + n.frac, |n.whole| + ExponentValue(n.exp))
  }

  // ---------------------------------------------------------------- trees

  datatype Tree =
    | TrueWord | FalseWord | NullWord
    | Numeric(n: Numeral)
    | Quoted(gs: seq<Glyph>)
    | EmptyArray(gap: Text)
    | Array(items: Items)
    | EmptyObject(gap: Text)
    | Object(members: Members)
  datatype Items = NoItems | Item(before: Text, tree: Tree, after: Text, more: Items)
  datatype Members =
    | NoMembers
    | Member(lead: Text, key: seq<Glyph>, mid: Text, before: Text, tree: Tree, after: Text, more: Members)

  const TRUE: Text := [116, 114, 117, 101]
  const FALSE: Text := [102, 97, 108, 115, 101]
  const NULL: Text := [110, 117, 108, 108]
  const COMMA: Unit := 44
  const COLON: Unit := 58
  const OPEN_ARRAY: Unit := 91
  const CLOSE_ARRAY: Unit := 93
  const OPEN_OBJECT: Unit := 123
  const CLOSE_OBJECT: Unit := 125

  predicate ValidTree(t: Tree) {
    match t
    case Numeric(n) => ValidNumeral(n)
    case Quoted(gs) => ValidGlyphs(gs)
    case EmptyArray(gap) => Blank(gap)
    case EmptyObject(gap) => Blank(gap)
    case Array(items) => items.Item? && ValidItems(items)
    case Object(members) => members.Member? && ValidMembers(members)
    case _ => true
  }

  predicate ValidItems(items: Items) {
    items.Item? ==> Blank(items.before) && ValidTree(items.tree) && Blank(items.after) && ValidItems(items.more)
  }

  predicate ValidMembers(ms: Members) {
    ms.Member? ==>
      && Blank(ms.lead) && ValidGlyphs(ms.key) && Blank(ms.mid) && Blank(ms.before)
      && ValidTree(ms.tree) && Blank(ms.after) && ValidMembers(ms.more)
  }

  /** The text of a tree. */
  function Spell(t: Tree): Text {
    match t
    case TrueWord => TRUE
    case FalseWord => FALSE
    case NullWord => NULL
    case Numeric(n) => SpellNumeral(n)
    case Quoted(gs) => [QUOTE] + SpellGlyphs(gs)
    case EmptyArray(gap) => [OPEN_ARRAY] + gap + [CLOSE_ARRAY]
    case Array(items) => [OPEN_ARRAY] + SpellItems(items)
    case EmptyObject(gap) => [OPEN_OBJECT] + gap + [CLOSE_OBJECT]
    case Object(members) => [OPEN_OBJECT] + SpellMembers(members)
  }

  function SpellItems(items: Items): Text {
    if items.NoItems? then [] else
    items.before + Spell(items.tree) + items.after +
    if items.more.NoItems? then [CLOSE_ARRAY] else [COMMA] + SpellItems(items.more)
  }

  function SpellMembers(ms: Members): Text {
    if ms.NoMembers? then [] else
    ms.lead + [QUOTE] + SpellGlyphs(ms.key) + ms.mid + [COLON] + ms.before + Spell(ms.tree) + ms.after +
    if ms.more.NoMembers? then [CLOSE_OBJECT] else [COMMA] + SpellMembers(ms.more)
  }

  /** The value of a tree, numbers as strtod answers them. */
  function Denote(strtod: Text -> Number, t: Tree): Value
    requires ValidTree(t)
  {
    match t
    case TrueWord => Bool(true)
    case FalseWord => Bool(false)
    case NullWord => Null
    case Numeric(n) => Num(strtod(SpellNumeral(n)))
    case Quoted(gs) => Str(GlyphUnits(gs))
    case EmptyArray(_) => Arr([])
    case Array(items) => Arr(DenoteItems(strtod, items))
    case EmptyObject(_) => Obj([])
    case Object(members) => Obj(DenoteMembers(strtod, members, []))
  }

  function DenoteItems(strtod: Text -> Number, items: Items): seq<Value>
    requires ValidItems(items)
    decreases items
  {
    if items.NoItems? then [] else [Denote(strtod, items.tree)] + DenoteItems(strtod, items.more)
  }

  /** Members in order into `props`; a repeated key keeps its place and takes the last value. */
  function DenoteMembers(strtod: Text -> Number, ms: Members, props: seq<Prop>): seq<Prop>
    requires ValidMembers(ms)
    decreases ms
  {
    if ms.NoMembers? then props
    else DenoteMembers(strtod, ms.more, SetProp(props, GlyphUnits(ms.key), Denote(strtod, ms.tree)))
  }

  /** How many values lie on the longest path down a tree. */
  function Height(t: Tree): (h: nat)
    ensures h >= 1
  {
    match t
    case Array(items) => 1 + ItemsHeight(items)
    case Object(members) => 1 + MembersHeight(members)
    case _ => 1
  }

  function Max(a: nat, b: nat): nat { if a < b then b else a }

  function ItemsHeight(items: Items): nat {
    if items.NoItems? then 0 else Max(Height(items.tree), ItemsHeight(items.more))
  }

  function MembersHeight(ms: Members): nat {
    if ms.NoMembers? then 0 else Max(Height(ms.tree), MembersHeight(ms.more))
  }

  /** No key holds a U+0000, which a property key cannot. */
  predicate PlainKeys(t: Tree)
    requires ValidTree(t)
  {
    match t
    case Array(items) => PlainItems(items)
    case Object(members) => PlainMembers(members)
    case _ => true
  }

  predicate PlainItems(items: Items)
    requires ValidItems(items)
  {
    items.Item? ==> PlainKeys(items.tree) && PlainItems(items.more)
  }

  predicate PlainMembers(ms: Members)
    requires ValidMembers(ms)
  {
    ms.Member? ==> 0 !in GlyphUnits(ms.key) && PlainKeys(ms.tree) && PlainMembers(ms.more)
  }

  // ---------------------------------------------------------------- the tables of RFC 8259

  lemma EscapesAre(c: Unit, u: Unit)
    ensures IsShort(c) && ShortUnit(c) == u <==>
      (c, u) in {(34, 34), (92, 92), (47, 47), (98, 8), (102, 12), (110, 10), (114, 13), (116, 9)}
  {
  }

  lemma HexDigitsAre(c: nat, v: nat)
    requires v < 16
    ensures IsHex(c) && HexVal(c) == v <==> if v < 10 then c == 48 + v else c == 65 + v - 10 || c == 97 + v - 10
  {
  }
}

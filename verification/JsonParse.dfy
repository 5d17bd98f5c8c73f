/** What JSON.parse does with a text, as functions of the text and a position (jsrt_json.c), and the
    proof that it reads exactly the grammar: every tree's text to the tree's value, nothing else. */
module JsonParse {
  import opened CodecModel
  import opened KeyOrder
  import opened JsonModel

  const MAX_DEPTH: nat := 512

  datatype Fault =
    | Unquoted | Unterminated | Control | BadEscape | BadHex | NulKey | BadNumber
    | NoColon | NoBrace | NoBracket | TooDeep | EndOfInput | BadToken | Trailing

  /** A panic names its fault and the position; success leaves the position after what was read. */
  datatype Result<T> = Ok(value: T, pos: nat) | Fail(what: Fault, at: nat)

  // ---------------------------------------------------------------- scanning

  function Peek(text: Text, pos: nat): Unit { if pos < |text| then text[pos] else 0 }

  function Skip(text: Text, pos: nat): (r: nat)
    requires pos <= |text|
    ensures pos <= r <= |text|
    decreases |text| - pos
  {
    if pos < |text| && IsBlank(text[pos]) then Skip(text, pos + 1) else pos
  }

  /** The end of the digits that start at `pos`. */
  function Run(text: Text, pos: nat): (r: nat)
    requires pos <= |text|
    ensures pos <= r <= |text|
    decreases |text| - pos
  {
    if IsDigit(Peek(text, pos)) then Run(text, pos + 1) else pos
  }

  /** Four hexadecimal digits, `i` of them already in `out`. */
  function Hex4(text: Text, pos: nat, i: nat, out: nat): (r: Result<nat>)
    requires i <= 4 && pos <= |text|
    ensures r.Ok? ==> r.pos == pos + 4 - i && r.pos <= |text|
    decreases 4 - i
  {
    if i == 4 then Ok(out, pos)
    else if !IsHex(Peek(text, pos)) then Fail(BadHex, pos)
    else Hex4(text, pos + 1, i + 1, (out * 16 + HexVal(Peek(text, pos))) % 0x10000)
  }

  function Prepend(u: Unit, r: Result<Text>): Result<Text> {
    if r.Ok? then Ok([u] + r.value, r.pos) else r
  }

  /** The units of a string whose opening quote is behind `pos`. */
  function StringBody(text: Text, pos: nat): (r: Result<Text>)
    requires pos <= |text|
    ensures r.Ok? ==> pos < r.pos <= |text|
    decreases |text| - pos
  {
    if pos >= |text| then Fail(Unterminated, pos)
    else if text[pos] == QUOTE then Ok([], pos + 1)
    else if text[pos] < 0x20 then Fail(Control, pos)
    else if text[pos] != BACKSLASH then Prepend(text[pos], StringBody(text, pos + 1))
    else
      var c := Peek(text, pos + 1);
      if IsShort(c) then Prepend(ShortUnit(c), StringBody(text, pos + 2))
      else if c == 117 then
        var h := Hex4(text, pos + 2, 0, 0);
        if h.Fail? then Fail(h.what, h.at) else Prepend(h.value % 0x10000, StringBody(text, h.pos))
      else Fail(BadEscape, pos + 1)
  }

  function StringAt(text: Text, pos: nat): (r: Result<Text>)
    requires pos <= |text|
    ensures r.Ok? ==> pos < r.pos <= |text|
  {
    if Peek(text, pos) != QUOTE then Fail(Unquoted, pos) else StringBody(text, pos + 1)
  }

  function KeyAt(text: Text, pos: nat): (r: Result<Text>)
    requires pos <= |text|
    ensures r.Ok? ==> pos < r.pos <= |text|
  {
    var s := StringAt(text, pos);
    if s.Ok? && 0 in s.value then Fail(NulKey, s.pos) else s
  }

  /** `require_digits`. */
  function Digits1(text: Text, pos: nat): (r: Result<()>)
    requires pos <= |text|
    ensures r.Ok? ==> pos < r.pos <= |text|
  {
    if !IsDigit(Peek(text, pos)) then Fail(BadNumber, pos) else Ok((), Run(text, pos))
  }

  function WholeEnd(text: Text, pos: nat): (r: Result<()>)
    requires pos <= |text|
    ensures r.Ok? ==> pos < r.pos <= |text|
  {
    if Peek(text, pos) == 48 then Ok((), pos + 1)
    else if 49 <= Peek(text, pos) <= 57 then Ok((), Run(text, pos))
    else Fail(BadNumber, pos)
  }

  function FracEnd(text: Text, pos: nat): (r: Result<()>)
    requires pos <= |text|
    ensures r.Ok? ==> pos <= r.pos <= |text|
  {
    if Peek(text, pos) == DOT then Digits1(text, pos + 1) else Ok((), pos)
  }

  function ExponentEnd(text: Text, pos: nat): (r: Result<()>)
    requires pos <= |text|
    ensures r.Ok? ==> pos <= r.pos <= |text|
  {
    if IsMarker(Peek(text, pos)) then
      var c := Peek(text, pos + 1);
      Digits1(text, if c == PLUS || c == MINUS then pos + 2 else pos + 1)
    else Ok((), pos)
  }

  function NumberEnd(text: Text, pos: nat): (r: Result<()>)
    requires pos <= |text|
    ensures r.Ok? ==> pos < r.pos <= |text|
  {
    var a := WholeEnd(text, if Peek(text, pos) == MINUS then pos + 1 else pos);
    if a.Fail? then a
    else
      var b := FracEnd(text, a.pos);
      if b.Fail? then b else ExponentEnd(text, b.pos)
  }

  function NumberAt(strtod: Text -> Number, text: Text, pos: nat): (r: Result<Value>)
    requires pos <= |text|
    ensures r.Ok? ==> pos < r.pos <= |text|
  {
    var e := NumberEnd(text, pos);
    if e.Fail? then Fail(e.what, e.at) else Ok(Num(strtod(text[pos..e.pos])), e.pos)
  }

  predicate WordAt(text: Text, pos: nat, word: Text) {
    pos + |word| <= |text| && forall i {:trigger word[i]} :: 0 <= i < |word| ==> text[pos + i] == word[i]
  }

  // ---------------------------------------------------------------- values

  function ScalarAt(strtod: Text -> Number, text: Text, pos: nat): (r: Result<Value>)
    requires pos <= |text|
    ensures r.Ok? ==> pos < r.pos <= |text|
  {
    var c := Peek(text, pos);
    if c == QUOTE then
      var s := StringAt(text, pos);
      if s.Fail? then Fail(s.what, s.at) else Ok(Str(s.value), s.pos)
    else if c == MINUS || IsDigit(c) then NumberAt(strtod, text, pos)
    else if WordAt(text, pos, TRUE) then Ok(Bool(true), pos + 4)
    else if WordAt(text, pos, FALSE) then Ok(Bool(false), pos + 5)
    else if WordAt(text, pos, NULL) then Ok(Null, pos + 4)
    else Fail(if pos >= |text| then EndOfInput else BadToken, pos)
  }

  function ValueAt(strtod: Text -> Number, text: Text, start: nat, depth: nat): (r: Result<Value>)
    requires start <= |text|
    ensures r.Ok? ==> start < r.pos <= |text|
    decreases |text| - start, 2
  {
    if depth >= MAX_DEPTH then Fail(TooDeep, start)
    else
      var pos := Skip(text, start);
      if Peek(text, pos) == OPEN_OBJECT then ObjectAt(strtod, text, pos, depth + 1)
      else if Peek(text, pos) == OPEN_ARRAY then ArrayAt(strtod, text, pos, depth + 1)
      else ScalarAt(strtod, text, pos)
  }

  function ArrayAt(strtod: Text -> Number, text: Text, pos: nat, depth: nat): (r: Result<Value>)
    requires pos < |text|
    ensures r.Ok? ==> pos < r.pos <= |text|
    decreases |text| - pos, 1
  {
    var p := Skip(text, pos + 1);
    if Peek(text, p) == CLOSE_ARRAY then Ok(Arr([]), p + 1) else ItemsAt(strtod, text, p, depth, [])
  }

  /** The rest of an array, `done` being its elements so far. */
  function ItemsAt(strtod: Text -> Number, text: Text, pos: nat, depth: nat, done: seq<Value>): (r: Result<Value>)
    requires pos <= |text|
    ensures r.Ok? ==> pos < r.pos <= |text|
    decreases |text| - pos, 3
  {
    var v := ValueAt(strtod, text, pos, depth);
    if v.Fail? then v else ItemEnd(strtod, text, v.pos, depth, done + [v.value])
  }

  function ItemEnd(strtod: Text -> Number, text: Text, pos: nat, depth: nat, done: seq<Value>): (r: Result<Value>)
    requires pos <= |text|
    ensures r.Ok? ==> pos < r.pos <= |text|
    decreases |text| - pos, 0
  {
    var p := Skip(text, pos);
    if Peek(text, p) == COMMA then ItemsAt(strtod, text, p + 1, depth, done)
    else if Peek(text, p) == CLOSE_ARRAY then Ok(Arr(done), p + 1)
    else Fail(NoBracket, p)
  }

  function ObjectAt(strtod: Text -> Number, text: Text, pos: nat, depth: nat): (r: Result<Value>)
    requires pos < |text|
    ensures r.Ok? ==> pos < r.pos <= |text|
    decreases |text| - pos, 1
  {
    var p := Skip(text, pos + 1);
    if Peek(text, p) == CLOSE_OBJECT then Ok(Obj([]), p + 1) else MembersAt(strtod, text, p, depth, [])
  }

  /** The key at `pos` and the colon after it. */
  function LabelAt(text: Text, pos: nat): (r: Result<Text>)
    requires pos <= |text|
    ensures r.Ok? ==> pos < r.pos <= |text|
  {
    var k := KeyAt(text, Skip(text, pos));
    if k.Fail? then k
    else
      var colon := Skip(text, k.pos);
      if Peek(text, colon) != COLON then Fail(NoColon, colon) else Ok(k.value, colon + 1)
  }

  /** The rest of an object, `done` being its properties so far. */
  function MembersAt(strtod: Text -> Number, text: Text, pos: nat, depth: nat, done: seq<Prop>): (r: Result<Value>)
    requires pos <= |text|
    ensures r.Ok? ==> pos < r.pos <= |text|
    decreases |text| - pos, 3
  {
    var k := LabelAt(text, pos);
    if k.Fail? then Fail(k.what, k.at)
    else
      var v := ValueAt(strtod, text, k.pos, depth);
      if v.Fail? then v else MemberEnd(strtod, text, v.pos, depth, SetProp(done, k.value, v.value))
  }

  function MemberEnd(strtod: Text -> Number, text: Text, pos: nat, depth: nat, done: seq<Prop>): (r: Result<Value>)
    requires pos <= |text|
    ensures r.Ok? ==> pos < r.pos <= |text|
    decreases |text| - pos, 0
  {
    var p := Skip(text, pos);
    if Peek(text, p) == COMMA then MembersAt(strtod, text, p + 1, depth, done)
    else if Peek(text, p) == CLOSE_OBJECT then Ok(Obj(done), p + 1)
    else Fail(NoBrace, p)
  }

  /** `jsrt_json_parse`. */
  function Parse(strtod: Text -> Number, text: Text): Result<Value> {
    var v := ValueAt(strtod, text, 0, 0);
    if v.Fail? then v
    else
      var end := Skip(text, v.pos);
      if end != |text| then Fail(Trailing, end) else Ok(v.value, end)
  }
}

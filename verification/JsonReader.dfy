/** The recursive-descent parser as it runs: a cursor that every method advances (jsrt_json.c). A panic is
    a `Fail`, after which the cursor is not used. */
module JsonReader {
  import opened CodecModel
  import opened KeyOrder
  import opened JsonModel
  import opened JsonParse

  function PrependAll(us: Text, r: Result<Text>): Result<Text> {
    if r.Ok? then Ok(us + r.value, r.pos) else r
  }

  lemma PrependNext(us: Text, u: Unit, r: Result<Text>)
    ensures PrependAll(us, Prepend(u, r)) == PrependAll(us + [u], r)
  {
    if r.Ok? { assert us + ([u] + r.value) == us + [u] + r.value; }
  }

  lemma PrependNone(r: Result<Text>)
    ensures PrependAll([], r) == r
  {
    if r.Ok? { assert [] + r.value == r.value; }
  }

  class Parser {
    const text: Text
    const strtod: Text -> Number
    var pos: nat

    constructor (text: Text, strtod: Text -> Number)
      ensures this.text == text && this.strtod == strtod && pos == 0
    {
      this.text := text;
      this.strtod := strtod;
      pos := 0;
    }

    method SkipWs()
      requires pos <= |text|
      modifies `pos
      ensures pos == Skip(text, old(pos)) && old(pos) <= pos <= |text|
    {
      while pos < |text|
        invariant old(pos) <= pos <= |text| && Skip(text, pos) == Skip(text, old(pos))
      {
        var c := text[pos];
        if c != 9 && c != 10 && c != 13 && c != 32 {
          return;
        }
        pos := pos + 1;
      }
    }

    /** Consumes one required unit, or tells that it is missing. */
    method Expect(unit: Unit) returns (found: bool)
      requires pos <= |text| && unit != 0
      modifies `pos
      ensures found <==> Peek(text, old(pos)) == unit
      ensures pos == (if found then old(pos) + 1 else old(pos)) && pos <= |text|
    {
      if Peek(text, pos) != unit {
        return false;
      }
      pos := pos + 1;
      found := true;
    }

    /** Four hexadecimal digits into one unit, which they fit. */
    method ReadHex4() returns (r: Result<nat>)
      requires pos <= |text|
      modifies `pos
      ensures r == Hex4(text, old(pos), 0, 0)
      ensures r.Ok? ==> pos == r.pos && r.value < 0x10000
    {
      var out: nat := 0;
      for i := 0 to 4
        invariant pos == old(pos) + i <= |text| && out < 0x10000
        invariant Hex4(text, pos, i, out) == Hex4(text, old(pos), 0, 0)
      {
        var c := Peek(text, pos);
        var digit;
        if 48 <= c <= 57 {
          digit := c - 48;
        } else if 97 <= c <= 102 {
          digit := c - 97 + 10;
        } else if 65 <= c <= 70 {
          digit := c - 65 + 10;
        } else {
          return Fail(BadHex, pos);
        }
        assert digit == HexVal(c);
        out := (out * 16 + digit) % 0x10000;
        pos := pos + 1;
      }
      r := Ok(out, pos);
    }

    /** What a backslash stands for, the cursor just after it. */
    method ReadEscape() returns (r: Result<nat>)
      requires 0 < pos <= |text| && text[pos - 1] == BACKSLASH
      modifies `pos
      ensures r.Ok? ==> pos == r.pos && old(pos) < pos <= |text| && r.value < 0x10000
      ensures r.Ok? ==> StringBody(text, old(pos) - 1) == Prepend(r.value, StringBody(text, pos))
      ensures r.Fail? ==> StringBody(text, old(pos) - 1) == Fail(r.what, r.at)
    {
      var esc := Peek(text, pos);
      pos := pos + 1;
      if esc == QUOTE || esc == BACKSLASH || esc == 47 {
        r := Ok(esc, pos);
      } else if esc == 98 {
        r := Ok(8, pos);
      } else if esc == 102 {
        r := Ok(12, pos);
      } else if esc == 110 {
        r := Ok(10, pos);
      } else if esc == 114 {
        r := Ok(13, pos);
      } else if esc == 116 {
        r := Ok(9, pos);
      } else if esc == 117 {
        r := ReadHex4();
      } else {
        pos := pos - 1;
        r := Fail(BadEscape, pos);
      }
    }

    /** A quoted string, decoded into units. */
    method ParseStringUnits() returns (r: Result<Text>)
      requires pos <= |text|
      modifies `pos
      ensures r == StringAt(text, old(pos))
      ensures r.Ok? ==> pos == r.pos
    {
      var quoted := Expect(QUOTE);
      if !quoted {
        return Fail(Unquoted, pos);
      }
      var out: Text := [];
      ghost var whole := StringBody(text, pos);
      PrependNone(whole);
      while true
        invariant pos <= |text| && whole == PrependAll(out, StringBody(text, pos))
        decreases |text| - pos
      {
        if pos >= |text| {
          return Fail(Unterminated, pos);
        }
        var c := text[pos];
        if c == QUOTE {
          pos := pos + 1;
          assert out + [] == out;
          return Ok(out, pos);
        }
        if c < 0x20 {
          return Fail(Control, pos);
        }
        pos := pos + 1;
        if c != BACKSLASH {
          PrependNext(out, c, StringBody(text, pos));
          out := out + [c];
        } else {
          var esc := ReadEscape();
          if esc.Fail? {
            return Fail(esc.what, esc.at);
          }
          PrependNext(out, esc.value, StringBody(text, pos));
          out := out + [esc.value];
        }
      }
    }

    method ParseKey() returns (r: Result<Text>)
      requires pos <= |text|
      modifies `pos
      ensures r == KeyAt(text, old(pos))
      ensures r.Ok? ==> pos == r.pos
    {
      r := ParseStringUnits();
      if r.Ok? && 0 in r.value {
        r := Fail(NulKey, pos);
      }
    }

    method SkipDigits()
      requires pos <= |text|
      modifies `pos
      ensures pos == Run(text, old(pos)) && pos <= |text|
    {
      while IsDigit(Peek(text, pos))
        invariant pos <= |text| && Run(text, pos) == Run(text, old(pos))
        decreases |text| - pos
      {
        pos := pos + 1;
      }
    }

    method RequireDigits() returns (r: Result<()>)
      requires pos <= |text|
      modifies `pos
      ensures r == Digits1(text, old(pos))
      ensures r.Ok? ==> pos == r.pos
    {
      if !IsDigit(Peek(text, pos)) {
        return Fail(BadNumber, pos);
      }
      SkipDigits();
      r := Ok((), pos);
    }

    method ScanNumber() returns (r: Result<()>)
      requires pos <= |text|
      modifies `pos
      ensures r == NumberEnd(text, old(pos))
      ensures r.Ok? ==> pos == r.pos
    {
      hide Run, Digits1;
      if Peek(text, pos) == MINUS {
        pos := pos + 1;
      }
      if Peek(text, pos) == 48 {
        pos := pos + 1;
      } else if 49 <= Peek(text, pos) <= 57 {
        SkipDigits();
      } else {
        return Fail(BadNumber, pos);
      }
      if Peek(text, pos) == DOT {
        pos := pos + 1;
        r := RequireDigits();
        if r.Fail? {
          return;
        }
      }
      if Peek(text, pos) == 101 || Peek(text, pos) == 69 {
        pos := pos + 1;
        if Peek(text, pos) == PLUS || Peek(text, pos) == MINUS {
          pos := pos + 1;
        }
        r := RequireDigits();
        return;
      }
      r := Ok((), pos);
    }

    method ParseNumber() returns (r: Result<Value>)
      requires pos <= |text|
      modifies `pos
      ensures r == NumberAt(strtod, text, old(pos))
      ensures r.Ok? ==> pos == r.pos
    {
      var start := pos;
      var scan := ScanNumber();
      if scan.Fail? {
        return Fail(scan.what, scan.at);
      }
      var n := pos - start;
      var digits: array<Unit> := new Unit[n](_ => 0);
      for i := 0 to n
        invariant pos == start + n && digits[..i] == text[start..start + i]
      {
        digits[i] := text[start + i];
      }
      assert digits[..] == digits[..n] == text[start..pos];
      r := Ok(Num(strtod(digits[..])), pos);
    }

    method MatchWord(word: Text) returns (matched: bool)
      requires pos <= |text|
      modifies `pos
      ensures matched <==> WordAt(text, old(pos), word)
      ensures pos == if matched then old(pos) + |word| else old(pos)
    {
      var at := pos;
      var c := 0;
      while c < |word|
        invariant c <= |word| && at == pos + c && at <= |text| && pos == old(pos)
        invariant forall i :: 0 <= i < c ==> text[pos + i] == word[i]
      {
        if at >= |text| || text[at] != word[c] {
          return false;
        }
        c, at := c + 1, at + 1;
      }
      pos := at;
      matched := true;
    }

    method ParseArray(depth: nat) returns (r: Result<Value>)
      requires pos < |text|
      modifies `pos
      ensures r == ArrayAt(strtod, text, old(pos), depth)
      ensures r.Ok? ==> pos == r.pos
      decreases |text| - pos, 1
    {
      hide Skip, ValueAt;
      pos := pos + 1;
      var items: seq<Value> := [];
      SkipWs();
      if Peek(text, pos) == CLOSE_ARRAY {
        pos := pos + 1;
        return Ok(Arr(items), pos);
      }
      ghost var whole := ItemsAt(strtod, text, pos, depth, []);
      while true
        invariant old(pos) < pos <= |text| && whole == ItemsAt(strtod, text, pos, depth, items)
        decreases |text| - pos
      {
        var v := ParseValue(depth);
        if v.Fail? {
          return v;
        }
        items := items + [v.value];
        SkipWs();
        if Peek(text, pos) == COMMA {
          pos := pos + 1;
        } else {
          var closed := Expect(CLOSE_ARRAY);
          return if closed then Ok(Arr(items), pos) else Fail(NoBracket, pos);
        }
      }
    }

    method ParseObject(depth: nat) returns (r: Result<Value>)
      requires pos < |text|
      modifies `pos
      ensures r == ObjectAt(strtod, text, old(pos), depth)
      ensures r.Ok? ==> pos == r.pos
      decreases |text| - pos, 1
    {
      hide Skip, ValueAt, LabelAt, SetProp;
      pos := pos + 1;
      var props: seq<Prop> := [];
      SkipWs();
      if Peek(text, pos) == CLOSE_OBJECT {
        pos := pos + 1;
        return Ok(Obj(props), pos);
      }
      ghost var whole := MembersAt(strtod, text, pos, depth, []);
      while true
        invariant old(pos) < pos <= |text| && whole == MembersAt(strtod, text, pos, depth, props)
        decreases |text| - pos
      {
        var key := ParseLabel();
        if key.Fail? {
          return Fail(key.what, key.at);
        }
        var v := ParseValue(depth);
        if v.Fail? {
          return v;
        }
        props := SetProp(props, key.value, v.value);
        SkipWs();
        if Peek(text, pos) == COMMA {
          pos := pos + 1;
        } else {
          var closed := Expect(CLOSE_OBJECT);
          return if closed then Ok(Obj(props), pos) else Fail(NoBrace, pos);
        }
      }
    }

    /** A key and its colon, the head of `parse_object`'s loop. */
    method ParseLabel() returns (r: Result<Text>)
      requires pos <= |text|
      modifies `pos
      ensures r == LabelAt(text, old(pos))
      ensures r.Ok? ==> pos == r.pos
    {
      SkipWs();
      var key := ParseKey();
      if key.Fail? {
        return key;
      }
      SkipWs();
      var colon := Expect(COLON);
      r := if colon then Ok(key.value, pos) else Fail(NoColon, pos);
    }

    method ParseScalar() returns (r: Result<Value>)
      requires pos <= |text|
      modifies `pos
      ensures r == ScalarAt(strtod, text, old(pos))
      ensures r.Ok? ==> pos == r.pos
    {
      var c := Peek(text, pos);
      if c == QUOTE {
        var s := ParseStringUnits();
        return if s.Ok? then Ok(Str(s.value), pos) else Fail(s.what, s.at);
      }
      if c == MINUS || (48 <= c <= 57) {
        r := ParseNumber();
        return;
      }
      var matched := MatchWord(TRUE);
      if matched {
        return Ok(Bool(true), pos);
      }
      matched := MatchWord(FALSE);
      if matched {
        return Ok(Bool(false), pos);
      }
      matched := MatchWord(NULL);
      if matched {
        return Ok(Null, pos);
      }
      r := Fail(if pos >= |text| then EndOfInput else BadToken, pos);
    }

    method ParseValue(depth: nat) returns (r: Result<Value>)
      requires pos <= |text|
      modifies `pos
      ensures r == ValueAt(strtod, text, old(pos), depth)
      ensures r.Ok? ==> pos == r.pos
      decreases |text| - pos, 2
    {
      if depth >= MAX_DEPTH {
        return Fail(TooDeep, pos);
      }
      SkipWs();
      var c := Peek(text, pos);
      if c == OPEN_OBJECT {
        r := ParseObject(depth + 1);
      } else if c == OPEN_ARRAY {
        r := ParseArray(depth + 1);
      } else {
        r := ParseScalar();
      }
    }
  }

  /** `jsrt_json_parse`: a value and nothing after it but blanks. */
  method ParseText(text: Text, strtod: Text -> Number) returns (r: Result<Value>)
    ensures r == Parse(strtod, text)
  {
    var p := new Parser(text, strtod);
    r := p.ParseValue(0);
    if r.Fail? {
      return;
    }
    p.SkipWs();
    r := if p.pos != |text| then Fail(Trailing, p.pos) else Ok(r.value, p.pos);
  }
}

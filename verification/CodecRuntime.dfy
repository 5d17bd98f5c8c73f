/** The string conversions as the runtime runs them: cursors over input, buffers filled in place. */
module CodecRuntime {
  import opened CodecModel

  // ---------------------------------------------------------------- encoders

  /** The four arms shared by `shape_utf8_put` and `append_utf8`, writing at `p`. */
  method Utf8Put(buf: array<Byte>, p: nat, cp: Point) returns (p': nat)
    requires p + |Utf8(cp)| <= buf.Length
    modifies buf
    ensures p' == p + |Utf8(cp)| && buf[..p'] == old(buf[..p]) + Utf8(cp)
  {
    if cp < 0x80 {
      buf[p] := cp;
      p' := p + 1;
    } else if cp < 0x800 {
      buf[p] := 0xC0 + cp / 0x40;
      buf[p + 1] := 0x80 + cp % 0x40;
      p' := p + 2;
    } else if cp < 0x10000 {
      buf[p] := 0xE0 + cp / 0x1000;
      buf[p + 1] := 0x80 + cp / 0x40 % 0x40;
      buf[p + 2] := 0x80 + cp % 0x40;
      p' := p + 3;
    } else {
      buf[p] := 0xF0 + cp / 0x40000;
      buf[p + 1] := 0x80 + cp / 0x1000 % 0x40;
      buf[p + 2] := 0x80 + cp / 0x40 % 0x40;
      buf[p + 3] := 0x80 + cp % 0x40;
      p' := p + 4;
    }
  }

  lemma PointSize(units: seq<Unit>, i: nat)
    requires i < |units|
    ensures |Utf8(PointAt(units, i))| <= 3 * WidthAt(units, i)
    ensures |Utf8(ScrubPoint(PointAt(units, i)))| <= 3 * WidthAt(units, i)
    ensures i + WidthAt(units, i) <= |units|
  {
  }

  lemma KeyStep(done: seq<Byte>, units: seq<Unit>, i: nat)
    requires i < |units|
    ensures done + Encode(Points(units, i)) == done + Utf8(PointAt(units, i)) + Encode(Points(units, i + WidthAt(units, i)))
  {
  }

  lemma CStep(done: seq<Byte>, units: seq<Unit>, i: nat)
    requires i < |units|
    ensures done + Encode(Scrub(Points(units, i))) ==
      done + Utf8(ScrubPoint(PointAt(units, i))) + Encode(Scrub(Points(units, i + WidthAt(units, i))))
  {
    assert Scrub(Points(units, i)) == [ScrubPoint(PointAt(units, i))] + Scrub(Points(units, i + WidthAt(units, i)));
  }

  /** One code point of a string, a pair combined, and how many units it took. */
  method NextPoint(units: seq<Unit>, i: nat) returns (cp: Point, width: nat)
    requires i < |units|
    ensures cp == PointAt(units, i) && width == WidthAt(units, i)
  {
    cp, width := units[i], 1;
    if IsHigh(units[i]) && i + 1 < |units| {
      var low := units[i + 1];
      if IsLow(low) {
        cp, width := Combine(units[i], low), 2;
      }
    }
  }

  /** A property key as NUL-terminated bytes, in a buffer of three bytes a unit and one; a key with a
      U+0000 has no such form. */
  method ShapeKeyBytes(name: seq<Unit>) returns (ok: bool, key: array<Byte>, n: nat)
    ensures fresh(key) && key.Length == 3 * |name| + 1
    ensures ok <==> 0 !in name
    ensures ok ==> n < key.Length && key[..n] == KeyBytes(name) && key[n] == 0 && 0 !in key[..n]
  {
    key := new Byte[3 * |name| + 1](_ => 0);
    n := 0;
    var i := 0;
    while i < |name|
      invariant i <= |name| && n <= 3 * i
      invariant forall k :: 0 <= k < i ==> name[k] != 0
      invariant key[..n] + Encode(Points(name, i)) == KeyBytes(name)
    {
      if name[i] == 0 {
        return false, key, n;
      }
      var cp, width := NextPoint(name, i);
      PointSize(name, i);
      KeyStep(key[..n], name, i);
      n := Utf8Put(key, n, cp);
      i := i + width;
    }
    assert key[..n] + [] == key[..n];
    EncodedSize(name, 0);
    key[n] := 0;
    ok := true;
  }

  /** The prefix of a string before its first NUL has the same code points, unit by unit. */
  lemma CutPoint(units: seq<Unit>, r: nat)
    requires r < FirstNul(units)
    ensures var cut := units[..FirstNul(units)]; PointAt(cut, r) == PointAt(units, r) && WidthAt(cut, r) == WidthAt(units, r)
  {
  }

  /** `jsrt_string_to_cstr`. */
  method StringToCstr(units: seq<Unit>) returns (out: array<Byte>, w: nat)
    ensures fresh(out) && out.Length == 3 * |units| + 1
    ensures w < out.Length && out[..w] == CBytes(units) && out[w] == 0 && 0 !in out[..w]
  {
    out := new Byte[3 * |units| + 1](_ => 0);
    w := 0;
    ghost var cut := units[..FirstNul(units)];
    var r := 0;
    while r < |units| && units[r] != 0
      invariant r <= |cut| && w <= 3 * r
      invariant out[..w] + Encode(Scrub(Points(cut, r))) == CBytes(units)
    {
      var cp, width := NextPoint(units, r);
      CutPoint(units, r);
      PointSize(cut, r);
      CStep(out[..w], cut, r);
      if IsSurrogate(cp) {
        cp := 0xFFFD;
      }
      w := Utf8Put(out, w, cp);
      r := r + width;
    }
    assert r == |cut| && out[..w] + [] == out[..w];
    ScrubbedSize(cut, 0);
    out[w] := 0;
  }

  // ---------------------------------------------------------------- decoders

  method Utf16Put(out: array<Unit>, at: nat, cp: Point) returns (at': nat)
    requires at + |UnitsOf(cp)| <= out.Length
    modifies out
    ensures at' == at + |UnitsOf(cp)| && out[..at'] == old(out[..at]) + UnitsOf(cp)
  {
    if cp <= 0xFFFF {
      out[at] := cp;
      at' := at + 1;
    } else {
      out[at] := 0xD800 + (cp - 0x10000) / 0x400;
      out[at + 1] := 0xDC00 + (cp - 0x10000) % 0x400;
      at' := at + 2;
    }
  }

  lemma DecodeStep(done: seq<Unit>, bs: seq<Byte>, i: nat)
    requires Decode(bs, i).Good?
    ensures var s := Decode(bs, i);
      && done + AllUnits(DecodeAll(bs, i)) == done + UnitsOf(s.cp) + AllUnits(DecodeAll(bs, i + s.size))
      && |AllUnits(DecodeAll(bs, i))| == |UnitsOf(s.cp)| + |AllUnits(DecodeAll(bs, i + s.size))|
  {
  }

  lemma StrictLemma(done: seq<Unit>, bs: seq<Byte>, i: nat)
    requires i < |bs|
    ensures var part := StrictStep(bs, i);
      && done + AllUnits(StrictAll(bs, i)) == done + UnitsOf(part.cp) + AllUnits(StrictAll(bs, i + part.size))
      && |AllUnits(StrictAll(bs, i))| == |UnitsOf(part.cp)| + |AllUnits(StrictAll(bs, i + part.size))|
  {
  }

  /** The counting pass of `jsrt_string_from_utf8`. */
  method CountUtf8(bytes: seq<Byte>) returns (length: nat)
    ensures length == |FromUtf8(bytes)|
  {
    length := 0;
    var i := 0;
    var step := Decode(bytes, i);
    while step.Good?
      invariant i <= |bytes| && step == Decode(bytes, i)
      invariant length + |AllUnits(DecodeAll(bytes, i))| == |FromUtf8(bytes)|
      decreases |bytes| - i
    {
      DecodeStep([], bytes, i);
      length := length + if step.cp <= 0xFFFF then 1 else 2;
      i := i + step.size;
      step := Decode(bytes, i);
    }
  }

  /** `jsrt_string_from_utf8`: a writing pass that fills exactly what was counted; it stops at the first bad byte. */
  method StringFromUtf8(bytes: seq<Byte>) returns (data: array<Unit>)
    ensures fresh(data) && data[..] == FromUtf8(bytes)
  {
    var length := CountUtf8(bytes);
    data := new Unit[length](_ => 0);
    var at := 0;
    var i := 0;
    var step := Decode(bytes, i);
    ghost var rest := AllUnits(DecodeAll(bytes, i));
    while step.Good?
      invariant i <= |bytes| && step == Decode(bytes, i) && rest == AllUnits(DecodeAll(bytes, i))
      invariant 0 <= at && at + |rest| == data.Length
      invariant data[..at] + rest == FromUtf8(bytes)
      decreases |bytes| - i
    {
      DecodeStep(data[..at], bytes, i);
      at := Utf16Put(data, at, step.cp);
      i := i + step.size;
      rest := AllUnits(DecodeAll(bytes, i));
      step := Decode(bytes, i);
    }
    assert data[..at] == data[..] && data[..] + [] == data[..];
  }

  /** `strlen`. */
  method StrLen(s: array<Byte>) returns (n: nat)
    requires 0 in s[..]
    ensures n < s.Length && s[n] == 0 && 0 !in s[..n]
  {
    n := 0;
    while s[n] != 0
      invariant n < s.Length && 0 !in s[..n]
      invariant exists k :: n <= k < s.Length && s[k] == 0
      decreases s.Length - n
    {
      n := n + 1;
    }
  }

  lemma NoNulBelow(bs: seq<Byte>, n: nat)
    requires n <= |bs| && 0 !in bs[..n]
    ensures forall k :: 0 <= k < n ==> bs[k] != 0
  {
    forall k | 0 <= k < n ensures bs[k] != 0 { assert bs[k] == bs[..n][k]; }
  }

  lemma OneEnd(bs: seq<Byte>, n: nat, m: nat)
    requires n < |bs| && bs[n] == 0 && 0 !in bs[..n]
    requires m < |bs| && bs[m] == 0 && 0 !in bs[..m]
    ensures n == m
  {
    NoNulBelow(bs, n);
    NoNulBelow(bs, m);
  }

  /** The counting pass of `jsrt_string_from_cstr`. */
  method CountCstr(bytes: seq<Byte>) returns (length: nat)
    ensures length == |FromCBytes(bytes)|
  {
    length := 0;
    var i := 0;
    while i < |bytes|
      invariant i <= |bytes|
      invariant length + |AllUnits(StrictAll(bytes, i))| == |FromCBytes(bytes)|
    {
      StrictLemma([], bytes, i);
      var part := StrictStep(bytes, i);
      length := length + if part.cp <= 0xFFFF then 1 else 2;
      i := i + part.size;
    }
  }

  /** Its writing pass. */
  method WriteCstr(bytes: seq<Byte>, data: array<Unit>)
    requires data.Length == |FromCBytes(bytes)|
    modifies data
    ensures data[..] == FromCBytes(bytes)
  {
    var at := 0;
    var i := 0;
    ghost var rest := AllUnits(StrictAll(bytes, i));
    while i < |bytes|
      invariant i <= |bytes| && rest == AllUnits(StrictAll(bytes, i))
      invariant 0 <= at && at + |rest| == data.Length
      invariant data[..at] + rest == FromCBytes(bytes)
    {
      StrictLemma(data[..at], bytes, i);
      var part := StrictStep(bytes, i);
      at := Utf16Put(data, at, part.cp);
      i := i + part.size;
      rest := AllUnits(StrictAll(bytes, i));
    }
    assert data[..at] == data[..] && data[..] + [] == data[..];
  }

  /** `jsrt_string_from_cstr`. */
  method StringFromCstr(s: array<Byte>) returns (data: array<Unit>)
    requires 0 in s[..]
    ensures fresh(data)
    ensures forall n :: 0 <= n < s.Length && s[n] == 0 && 0 !in s[..n] ==> data[..] == FromCBytes(s[..n])
  {
    var len := StrLen(s);
    var length := CountCstr(s[..len]);
    data := new Unit[length](_ => 0);
    WriteCstr(s[..len], data);
    forall n | 0 <= n < s.Length && s[n] == 0 && 0 !in s[..n] ensures n == len {
      assert s[..n] == s[..][..n] && s[..len] == s[..][..len];
      OneEnd(s[..], n, len);
    }
  }

  /** A string handed to C and taken back is the string cut at its first NUL, scrubbed. */
  method ThroughC(units: seq<Unit>) returns (back: array<Unit>)
    ensures back[..] == Replaced(units[..FirstNul(units)])
  {
    var cstr, w := StringToCstr(units);
    assert cstr[w] in cstr[..];
    back := StringFromCstr(cstr);
    CStringRoundTrip(units);
  }
}

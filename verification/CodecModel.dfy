/** UTF-16 strings, code points and bytes (RFC 3629 sections 3 and 4; jsrt_string.c, jsrt_shape.c,
    jsrt_print.c). Shifts and masks are written as the divisions and remainders they are. */
module CodecModel {
  type Byte = b: nat | b < 0x100
  type Unit = u: nat | u < 0x10000
  /** What four bytes of UTF-8 can hold; Unicode ends at 0x10FFFF. */
  type Point = p: nat | p < 0x200000

  predicate IsHigh(u: nat) { 0xD800 <= u <= 0xDBFF }

  predicate IsLow(u: nat) { 0xDC00 <= u <= 0xDFFF }

  predicate IsSurrogate(u: nat) { 0xD800 <= u <= 0xDFFF }

  // ---------------------------------------------------------------- UTF-16

  predicate PairAt(units: seq<Unit>, i: nat) {
    i + 1 < |units| && IsHigh(units[i]) && IsLow(units[i + 1])
  }

  function Combine(high: nat, low: nat): Point
    requires IsHigh(high) && IsLow(low)
  {
    0x10000 + (high - 0xD800) * 0x400 + (low - 0xDC00)
  }

  function PointAt(units: seq<Unit>, i: nat): Point
    requires i < |units|
  {
    if PairAt(units, i) then Combine(units[i], units[i + 1]) else units[i]
  }

  function WidthAt(units: seq<Unit>, i: nat): nat {
    if PairAt(units, i) then 2 else 1
  }

  /** The code points of a string from unit `i` on: pairs combined, a lone surrogate as itself. */
  function Points(units: seq<Unit>, i: nat): seq<Point>
    decreases |units| - i
  {
    if i >= |units| then [] else [PointAt(units, i)] + Points(units, i + WidthAt(units, i))
  }

  /** `utf16_put`. */
  function UnitsOf(p: Point): (us: seq<Unit>)
    ensures |us| == if p <= 0xFFFF then 1 else 2
  {
    if p <= 0xFFFF then [p]
    else [0xD800 + (p - 0x10000) / 0x400, 0xDC00 + (p - 0x10000) % 0x400]
  }

  function AllUnits(ps: seq<Point>): seq<Unit> {
    if ps == [] then [] else UnitsOf(ps[0]) + AllUnits(ps[1..])
  }

  lemma UnitsOfPointAt(units: seq<Unit>, i: nat)
    requires i < |units|
    ensures UnitsOf(PointAt(units, i)) == units[i..i + WidthAt(units, i)]
  {
  }

  lemma {:induction false} UnitsOfPoints(units: seq<Unit>, i: nat)
    requires i <= |units|
    ensures AllUnits(Points(units, i)) == units[i..]
    decreases |units| - i
  {
    if i < |units| {
      var w := WidthAt(units, i);
      UnitsOfPointAt(units, i);
      UnitsOfPoints(units, i + w);
      assert units[i..] == units[i..i + w] + units[i + w..];
    }
  }

  // ---------------------------------------------------------------- UTF-8

  function Utf8(p: Point): (bs: seq<Byte>)
    ensures 1 <= |bs| <= 4
  {
    if p < 0x80 then [p]
    else if p < 0x800 then [0xC0 + p / 0x40, 0x80 + p % 0x40]
    else if p < 0x10000 then [0xE0 + p / 0x1000, 0x80 + p / 0x40 % 0x40, 0x80 + p % 0x40]
    else [0xF0 + p / 0x40000, 0x80 + p / 0x1000 % 0x40, 0x80 + p / 0x40 % 0x40, 0x80 + p % 0x40]
  }

  function Encode(ps: seq<Point>): seq<Byte> {
    if ps == [] then [] else Utf8(ps[0]) + Encode(ps[1..])
  }

  predicate IsTail(b: nat) { b / 0x40 == 2 }

  function Two(b0: nat, b1: nat): nat { b0 % 0x20 * 0x40 + b1 % 0x40 }

  function Three(b0: nat, b1: nat, b2: nat): nat { b0 % 0x10 * 0x1000 + b1 % 0x40 * 0x40 + b2 % 0x40 }

  function Four(b0: nat, b1: nat, b2: nat, b3: nat): nat {
    b0 % 8 * 0x40000 + b1 % 0x40 * 0x1000 + b2 % 0x40 * 0x40 + b3 % 0x40
  }

  datatype Step = Bad | Good(cp: nat, size: nat)

  /** `utf8_decode` at byte `i`: surrogates pass, overlong forms do not. */
  function Decode(bs: seq<Byte>, i: nat): (r: Step)
    ensures r.Good? ==> 1 <= r.size <= 4 && i + r.size <= |bs| && r.cp < 0x200000
  {
    if i >= |bs| then Bad
    else
      var b0: nat := bs[i];
      if b0 < 0x80 then Good(b0, 1)
      else if b0 / 0x20 == 6 then
        if i + 2 > |bs| || !IsTail(bs[i + 1]) || Two(b0, bs[i + 1]) < 0x80 then Bad
        else Good(Two(b0, bs[i + 1]), 2)
      else if b0 / 0x10 == 14 then
        if i + 3 > |bs| || !IsTail(bs[i + 1]) || !IsTail(bs[i + 2]) || Three(b0, bs[i + 1], bs[i + 2]) < 0x800 then Bad
        else Good(Three(b0, bs[i + 1], bs[i + 2]), 3)
      else if b0 / 8 == 30 then
        if i + 4 > |bs| || !IsTail(bs[i + 1]) || !IsTail(bs[i + 2]) || !IsTail(bs[i + 3])
           || Four(b0, bs[i + 1], bs[i + 2], bs[i + 3]) < 0x10000 then Bad
        else Good(Four(b0, bs[i + 1], bs[i + 2], bs[i + 3]), 4)
      else Bad
  }

  datatype Part = Part(cp: nat, size: nat)

  /** `utf8_strict_step`: one code point, or U+FFFD for one ill-formed part, and its width. */
  function StrictStep(bs: seq<Byte>, i: nat): (r: Part)
    requires i < |bs|
    ensures r.size >= 1 && i + r.size <= |bs| && r.cp < 0x200000
  {
    var b0: nat := bs[i];
    if b0 < 0x80 then Part(b0, 1)
    else if b0 < 0xC2 || b0 > 0xF4 then Part(0xFFFD, 1)
    else
      var need := if b0 < 0xE0 then 1 else if b0 < 0xF0 then 2 else 3;
      var lo := if b0 == 0xE0 then 0xA0 else if b0 == 0xF0 then 0x90 else 0x80;
      var hi := if b0 == 0xED then 0x9F else if b0 == 0xF4 then 0x8F else 0xBF;
      if i + need >= |bs| then Part(0xFFFD, |bs| - i)
      else if bs[i + 1] < lo || bs[i + 1] > hi then Part(0xFFFD, 1)
      else if need >= 2 && !IsTail(bs[i + 2]) then Part(0xFFFD, 2)
      else if need >= 3 && !IsTail(bs[i + 3]) then Part(0xFFFD, 3)
      else if need == 1 then Part(Two(b0, bs[i + 1]), 2)
      else if need == 2 then Part(Three(b0, bs[i + 1], bs[i + 2]), 3)
      else Part(Four(b0, bs[i + 1], bs[i + 2], bs[i + 3]), 4)
  }

  lemma Digits(p: Point)
    ensures p == p / 0x40 * 0x40 + p % 0x40
    ensures p / 0x40 == p / 0x1000 * 0x40 + p / 0x40 % 0x40
    ensures p / 0x1000 == p / 0x40000 * 0x40 + p / 0x1000 % 0x40
  {
    assert p / 0x1000 == p / 0x40 / 0x40;
    assert p / 0x40000 == p / 0x1000 / 0x40;
  }

  lemma EncodedAt(bs: seq<Byte>, i: nat, e: seq<Byte>)
    requires i + |e| <= |bs| && bs[i..i + |e|] == e
    ensures forall k :: i <= k < i + |e| ==> bs[k] == e[k - i]
  {
    forall k | i <= k < i + |e| ensures bs[k] == e[k - i] { assert bs[i..i + |e|][k - i] == bs[k]; }
  }

  /** Every code point, a surrogate included, decodes to itself. */
  lemma DecodeEncoded(bs: seq<Byte>, i: nat, p: Point)
    requires i + |Utf8(p)| <= |bs| && bs[i..i + |Utf8(p)|] == Utf8(p)
    ensures Decode(bs, i) == Good(p, |Utf8(p)|)
  {
    Digits(p);
    EncodedAt(bs, i, Utf8(p));
  }

  /** The second byte of a scalar value keeps the bounds its first byte sets. */
  lemma SecondByte(p: Point)
    requires 0x80 <= p < 0x110000 && !IsSurrogate(p)
    ensures var b0, b1 := Utf8(p)[0], Utf8(p)[1];
      && 0xC2 <= b0 <= 0xF4 && 0x80 <= b1 <= 0xBF
      && (b0 == 0xE0 ==> 0xA0 <= b1) && (b0 == 0xF0 ==> 0x90 <= b1)
      && (b0 == 0xED ==> b1 <= 0x9F) && (b0 == 0xF4 ==> b1 <= 0x8F)
      && (b0 < 0xE0 <==> p < 0x800) && (b0 < 0xF0 <==> p < 0x10000)
  {
    Digits(p);
    if 0x800 <= p < 0x10000 {
      assert p / 0x1000 == 0 ==> p / 0x40 >= 0x20;
      assert p / 0x1000 == 13 ==> p / 0x40 < 0x360;
    } else if 0x10000 <= p {
      assert p / 0x40000 == 0 ==> p / 0x1000 >= 0x10;
      assert p / 0x40000 == 4 ==> p / 0x1000 < 0x110;
    }
  }

  /** The strict decoder agrees on every scalar value. */
  lemma StrictEncoded(bs: seq<Byte>, i: nat, p: Point)
    requires i + |Utf8(p)| <= |bs| && bs[i..i + |Utf8(p)|] == Utf8(p) && p < 0x110000 && !IsSurrogate(p)
    ensures StrictStep(bs, i) == Part(p, |Utf8(p)|)
  {
    DecodeEncoded(bs, i, p);
    EncodedAt(bs, i, Utf8(p));
    if p >= 0x80 { SecondByte(p); }
  }

  // ---------------------------------------------------------------- whole strings

  /** The code points of the bytes from `i` on, up to the first bad one. */
  function DecodeAll(bs: seq<Byte>, i: nat): seq<Point>
    decreases |bs| - i
  {
    var step := Decode(bs, i);
    if step.Bad? then [] else [step.cp] + DecodeAll(bs, i + step.size)
  }

  function StrictAll(bs: seq<Byte>, i: nat): seq<Point>
    decreases |bs| - i
  {
    if i >= |bs| then []
    else
      var part := StrictStep(bs, i);
      [part.cp] + StrictAll(bs, i + part.size)
  }

  /** `jsrt_string_from_utf8`. */
  function FromUtf8(bs: seq<Byte>): seq<Unit> { AllUnits(DecodeAll(bs, 0)) }

  /** `shape_key_bytes`, without the terminator. */
  function KeyBytes(units: seq<Unit>): seq<Byte> { Encode(Points(units, 0)) }

  lemma {:induction false} DecodeAllEncoded(bs: seq<Byte>, i: nat, ps: seq<Point>)
    requires i <= |bs| && bs[i..] == Encode(ps)
    ensures DecodeAll(bs, i) == ps
    decreases ps
  {
    if ps != [] {
      var e := Utf8(ps[0]);
      assert bs[i..i + |e|] == bs[i..][..|e|] == e;
      assert bs[i + |e|..] == bs[i..][|e|..] == Encode(ps[1..]);
      DecodeEncoded(bs, i, ps[0]);
      DecodeAllEncoded(bs, i + |e|, ps[1..]);
    }
  }

  /** Every string, lone surrogates included, survives its key bytes. */
  lemma KeyBytesRoundTrip(units: seq<Unit>)
    ensures FromUtf8(KeyBytes(units)) == units
  {
    DecodeAllEncoded(KeyBytes(units), 0, Points(units, 0));
    UnitsOfPoints(units, 0);
  }

  /** So two keys are the same bytes exactly when they are the same string. */
  lemma KeyBytesInjective(a: seq<Unit>, b: seq<Unit>)
    ensures KeyBytes(a) == KeyBytes(b) <==> a == b
  {
    KeyBytesRoundTrip(a);
    KeyBytesRoundTrip(b);
  }

  /** Three bytes a unit are enough, and no byte is NUL unless a unit is. */
  lemma {:induction false} EncodedSize(units: seq<Unit>, i: nat)
    requires i <= |units|
    ensures |Encode(Points(units, i))| <= 3 * (|units| - i)
    ensures (forall k :: i <= k < |units| ==> units[k] != 0) ==> 0 !in Encode(Points(units, i))
    decreases |units| - i
  {
    if i < |units| {
      EncodedSize(units, i + WidthAt(units, i));
      Digits(PointAt(units, i));
    }
  }

  // ---------------------------------------------------------------- C strings

  function FirstNul(units: seq<Unit>): (n: nat)
    ensures n <= |units| && (forall k :: 0 <= k < n ==> units[k] != 0) && (n < |units| ==> units[n] == 0)
  {
    if units == [] || units[0] == 0 then 0 else 1 + FirstNul(units[1..])
  }

  function ScrubPoint(p: Point): Point { if IsSurrogate(p) then 0xFFFD else p }

  function Scrub(ps: seq<Point>): (r: seq<Point>)
    ensures |r| == |ps|
  {
    if ps == [] then [] else [ScrubPoint(ps[0])] + Scrub(ps[1..])
  }

  /** `jsrt_string_to_cstr`, without the terminator: cut at the first NUL, lone surrogates scrubbed. */
  function CBytes(units: seq<Unit>): seq<Byte> {
    Encode(Scrub(Points(units[..FirstNul(units)], 0)))
  }

  function FromCBytes(bs: seq<Byte>): seq<Unit> { AllUnits(StrictAll(bs, 0)) }

  /** A surrogate that is not half of a pair. */
  predicate Lone(units: seq<Unit>, i: nat)
    requires i < |units|
  {
    || (IsHigh(units[i]) && !(i + 1 < |units| && IsLow(units[i + 1])))
    || (IsLow(units[i]) && !(i > 0 && IsHigh(units[i - 1])))
  }

  function Replaced(units: seq<Unit>): (r: seq<Unit>)
    ensures |r| == |units|
  {
    seq(|units|, i requires 0 <= i < |units| => if Lone(units, i) then 0xFFFD else units[i])
  }

  /** The cursor never stands between the halves of a pair. */
  predicate Boundary(units: seq<Unit>, i: nat) {
    i <= |units| && !(0 < i < |units| && IsHigh(units[i - 1]) && IsLow(units[i]))
  }

  lemma {:induction false} ScrubbedUnits(units: seq<Unit>, i: nat)
    requires Boundary(units, i)
    ensures AllUnits(Scrub(Points(units, i))) == Replaced(units)[i..]
    decreases |units| - i
  {
    if i < |units| {
      var w := WidthAt(units, i);
      UnitsOfPointAt(units, i);
      ScrubbedUnits(units, i + w);
      assert Replaced(units)[i..] == Replaced(units)[i..i + w] + Replaced(units)[i + w..];
    }
  }

  ghost predicate AllScalar(ps: seq<Point>) {
    forall k :: 0 <= k < |ps| ==> ps[k] < 0x110000 && !IsSurrogate(ps[k])
  }

  lemma {:induction false} StrictAllEncoded(bs: seq<Byte>, i: nat, ps: seq<Point>)
    requires i <= |bs| && bs[i..] == Encode(ps)
    requires AllScalar(ps)
    ensures StrictAll(bs, i) == ps
    decreases ps
  {
    if ps != [] {
      var e := Utf8(ps[0]);
      assert bs[i..i + |e|] == bs[i..][..|e|] == e;
      assert bs[i + |e|..] == bs[i..][|e|..] == Encode(ps[1..]);
      StrictEncoded(bs, i, ps[0]);
      StrictAllEncoded(bs, i + |e|, ps[1..]);
    }
  }

  lemma {:induction false} ScrubIsScalar(units: seq<Unit>, i: nat)
    requires i <= |units|
    ensures AllScalar(Scrub(Points(units, i)))
    decreases |units| - i
  {
    if i < |units| {
      ScrubIsScalar(units, i + WidthAt(units, i));
      assert Scrub(Points(units, i)) == [ScrubPoint(PointAt(units, i))] + Scrub(Points(units, i + WidthAt(units, i)));
    }
  }

  /** Through C and back: the string cut at its first NUL, each lone surrogate replaced by U+FFFD. */
  lemma CStringRoundTrip(units: seq<Unit>)
    ensures FromCBytes(CBytes(units)) == Replaced(units[..FirstNul(units)])
  {
    var cut := units[..FirstNul(units)];
    var ps := Scrub(Points(cut, 0));
    ScrubIsScalar(cut, 0);
    assert CBytes(units)[0..] == CBytes(units);
    StrictAllEncoded(CBytes(units), 0, ps);
    ScrubbedUnits(cut, 0);
  }

  lemma {:induction false} ScrubbedSize(units: seq<Unit>, i: nat)
    requires i <= |units| && forall k :: i <= k < |units| ==> units[k] != 0
    ensures |Encode(Scrub(Points(units, i)))| <= 3 * (|units| - i)
    ensures 0 !in Encode(Scrub(Points(units, i)))
    decreases |units| - i
  {
    if i < |units| {
      ScrubbedSize(units, i + WidthAt(units, i));
      Digits(ScrubPoint(PointAt(units, i)));
    }
  }

  // ---------------------------------------------------------------- the two tables

  predicate AllTails(bs: seq<nat>) { forall i :: 1 <= i < |bs| ==> 0x80 <= bs[i] < 0xC0 }

  /** The table of RFC 3629: leading bits by length, six bits a continuation byte. */
  lemma Utf8Table(p: Point)
    ensures var bs: seq<nat> := Utf8(p);
      match |bs|
      case 1 => p < 0x80 && bs[0] == p
      case 2 => 0x80 <= p < 0x800 && 0xC0 <= bs[0] < 0xE0 && AllTails(bs)
        && p == (bs[0] - 0xC0) * 0x40 + (bs[1] - 0x80)
      case 3 => 0x800 <= p < 0x10000 && 0xE0 <= bs[0] < 0xF0 && AllTails(bs)
        && p == ((bs[0] - 0xE0) * 0x40 + (bs[1] - 0x80)) * 0x40 + (bs[2] - 0x80)
      case 4 =>
        && 0x10000 <= p && 0xF0 <= bs[0] < 0xF8 && AllTails(bs)
        && p == (((bs[0] - 0xF0) * 0x40 + (bs[1] - 0x80)) * 0x40 + (bs[2] - 0x80)) * 0x40 + (bs[3] - 0x80)
  {
    Digits(p);
  }

  /** A code point past 0xFFFF as a pair: ten bits a half. */
  lemma PairTable(p: Point)
    requires 0x10000 <= p < 0x110000
    ensures var us: seq<nat> := UnitsOf(p);
      && |us| == 2 && 0xD800 <= us[0] < 0xDC00 && 0xDC00 <= us[1] < 0xE000
      && p - 0x10000 == (us[0] - 0xD800) * 0x400 + (us[1] - 0xDC00) && PointAt(UnitsOf(p), 0) == p
  {
  }
}

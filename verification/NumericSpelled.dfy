/** Which texts parseInt reads, in which radix, and what they spell (section 19.2.5 of ECMA-262). */
module NumericSpelled {
  import opened NumericModel
  import opened NumericRuntime
  import opened NumericText

  // ---------------------------------------------------------------- characters

  /** White space and line terminators. */
  lemma SpacesAre(ch: nat)
    ensures IsSpace(ch) <==> ch in {
      0x9, 0xA, 0xB, 0xC, 0xD, 0x20, 0xA0, 0x1680, 0x2000, 0x2001, 0x2002, 0x2003, 0x2004, 0x2005, 0x2006, 0x2007,
      0x2008, 0x2009, 0x200A, 0x2028, 0x2029, 0x202F, 0x205F, 0x3000, 0xFEFF}
  {
  }

  /** The digits of a radix: decimal digits, then letters of either case. */
  lemma DigitsAre(ch: nat, d: nat)
    requires d < 36
    ensures DigitValue(ch) == d <==> if d < 10 then ch == 48 + d else ch == 65 + d - 10 || ch == 97 + d - 10
  {
  }

  // ---------------------------------------------------------------- spelled integers

  datatype Sign = NoSign | Plus | Minus

  /** `prefix` is empty, or 0x in either case; `zeros` and `digits` together are the digits. */
  datatype Spelled = Spelled(blanks: seq<Unit>, sign: Sign, prefix: seq<Unit>, zeros: nat, digits: seq<Unit>, rest: seq<Unit>)

  function Zeros(n: nat): (s: seq<Unit>)
    ensures |s| == n
  {
    seq(n, _ => 48)
  }

  function SpellSign(sign: Sign): seq<Unit> { if sign == NoSign then [] else if sign == Plus then [43] else [45] }

  function Text(d: Spelled): seq<Unit> {
    d.blanks + (SpellSign(d.sign) + (d.prefix + (Zeros(d.zeros) + d.digits + d.rest)))
  }

  predicate AllSpace(s: seq<Unit>) { forall i :: 0 <= i < |s| ==> IsSpace(s[i]) }

  predicate IsPrefix(p: seq<Unit>) { p == [48, 120] || p == [48, 88] }

  /** The radix asked for; 10 without one, but for a prefix. */
  function RadixFor(asked: int, prefix: seq<Unit>): int {
    if prefix != [] then 16 else if asked == 0 then 10 else asked
  }

  /** A number read in the radix asked for: 0 asks for none, and a prefix counts only then and in radix 16. The
      digits are as many as there are, at least one; a prefix is never read as a zero and a rest. */
  predicate WellSpelled(d: Spelled, asked: int) {
    && (asked == 0 || 2 <= asked <= 36)
    && AllSpace(d.blanks)
    && (d.prefix == [] || (IsPrefix(d.prefix) && (asked == 0 || asked == 16)))
    && d.zeros + |d.digits| > 0
    && var radix := RadixFor(asked, d.prefix);
       && radix >= 0 && AllDigits(d.digits, radix)
       && (d.digits != [] ==> d.digits[0] != 48)
       && (d.rest != [] ==> DigitValue(d.rest[0]) >= radix)
       && (d.prefix == [] && (asked == 0 || asked == 16) && d.zeros == 1 && d.digits == [] && d.rest != [] ==>
             d.rest[0] != 120 && d.rest[0] != 88)
  }

  /** What it means: the sign, the radix, and the digits without leading zeros. */
  function Meant(d: Spelled, asked: int): Parsed
    requires WellSpelled(d, asked)
  {
    Parsed(d.sign == Minus, RadixFor(asked, d.prefix), d.digits)
  }

  // ---------------------------------------------------------------- what is spelled is read

  lemma {:induction false} BlanksSkipped(s: seq<Unit>, i: nat, n: nat)
    requires i <= n <= |s| && (forall k :: i <= k < n ==> IsSpace(s[k])) && (n < |s| ==> !IsSpace(s[n]))
    ensures SkipSpace(s, i) == n
    decreases n - i
  {
    hide IsSpace;
    if i < n { BlanksSkipped(s, i + 1, n); }
  }

  lemma {:induction false} DigitsStop(s: seq<Unit>, i: nat, n: nat, radix: nat)
    requires i <= n <= |s| && (forall k :: i <= k < n ==> DigitValue(s[k]) < radix) && (n < |s| ==> DigitValue(s[n]) >= radix)
    ensures DigitsEnd(s, i, radix) == n
    decreases n - i
  {
    if i < n { DigitsStop(s, i + 1, n, radix); }
  }

  lemma {:induction false} ZerosSkipped(s: seq<Unit>, i: nat, n: nat, end: nat)
    requires i <= n <= end <= |s| && (forall k :: i <= k < n ==> s[k] == 48) && (n < end ==> s[n] != 48)
    ensures SkipZeros(s, i, end) == n
    decreases n - i
  {
    if i < n { ZerosSkipped(s, i + 1, n, end); }
  }

  /** The places of a spelled integer in its text. */
  lemma Places(d: Spelled)
    ensures var s, a := Text(d), |d.blanks|; var b := a + |SpellSign(d.sign)|; var c := b + |d.prefix|;
      var e := c + d.zeros; var f := e + |d.digits|;
      && |s| == f + |d.rest| && s[..a] == d.blanks && s[a..b] == SpellSign(d.sign) && s[b..c] == d.prefix
      && s[c..e] == Zeros(d.zeros) && s[e..f] == d.digits && s[f..] == d.rest
  {
    var tail := Zeros(d.zeros) + d.digits + d.rest;
    Cut(Zeros(d.zeros) + d.digits, d.rest);
    Cut(Zeros(d.zeros), d.digits);
    Cut(d.prefix, tail);
    Cut(SpellSign(d.sign), d.prefix + tail);
    Cut(d.blanks, SpellSign(d.sign) + (d.prefix + tail));
    PlacesIn(Text(d), d.blanks, SpellSign(d.sign), d.prefix, Zeros(d.zeros), d.digits, d.rest);
  }

  lemma Cut(a: seq<Unit>, b: seq<Unit>)
    ensures (a + b)[..|a|] == a && (a + b)[|a|..] == b
  {
  }

  lemma PlacesIn(s: seq<Unit>, p: seq<Unit>, q: seq<Unit>, r: seq<Unit>, t: seq<Unit>, u: seq<Unit>, v: seq<Unit>)
    requires s == p + (q + (r + (t + u + v)))
    ensures var a := |p|; var b := a + |q|; var c := b + |r|; var e := c + |t|; var f := e + |u|;
      && |s| == f + |v| && s[..a] == p && s[a..b] == q && s[b..c] == r && s[c..e] == t && s[e..f] == u && s[f..] == v
  {
  }

  /** The first character behind blanks and sign is a digit, so neither. */
  lemma DigitFirst(d: Spelled, asked: int)
    requires WellSpelled(d, asked)
    ensures var s := Text(d); var b := |d.blanks| + |SpellSign(d.sign)|;
      && b < |s| && !IsSpace(s[b]) && s[b] != 43 && s[b] != 45
      && (forall i :: 0 <= i < |d.blanks| ==> IsSpace(s[i]))
      && (d.sign != NoSign ==> s[|d.blanks|] == SpellSign(d.sign)[0])
      && (HexPrefix(s, b) && (asked == 0 || asked == 16) <==> d.prefix != [])
  {
    hide IsSpace, DigitValue, Text;
    Places(d);
    var s := Text(d);
    var a := |d.blanks|;
    var b := a + |SpellSign(d.sign)|;
    var c := b + |d.prefix|;
    assert forall i :: 0 <= i < a ==> s[i] == s[..a][i];
    if d.sign != NoSign { assert s[a] == s[a..b][0]; }
    if d.prefix != [] {
      assert s[b] == s[b..c][0] && s[b + 1] == s[b..c][1];
      Ordinary(48, 36);
    } else if d.zeros > 0 {
      assert s[b] == s[c..c + d.zeros][0];
      Ordinary(48, 36);
      SecondPlain(d, asked);
    } else {
      assert s[b] == s[c..c + |d.digits|][0];
      Ordinary(s[b], RadixFor(asked, d.prefix));
    }
  }

  lemma Ordinary(ch: Unit, radix: int)
    requires DigitValue(ch) < radix <= 36 || ch == 48
    ensures !IsSpace(ch) && ch != 43 && ch != 45
  {
  }

  lemma SecondPlain(d: Spelled, asked: int)
    requires WellSpelled(d, asked) && d.prefix == [] && d.zeros > 0
    ensures var s := Text(d); var b := |d.blanks| + |SpellSign(d.sign)|; !(HexPrefix(s, b) && (asked == 0 || asked == 16))
  {
    hide IsSpace, Text;
    Places(d);
    var s := Text(d);
    var b := |d.blanks| + |SpellSign(d.sign)|;
    var e := b + d.zeros;
    if d.zeros > 1 {
      assert s[b + 1] == s[b..e][1];
    } else if d.digits != [] {
      assert s[b + 1] == s[e..e + |d.digits|][0];
    } else if d.rest != [] {
      assert s[b + 1] == s[e..][0];
    }
  }

  /** Every well-spelled integer is read as what it means. */
  lemma SpelledReads(d: Spelled, asked: int)
    requires WellSpelled(d, asked)
    ensures ReadInt(Text(d), asked) == Meant(d, asked)
  {
    hide IsSpace, DigitValue, Text, HexPrefix, SkipSpace, DigitsEnd, SkipZeros;
    var s := Text(d);
    var a := |d.blanks|;
    DigitFirst(d, asked);
    SignPlain();
    BlanksSkipped(s, 0, a);
    RunsOfDigits(d, asked);
  }

  /** The scan of the digits stops behind them, and the zeros are passed over. */
  lemma RunsOfDigits(d: Spelled, asked: int)
    requires WellSpelled(d, asked)
    ensures var s := Text(d); var c := |d.blanks| + |SpellSign(d.sign)| + |d.prefix|; var e := c + d.zeros;
      var f := e + |d.digits|;
      && c < f <= |s| && DigitsEnd(s, c, RadixFor(asked, d.prefix)) == f && SkipZeros(s, c, f) == e && s[e..f] == d.digits
  {
    hide IsSpace, DigitValue, Text, HexPrefix, DigitsEnd, SkipZeros;
    var s := Text(d);
    var c := |d.blanks| + |SpellSign(d.sign)| + |d.prefix|;
    var e := c + d.zeros;
    var f := e + |d.digits|;
    Places(d);
    var radix: nat := RadixFor(asked, d.prefix);
    ZeroIsDigit(radix);
    forall k | c <= k < f ensures DigitValue(s[k]) < radix {
      if k < e { assert s[k] == s[c..e][k - c]; } else { assert s[k] == s[e..f][k - e]; }
    }
    if d.rest != [] { assert s[f] == s[f..][0]; }
    DigitsStop(s, c, f, radix);
    forall k | c <= k < e ensures s[k] == 48 { assert s[k] == s[c..e][k - c]; }
    if d.digits != [] { assert s[e] == s[e..f][0]; }
    ZerosSkipped(s, c, e, f);
  }

  lemma SignPlain()
    ensures !IsSpace(43) && !IsSpace(45)
  {
  }

  lemma ZeroIsDigit(radix: nat)
    requires radix >= 2
    ensures DigitValue(48) < radix
  {
  }

  // ---------------------------------------------------------------- what is read is spelled

  lemma {:induction false} SpaceRun(s: seq<Unit>, i: nat)
    requires i <= |s|
    ensures var n := SkipSpace(s, i); (forall k :: i <= k < n ==> IsSpace(s[k])) && (n < |s| ==> !IsSpace(s[n]))
    decreases |s| - i
  {
    hide IsSpace;
    if i < |s| && IsSpace(s[i]) { SpaceRun(s, i + 1); }
  }

  lemma {:induction false} ZeroRun(s: seq<Unit>, i: nat, end: nat)
    requires i <= end <= |s|
    ensures var n := SkipZeros(s, i, end); forall k :: i <= k < n ==> s[k] == 48
    decreases end - i
  {
    if i < end && s[i] == 48 { ZeroRun(s, i + 1, end); }
  }

  /** Where parseInt stops at each turn. */
  datatype Stops = Stops(a: nat, b: nat, c: nat, e: nat, f: nat, sign: Sign, radix: nat)

  function StopsOf(s: seq<Unit>, asked: int): (p: Stops)
    requires asked == 0 || 2 <= asked <= 36
    ensures p.a <= p.b <= p.c <= p.e <= p.f <= |s|
  {
    var a := SkipSpace(s, 0);
    var sign := if a < |s| && s[a] == 43 then Plus else if a < |s| && s[a] == 45 then Minus else NoSign;
    var b := a + |SpellSign(sign)|;
    var hex := (asked == 0 || asked == 16) && HexPrefix(s, b);
    var c := if hex then b + 2 else b;
    var radix: nat := if hex then 16 else if asked == 0 then 10 else asked;
    var f := DigitsEnd(s, c, radix);
    Stops(a, b, c, SkipZeros(s, c, f), f, sign, radix)
  }

  /** Whatever is read is well-spelled. */
  lemma ReadIsSpelled(s: seq<Unit>, asked: int) returns (d: Spelled)
    requires ReadInt(s, asked).Parsed?
    ensures WellSpelled(d, asked) && Text(d) == s
  {
    hide IsSpace, DigitValue, SkipSpace, SkipZeros, DigitsEnd, Text, WellSpelled;
    var p := StopsOf(s, asked);
    assert p.c < p.f;
    d := Spelled(s[..p.a], p.sign, s[p.b..p.c], p.e - p.c, s[p.e..p.f], s[p.f..]);
    StopsSpell(s, asked);
    StopsRebuild(s, asked);
  }

  /** What holds where it stops. */
  lemma StopsFacts(s: seq<Unit>, asked: int)
    requires asked == 0 || 2 <= asked <= 36
    ensures var p := StopsOf(s, asked); var open := asked == 0 || asked == 16;
      && (forall k :: 0 <= k < p.a ==> IsSpace(s[k]))
      && (p.c == p.b || (open && p.c == p.b + 2 && HexPrefix(s, p.b)))
      && (p.c == p.b && open ==> !HexPrefix(s, p.b))
      && p.radix == (if p.c > p.b then 16 else if asked == 0 then 10 else asked)
      && (forall k :: p.c <= k < p.e ==> s[k] == 48) && (p.e < p.f ==> s[p.e] != 48)
      && (forall k :: p.c <= k < p.f ==> DigitValue(s[k]) < p.radix)
      && (p.f < |s| ==> DigitValue(s[p.f]) >= p.radix)
  {
    hide IsSpace, DigitValue, SkipSpace, SkipZeros, DigitsEnd, HexPrefix;
    var p := StopsOf(s, asked);
    SpaceRun(s, 0);
    ZeroRun(s, p.c, p.f);
  }

  lemma FirstSpaces(s: seq<Unit>, a: nat)
    requires a <= |s| && forall k :: 0 <= k < a ==> IsSpace(s[k])
    ensures AllSpace(s[..a])
  {
  }

  lemma StopsSpell(s: seq<Unit>, asked: int)
    requires asked == 0 || 2 <= asked <= 36
    requires StopsOf(s, asked).c < StopsOf(s, asked).f
    ensures var p := StopsOf(s, asked);
      WellSpelled(Spelled(s[..p.a], p.sign, s[p.b..p.c], p.e - p.c, s[p.e..p.f], s[p.f..]), asked)
  {
    StopsFacts(s, asked);
    hide IsSpace, DigitValue, StopsOf, AllDigits, AllSpace;
    var p := StopsOf(s, asked);
    FirstSpaces(s, p.a);
    SliceDigits(s, p.c, p.e, p.f, p.radix);
    if p.c > p.b { assert s[p.b..p.c] == [s[p.b], s[p.b + 1]]; }
    if p.c == p.b && p.e == p.c + 1 && p.f == p.e < |s| { assert s[p.b] == 48 && s[p.f..][0] == s[p.b + 1]; }
  }

  lemma SignAt(s: seq<Unit>, asked: int)
    requires asked == 0 || 2 <= asked <= 36
    ensures var p := StopsOf(s, asked); s[p.a..p.b] == SpellSign(p.sign) && forall k :: p.c <= k < p.e ==> s[k] == 48
  {
    hide IsSpace, DigitValue, SkipSpace, SkipZeros, DigitsEnd, HexPrefix;
    var p := StopsOf(s, asked);
    ZeroRun(s, p.c, p.f);
  }

  lemma StopsRebuild(s: seq<Unit>, asked: int)
    requires asked == 0 || 2 <= asked <= 36
    ensures var p := StopsOf(s, asked);
      Text(Spelled(s[..p.a], p.sign, s[p.b..p.c], p.e - p.c, s[p.e..p.f], s[p.f..])) == s
  {
    SignAt(s, asked);
    hide IsSpace, DigitValue, SkipSpace, SkipZeros, DigitsEnd, StopsOf;
    var p := StopsOf(s, asked);
    Rebuilt(s, p.a, p.b, p.c, p.e, p.f, SpellSign(p.sign));
  }

  lemma Rebuilt(s: seq<Unit>, a: nat, b: nat, c: nat, e: nat, f: nat, sign: seq<Unit>)
    requires a <= b <= c <= e <= f <= |s| && s[a..b] == sign && forall k :: c <= k < e ==> s[k] == 48
    ensures s[..a] + (sign + (s[b..c] + (Zeros(e - c) + s[e..f] + s[f..]))) == s
  {
    assert s[c..e] == Zeros(e - c);
    assert s[c..] == s[c..e] + s[e..f] + s[f..];
    assert s[b..] == s[b..c] + s[c..];
    assert s[a..] == s[a..b] + s[b..];
  }

  /** `parse_int_text`: a text is read as this sign, radix and digits exactly when it spells them; so it is not a
      number exactly when the radix is refused or no digit is where one must be. */
  lemma ParsesInt(s: seq<Unit>, asked: int, p: Parsed)
    requires p.Parsed?
    ensures ReadInt(s, asked) == p <==> exists d :: WellSpelled(d, asked) && Text(d) == s && Meant(d, asked) == p
  {
    hide ReadInt, Text, WellSpelled;
    if ReadInt(s, asked) == p {
      var d := ReadIsSpelled(s, asked);
      SpelledReads(d, asked);
    }
    if d :| WellSpelled(d, asked) && Text(d) == s && Meant(d, asked) == p { SpelledReads(d, asked); }
  }

  /** A NaN, or a sign and a magnitude; the sign of a zero is kept. */
  datatype Result = NotNumber | Signed(negative: bool, magnitude: Answer)

  /** parseInt: nothing but what is spelled is a number, and that is what it is. */
  method ParseInt(s: seq<Unit>, asked: int) returns (r: Result)
    ensures r.NotNumber? <==> !exists d :: WellSpelled(d, asked) && Text(d) == s
    ensures forall d :: WellSpelled(d, asked) && Text(d) == s ==>
      2 <= RadixFor(asked, d.prefix) <= 36 && r == Signed(d.sign == Minus, AnswerOf(d.digits, RadixFor(asked, d.prefix)))
  {
    hide ReadInt, Text, WellSpelled, AnswerOf;
    var p := ParseIntText(s, asked);
    forall d | WellSpelled(d, asked) && Text(d) == s ensures p == Meant(d, asked) { SpelledReads(d, asked); }
    if p.NotANumber? {
      return NotNumber;
    }
    ghost var d := ReadIsSpelled(s, asked);
    var m := ParseMagnitude(p);
    r := Signed(p.negative, m);
  }
}

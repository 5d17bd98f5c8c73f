/** parseInt as a whole, and the integers Number.prototype.toString(radix) prints (jsrt_numeric.c,
    jsrt_number_methods.c). */
module NumericText {
  import opened NumericModel
  import opened NumericDouble
  import opened NumericRuntime

  // ---------------------------------------------------------------- what parseInt reads

  /** Not a number, or a sign and the significant digits in a radix. */
  datatype Parsed = NotANumber | Parsed(negative: bool, radix: nat, digits: seq<Unit>)

  predicate IsSpace(ch: nat) {
    || 9 <= ch <= 13 || 0x2000 <= ch <= 0x200A || ch == 0x20 || ch == 0xA0 || ch == 0x1680
    || ch == 0x2028 || ch == 0x2029 || ch == 0x202F || ch == 0x205F || ch == 0x3000 || ch == 0xFEFF
  }

  function SkipSpace(s: seq<Unit>, i: nat): (r: nat)
    requires i <= |s|
    ensures i <= r <= |s|
    decreases |s| - i
  {
    if i < |s| && IsSpace(s[i]) then SkipSpace(s, i + 1) else i
  }

  function DigitsEnd(s: seq<Unit>, i: nat, radix: nat): (r: nat)
    requires i <= |s|
    ensures i <= r <= |s| && forall k :: i <= k < r ==> DigitValue(s[k]) < radix
    ensures r < |s| ==> DigitValue(s[r]) >= radix
    decreases |s| - i
  {
    if i < |s| && DigitValue(s[i]) < radix then DigitsEnd(s, i + 1, radix) else i
  }

  function SkipZeros(s: seq<Unit>, i: nat, end: nat): (r: nat)
    requires i <= end <= |s|
    ensures i <= r <= end && (r < end ==> s[r] != 48)
    decreases end - i
  {
    if i < end && s[i] == 48 then SkipZeros(s, i + 1, end) else i
  }

  predicate HexPrefix(s: seq<Unit>, i: nat) { i + 1 < |s| && s[i] == 48 && (s[i + 1] == 120 || s[i + 1] == 88) }

  /** `parse_int_text`; `r` is ToInt32 of the radix argument. */
  function ReadInt(s: seq<Unit>, r: int): Parsed {
    var start := SkipSpace(s, 0);
    var signed := start < |s| && (s[start] == 45 || s[start] == 43);
    var pos := if signed then start + 1 else start;
    if r != 0 && (r < 2 || r > 36) then NotANumber
    else
      var hex := (r == 0 || r == 16) && HexPrefix(s, pos);
      var radix: nat := if hex then 16 else if r == 0 then 10 else r;
      var from := if hex then pos + 2 else pos;
      var end := DigitsEnd(s, from, radix);
      if end == from then NotANumber
      else Parsed(signed && s[start] == 45, radix, s[SkipZeros(s, from, end)..end])
  }

  method TrimmedStart(s: seq<Unit>) returns (pos: nat)
    ensures pos == SkipSpace(s, 0)
  {
    pos := 0;
    while pos < |s| && IsSpace(s[pos])
      invariant pos <= |s| && SkipSpace(s, pos) == SkipSpace(s, 0)
    {
      pos := pos + 1;
    }
  }

  method ScanDigits(s: seq<Unit>, pos: nat, radix: nat) returns (end: nat)
    requires pos <= |s|
    ensures end == DigitsEnd(s, pos, radix)
  {
    end := pos;
    while end < |s| && DigitValue(s[end]) < radix
      invariant pos <= end <= |s| && DigitsEnd(s, end, radix) == DigitsEnd(s, pos, radix)
    {
      end := end + 1;
    }
  }

  method PassZeros(s: seq<Unit>, from: nat, end: nat) returns (pos: nat)
    requires from <= end <= |s|
    ensures pos == SkipZeros(s, from, end)
  {
    pos := from;
    while pos < end && s[pos] == 48
      invariant from <= pos <= end && SkipZeros(s, pos, end) == SkipZeros(s, from, end)
    {
      pos := pos + 1;
    }
  }

  method ParseIntText(s: seq<Unit>, radixArgument: int) returns (p: Parsed)
    ensures p == ReadInt(s, radixArgument)
    ensures p.Parsed? ==> 2 <= p.radix <= 36 && AllDigits(p.digits, p.radix)
  {
    hide SkipSpace, DigitsEnd, SkipZeros, DigitValue;
    var r := radixArgument;
    var pos: nat := TrimmedStart(s);
    var negative := false;
    if pos < |s| && (s[pos] == 45 || s[pos] == 43) {
      negative := s[pos] == 45;
      pos := pos + 1;
    }
    var stripPrefix := true;
    if r != 0 {
      if r < 2 || r > 36 {
        return NotANumber;
      }
      stripPrefix := r == 16;
    } else {
      r := 10;
    }
    if stripPrefix && pos + 1 < |s| && s[pos] == 48 && (s[pos + 1] == 120 || s[pos + 1] == 88) {
      pos := pos + 2;
      r := 16;
    }
    var end := ScanDigits(s, pos, r);
    if end == pos {
      return NotANumber;
    }
    ghost var from := pos;
    pos := PassZeros(s, pos, end);
    SliceDigits(s, from, pos, end, r);
    p := Parsed(negative, r, s[pos..end]);
  }

  lemma SliceDigits(s: seq<Unit>, from: nat, i: nat, end: nat, radix: nat)
    requires from <= i <= end <= |s| && forall k :: from <= k < end ==> DigitValue(s[k]) < radix
    ensures AllDigits(s[i..end], radix)
  {
    forall k | 0 <= k < end - i ensures DigitValue(s[i..end][k]) < radix { assert s[i..end][k] == s[i + k]; }
  }

  // ---------------------------------------------------------------- magnitudes

  /** The largest multiplier a chunk may reach, so that chunk and multiplier stay in 32 bits. */
  const MAX_MULTIPLIER: nat := 0xFFFF_FFFF / 36

  /** How many more digits a chunk takes whose multiplier is `m` so far. */
  function Reach(m: nat, radix: nat): nat
    requires radix >= 2
    decreases MAX_MULTIPLIER - m
  {
    if m == 0 || m * radix > MAX_MULTIPLIER then 0 else Growing(m, radix); 1 + Reach(m * radix, radix)
  }

  lemma Growing(m: nat, radix: nat)
    requires m > 0 && radix >= 2
    ensures m * radix > m
  {
    Above(1, radix, m);
  }

  /** The digits of a full chunk. */
  function ChunkLen(radix: nat): (n: nat)
    requires 2 <= radix <= 36
    ensures n >= 1
  {
    1 + Reach(radix, radix)
  }

  /** The digits of the last chunk of `n`. */
  function LastChunk(n: nat, radix: nat): (k: nat)
    requires 2 <= radix <= 36 && n > 0
    ensures 1 <= k <= n
  {
    var full := ChunkLen(radix);
    Divides(n, full);
    if n < full then n else if n % full == 0 then full else n % full
  }

  /** The double a digit string folds to, a chunk at a time, product and sum rounded. */
  function Folded(s: seq<Unit>, radix: nat): Magnitude
    requires 2 <= radix <= 36
  {
    if s == [] then Finite(Scaled(0, 0))
    else
      var k := LastChunk(|s|, radix);
      var i := |s| - k;
      Fold(Folded(s[..i], radix), Power(radix, k), Denoted(s[i..], radix))
  }

  /** One chunk: as many digits as keep it and its multiplier in 32 bits. */
  method Chunk(s: seq<Unit>, from: nat, end: nat, radix: nat) returns (part: nat, multiplier: nat, i: nat)
    requires from < end <= |s| && 2 <= radix <= 36 && AllDigits(s[from..end], radix)
    ensures from < i <= end && part == Denoted(s[from..i], radix) && multiplier == Power(radix, i - from)
    ensures part < multiplier <= MAX_MULTIPLIER
    ensures i - from == if end - from < ChunkLen(radix) then end - from else ChunkLen(radix)
  {
    hide Denoted, DigitValue, Reach, ChunkLen, Power;
    part, multiplier, i := 0, 1, from;
    ReachStarts(radix);
    assert s[from..from] == [] && Denoted([], radix) == 0 by { NothingDenoted(radix); }
    while i < end && multiplier * radix <= MAX_MULTIPLIER
      invariant from <= i <= end && (i == from ==> multiplier == 1)
      invariant part == Denoted(s[from..i], radix) && multiplier == Power(radix, i - from)
      invariant part < multiplier <= MAX_MULTIPLIER
      invariant i - from + Reach(multiplier, radix) == ChunkLen(radix)
      decreases end - i
    {
      assert s[from..end][i - from] == s[i];
      DenotedNext(s, from, i, radix);
      Carry(part, multiplier, DigitValue(s[i]), radix);
      ReachNext(multiplier, radix, i - from);
      part := part * radix + DigitValue(s[i]);
      multiplier := radix * multiplier;
      i := i + 1;
    }
    ReachEnds(multiplier, radix);
  }

  lemma ReachStarts(radix: nat)
    requires 2 <= radix <= 36
    ensures Reach(1, radix) == ChunkLen(radix) && Power(radix, 0) == 1
  {
  }

  lemma ReachNext(m: nat, radix: nat, k: nat)
    requires 2 <= radix && m > 0 && m * radix <= MAX_MULTIPLIER && m == Power(radix, k)
    ensures Reach(m, radix) == 1 + Reach(radix * m, radix) && radix * m == Power(radix, k + 1)
  {
    assert m * radix == radix * m;
  }

  lemma ReachEnds(m: nat, radix: nat)
    requires 2 <= radix
    ensures m * radix > MAX_MULTIPLIER ==> Reach(m, radix) == 0
  {
  }

  lemma NothingDenoted(radix: nat)
    ensures Denoted([], radix) == 0
  {
  }

  /** Any other radix but 10, a 32-bit chunk at a time. */
  method ParseGenericRadix(s: seq<Unit>, start: nat, end: nat, radix: nat) returns (result: Magnitude)
    requires start <= end <= |s| && 2 <= radix <= 36 && AllDigits(s[start..end], radix)
    ensures result == Folded(s[start..end], radix)
  {
    hide Fold, Denoted, ChunkLen, Power;
    result := Finite(Scaled(0, 0));
    var i := start;
    assert s[start..start] == [];
    while i < end
      invariant start <= i <= end && result == Folded(s[start..i], radix)
      invariant i == end || (i - start) % ChunkLen(radix) == 0
    {
      ghost var from := i;
      RestDigits(s, start, from, end, radix);
      var part, multiplier;
      part, multiplier, i := Chunk(s, i, end, radix);
      WholeChunks(from - start, i - from, radix);
      assert s[start..i][..from - start] == s[start..from] && s[start..i][from - start..] == s[from..i];
      result := Plus(Times(result, multiplier), part);
      assert result == Fold(Folded(s[start..from], radix), multiplier, part) by { FoldIs(Folded(s[start..from], radix), multiplier, part); }
    }
  }

  lemma FoldIs(x: Magnitude, m: nat, part: nat)
    ensures Fold(x, m, part) == Plus(Times(x, m), part)
  {
  }

  /** A chunk behind full chunks is the last one of what it ends. */
  lemma WholeChunks(n: nat, k: nat, radix: nat)
    requires 2 <= radix <= 36 && n % ChunkLen(radix) == 0 && 1 <= k <= ChunkLen(radix)
    ensures LastChunk(n + k, radix) == k
    ensures k == ChunkLen(radix) ==> (n + k) % ChunkLen(radix) == 0
  {
    hide ChunkLen;
    var full := ChunkLen(radix);
    var q := n / full;
    Divides(n, full);
    if k == full {
      Distribute(q, full, 1, 1);
      assert n + k == (q + 1) * full + 0 by { Less(q, full); }
      UniqueQuotient(n + k, full, q + 1, 0);
      if n > 0 { Ordered(1, q, full); }
    } else {
      UniqueQuotient(n + k, full, q, k);
      if q > 0 { Ordered(1, q, full); }
    }
  }

  lemma Less(q: int, u: int)
    ensures (q + 1) * u == q * u + u
  {
  }

  lemma RestDigits(s: seq<Unit>, start: nat, from: nat, end: nat, radix: nat)
    requires start <= from <= end <= |s| && AllDigits(s[start..end], radix)
    ensures AllDigits(s[from..end], radix)
  {
    forall k | 0 <= k < end - from ensures DigitValue(s[from..end][k]) < radix {
      assert s[from..end][k] == s[start..end][from - start + k];
    }
  }

  /** What parseInt answers for digits in a radix: but in radix 10, where strtod decides, it is rounded once in
      the radices that are powers of two, and at every fold in the others. */
  datatype Answer = Double(x: Magnitude) | Decimal(digits: seq<Unit>)

  predicate IsBinary(radix: nat) { radix == 2 || radix == 4 || radix == 8 || radix == 16 || radix == 32 }

  function AnswerOf(digits: seq<Unit>, radix: nat): Answer
    requires 2 <= radix <= 36
  {
    if radix == 10 then Decimal(digits)
    else if IsBinary(radix) then Double(DoubleOf(Denoted(digits, radix)))
    else Double(Folded(digits, radix))
  }

  method ParseMagnitude(p: Parsed) returns (m: Answer)
    requires p.Parsed? && 2 <= p.radix <= 36 && AllDigits(p.digits, p.radix)
    ensures m == AnswerOf(p.digits, p.radix)
  {
    hide Folded, DoubleOf, Denoted, DigitValue;
    var s := p.digits;
    assert s[0..|s|] == s;
    if p.radix == 10 {
      return Decimal(s);
    }
    var bits := 0;
    while Pow2(bits) < p.radix
      invariant 0 <= bits <= 6 && (bits > 0 ==> Pow2(bits - 1) < p.radix)
      decreases 6 - bits
    {
      PowersTo64();
      bits := bits + 1;
    }
    PowersTo64();
    if Pow2(bits) == p.radix {
      var x := ParsePowerOfTwo(s, 0, |s|, bits);
      return Double(x);
    }
    var x := ParseGenericRadix(s, 0, |s|, p.radix);
    return Double(x);
  }

  lemma PowersTo64()
    ensures Pow2(0) == 1 && Pow2(1) == 2 && Pow2(2) == 4 && Pow2(3) == 8 && Pow2(4) == 16 && Pow2(5) == 32 && Pow2(6) == 64
  {
  }

  // ---------------------------------------------------------------- printing

  function DigitChar(d: nat): (ch: Unit)
    requires d < 36
    ensures DigitValue(ch) == d
  {
    if d < 10 then 48 + d else 97 + d - 10
  }

  function RadixText(n: nat, radix: nat): (s: seq<Unit>)
    requires 2 <= radix <= 36
    ensures s != [] && AllDigits(s, radix)
  {
    if n < radix then [DigitChar(n)] else RadixText(n / radix, radix) + [DigitChar(n % radix)]
  }

  /** Printed digits denote the number, and only zero begins with one. */
  lemma {:induction false} RadixTextMeans(n: nat, radix: nat)
    requires 2 <= radix <= 36
    ensures Denoted(RadixText(n, radix), radix) == n
    ensures RadixText(n, radix)[0] == 48 <==> n == 0
    ensures n == 0 ==> RadixText(n, radix) == [48]
  {
    if n < radix {
      assert [DigitChar(n)][..0] == [];
    } else {
      TextStep(n, radix);
      ShiftNumber(n, radix);
      RadixTextMeans(n / radix, radix);
      MeansStep(n, radix, RadixText(n / radix, radix));
    }
  }

  lemma TextStep(n: nat, radix: nat)
    requires 2 <= radix <= 36 && n >= radix
    ensures RadixText(n, radix) == RadixText(n / radix, radix) + [DigitChar(n % radix)]
  {
  }

  lemma MeansStep(n: nat, radix: nat, front: seq<Unit>)
    requires 2 <= radix <= 36 && front != [] && Denoted(front, radix) == n / radix
    ensures Denoted(front + [DigitChar(n % radix)], radix) == n && (front + [DigitChar(n % radix)])[0] == front[0]
  {
    hide Denoted, DigitChar;
    Divides(n, radix);
    DenotedSnoc(front, DigitChar(n % radix), radix);
  }

  lemma DenotedSnoc(s: seq<Unit>, c: Unit, radix: nat)
    ensures Denoted(s + [c], radix) == Denoted(s, radix) * radix + DigitValue(c)
  {
    assert (s + [c])[..|s|] == s;
  }

  /** Digits, and above nine lower-case letters. */
  lemma {:induction false} RadixTextLower(n: nat, radix: nat)
    requires 2 <= radix <= 36
    ensures forall i :: 0 <= i < |RadixText(n, radix)| ==>
      var ch := RadixText(n, radix)[i]; 48 <= ch <= 57 || 97 <= ch <= 122
  {
    hide DigitValue, DigitChar;
    CharLower(n % radix);
    if n >= radix { RadixTextLower(n / radix, radix); } else { CharLower(n); }
  }

  lemma CharLower(d: nat)
    requires d < 36
    ensures 48 <= DigitChar(d) <= 57 || 97 <= DigitChar(d) <= 122
  {
  }

  const SIZE: nat := 2200
  const MID: nat := 1100

  lemma Shrinks(n: nat, radix: nat)
    requires radix >= 2
    ensures 2 * (n / radix) <= n
  {
    Divides(n, radix);
    Ordered(2, radix, n / radix);
  }

  /** One digit moves from the number to the text. */
  lemma Shift(n: nat, radix: nat, rest: nat, tail: seq<Unit>, written: seq<Unit>)
    requires 2 <= radix <= 36 && rest == n / radix && written == [DigitChar(n % radix)] + tail
    ensures (n - n % radix) / radix == rest && (rest < n || n == 0)
    ensures RadixText(n, radix) + tail == if rest == 0 then written else RadixText(rest, radix) + written
  {
    ShiftNumber(n, radix);
    var last := [DigitChar(n % radix)];
    if n >= radix {
      TextMoves(RadixText(rest, radix), last, tail);
      assert RadixText(n, radix) == RadixText(rest, radix) + last;
    }
  }

  lemma TextMoves(front: seq<Unit>, last: seq<Unit>, tail: seq<Unit>)
    ensures front + last + tail == front + (last + tail)
  {
  }

  lemma ShiftNumber(n: nat, radix: nat)
    requires radix >= 2
    ensures (n - n % radix) / radix == n / radix && (n / radix < n || n == 0)
    ensures n < radix <==> n / radix == 0
    ensures n < radix ==> n % radix == n
  {
    Divides(n, radix);
    Shrinks(n, radix);
    UniqueQuotient(n - n % radix, radix, n / radix, 0);
    if n >= radix { Positive(n, radix); } else { UniqueQuotient(n, radix, 0, n); }
  }

  lemma Positive(n: nat, radix: nat)
    requires 0 < radix <= n
    ensures n / radix > 0
  {
    Divides(n, radix);
  }

  /** What is printed in a radix is read back as the same number, sign and digits. */
  lemma PrintedReadsBack(n: nat, negative: bool, radix: nat)
    requires 2 <= radix <= 36
    ensures var text := (if negative then [45] else []) + RadixText(n, radix);
      ReadInt(text, radix) == Parsed(negative, radix, if n == 0 then [] else RadixText(n, radix))
  {
    hide RadixText, ReadInt, DigitValue, Denoted;
    var digits := RadixText(n, radix);
    RadixTextMeans(n, radix);
    if negative {
      SignedReads(digits, [45] + digits, radix);
    } else {
      assert [] + digits == digits;
      PlainReads(digits, radix);
    }
  }

  lemma PlainReads(digits: seq<Unit>, radix: nat)
    requires 2 <= radix <= 36 && digits != [] && AllDigits(digits, radix) && (digits[0] == 48 ==> |digits| == 1)
    ensures ReadInt(digits, radix) == Parsed(false, radix, if digits[0] == 48 then [] else digits)
  {
    hide DigitValue;
    DigitNotSpecial(digits[0], radix);
    assert SkipSpace(digits, 0) == 0;
    RunToEnd(digits, 0, radix);
    ZeroStripped(digits, 0);
    assert digits[0..] == digits;
  }

  lemma SignedReads(digits: seq<Unit>, text: seq<Unit>, radix: nat)
    requires 2 <= radix <= 36 && digits != [] && AllDigits(digits, radix) && (digits[0] == 48 ==> |digits| == 1)
    requires text == [45] + digits
    ensures ReadInt(text, radix) == Parsed(true, radix, if digits[0] == 48 then [] else digits)
  {
    hide DigitValue;
    assert SkipSpace(text, 0) == 0;
    forall k | 1 <= k < |text| ensures DigitValue(text[k]) < radix { assert text[k] == digits[k - 1]; }
    RunToEnd(text, 1, radix);
    ZeroStripped(text, 1);
    assert text[1..] == digits;
  }

  lemma {:induction false} RunToEnd(s: seq<Unit>, i: nat, radix: nat)
    requires i <= |s| && forall k :: i <= k < |s| ==> DigitValue(s[k]) < radix
    ensures DigitsEnd(s, i, radix) == |s|
    decreases |s| - i
  {
    if i < |s| { RunToEnd(s, i + 1, radix); }
  }

  lemma ZeroStripped(s: seq<Unit>, i: nat)
    requires i < |s| && (s[i] == 48 ==> i + 1 == |s|)
    ensures SkipZeros(s, i, |s|) == if s[i] == 48 then |s| else i
  {
  }

  lemma DigitNotSpecial(ch: Unit, radix: nat)
    requires DigitValue(ch) < radix <= 36
    ensures !IsSpace(ch) && ch != 45 && ch != 43
  {
  }
}

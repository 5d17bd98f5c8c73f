/** The strict decoder against the practice Unicode recommends for ill-formed bytes: one U+FFFD for each maximal
    subpart, the longest run of bytes that begins some character (The Unicode Standard, section 3.9; jsrt_string.c). */
module CodecStrict {
  import opened CodecModel

  predicate Scalar(p: Point) { p < 0x110000 && !IsSurrogate(p) }

  /** The `k` bytes at `i` begin the UTF-8 form of some scalar value. */
  ghost predicate Begins(bs: seq<Byte>, i: nat, k: nat) {
    i + k <= |bs| && exists p: Point :: Scalar(p) && k <= |Utf8(p)| && bs[i..i + k] == Utf8(p)[..k]
  }

  ghost predicate StandsAt(bs: seq<Byte>, i: nat, p: Point) {
    Scalar(p) && i + |Utf8(p)| <= |bs| && bs[i..i + |Utf8(p)|] == Utf8(p)
  }

  /** A character, or U+FFFD for the longest part that begins one, or for one byte that begins none. */
  ghost predicate Recommended(bs: seq<Byte>, i: nat, r: Part) {
    || (exists p: Point :: StandsAt(bs, i, p) && r == Part(p, |Utf8(p)|))
    || (&& (forall p: Point :: !StandsAt(bs, i, p))
        && r.cp == 0xFFFD && r.size >= 1 && i + r.size <= |bs|
        && (r.size > 1 ==> Begins(bs, i, r.size))
        && forall k :: k > r.size ==> !Begins(bs, i, k))
  }

  // ---------------------------------------------------------------- bytes that begin a character

  predicate Leads(b0: nat) { 0xC2 <= b0 <= 0xF4 }

  function Need(b0: nat): (n: nat) { if b0 < 0xE0 then 1 else if b0 < 0xF0 then 2 else 3 }

  function Low(b0: nat): nat { if b0 == 0xE0 then 0xA0 else if b0 == 0xF0 then 0x90 else 0x80 }

  function High(b0: nat): nat { if b0 == 0xED then 0x9F else if b0 == 0xF4 then 0x8F else 0xBF }

  /** `b` may stand `j` bytes behind `b0`. */
  predicate Continues(b0: nat, j: nat, b: nat) { if j == 1 then Low(b0) <= b <= High(b0) else IsTail(b) }

  predicate AllContinue(bs: seq<Byte>, i: nat, k: nat)
    requires i < |bs| && i + k <= |bs|
  {
    forall j {:trigger bs[i + j]} :: 1 <= j < k ==> Continues(bs[i], j, bs[i + j])
  }

  lemma TwoEncodes(b0: Byte, b1: Byte)
    requires 0xC2 <= b0 < 0xE0 && IsTail(b1)
    ensures Scalar(Two(b0, b1)) && Utf8(Two(b0, b1)) == [b0, b1]
  {
  }

  lemma ThreeEncodes(b0: Byte, b1: Byte, b2: Byte)
    requires 0xE0 <= b0 < 0xF0 && Continues(b0, 1, b1) && IsTail(b2)
    ensures Scalar(Three(b0, b1, b2)) && Utf8(Three(b0, b1, b2)) == [b0, b1, b2]
  {
    var high, mid, low := b0 % 0x10, b1 % 0x40, b2 % 0x40;
    assert Three(b0, b1, b2) == high * 0x1000 + mid * 0x40 + low;
    assert Three(b0, b1, b2) / 0x40 == high * 0x40 + mid;
  }

  lemma FourEncodes(b0: Byte, b1: Byte, b2: Byte, b3: Byte)
    requires 0xF0 <= b0 <= 0xF4 && Continues(b0, 1, b1) && IsTail(b2) && IsTail(b3)
    ensures Four(b0, b1, b2, b3) < 0x110000 && Scalar(Four(b0, b1, b2, b3)) && Utf8(Four(b0, b1, b2, b3)) == [b0, b1, b2, b3]
  {
    var a, b, c, d := b0 % 8, b1 % 0x40, b2 % 0x40, b3 % 0x40;
    Quotients(a, b, c, d);
    assert b1 == 0x80 + b && b2 == 0x80 + c && b3 == 0x80 + d && b0 == 0xF0 + a;
  }

  lemma Quotients(a: nat, b: nat, c: nat, d: nat)
    requires b < 0x40 && c < 0x40 && d < 0x40
    ensures var p := a * 0x40000 + b * 0x1000 + c * 0x40 + d;
      && p / 0x40000 == a && p / 0x1000 % 0x40 == b && p / 0x40 % 0x40 == c && p % 0x40 == d
  {
    var p := a * 0x40000 + b * 0x1000 + c * 0x40 + d;
    assert p / 0x40 == a * 0x1000 + b * 0x40 + c;
    assert p / 0x1000 == a * 0x40 + b;
  }

  /** A character that begins as these bytes do, the missing ones filled in. */
  lemma Completed(bs: seq<Byte>, i: nat, k: nat) returns (p: Point)
    requires i < |bs| && Leads(bs[i]) && 1 <= k <= Need(bs[i]) + 1 && i + k <= |bs| && AllContinue(bs, i, k)
    ensures Scalar(p) && |Utf8(p)| == Need(bs[i]) + 1 && bs[i..i + k] == Utf8(p)[..k]
  {
    hide Utf8, Scalar, Two, Three, Four;
    var b0 := bs[i];
    var b1: Byte := if k > 1 then bs[i + 1] else Low(b0);
    var b2: Byte := if k > 2 then bs[i + 2] else 0x80;
    var b3: Byte := if k > 3 then bs[i + 3] else 0x80;
    assert Continues(b0, 1, b1) && IsTail(b2) && IsTail(b3);
    if b0 < 0xE0 {
      TwoEncodes(b0, b1);
      p := Two(b0, b1);
    } else if b0 < 0xF0 {
      ThreeEncodes(b0, b1, b2);
      p := Three(b0, b1, b2);
    } else {
      FourEncodes(b0, b1, b2, b3);
      p := Four(b0, b1, b2, b3);
    }
    forall j | 0 <= j < k ensures bs[i + j] == Utf8(p)[j] {}
  }

  /** The bytes of a character keep the bounds the decoder checks. */
  lemma Bounded(p: Point)
    requires Scalar(p) && |Utf8(p)| >= 2
    ensures Leads(Utf8(p)[0]) && |Utf8(p)| == Need(Utf8(p)[0]) + 1 && AllContinue(Utf8(p), 0, |Utf8(p)|)
  {
    SecondByte(p);
  }

  lemma SameBounds(bs: seq<Byte>, i: nat, k: nat, e: seq<Byte>)
    requires 1 <= k <= |e| && i + k <= |bs| && bs[i..i + k] == e[..k] && AllContinue(e, 0, |e|)
    ensures bs[i] == e[0] && AllContinue(bs, i, k)
  {
    hide Continues;
    assert bs[i] == bs[i..i + k][0];
    forall j {:trigger bs[i + j]} | 1 <= j < k ensures Continues(bs[i], j, bs[i + j]) {
      assert bs[i + j] == bs[i..i + k][j] == e[0 + j];
    }
  }

  lemma BeginsWhen(bs: seq<Byte>, i: nat, k: nat)
    requires i < |bs| && k >= 2
    ensures Begins(bs, i, k) <==> Leads(bs[i]) && k <= Need(bs[i]) + 1 && i + k <= |bs| && AllContinue(bs, i, k)
  {
    hide Utf8, Scalar, Continues;
    if Begins(bs, i, k) {
      var p: Point :| Scalar(p) && k <= |Utf8(p)| && bs[i..i + k] == Utf8(p)[..k];
      Bounded(p);
      SameBounds(bs, i, k, Utf8(p));
    } else if Leads(bs[i]) && k <= Need(bs[i]) + 1 && i + k <= |bs| && AllContinue(bs, i, k) {
      var p := Completed(bs, i, k);
    }
  }

  lemma StandsWhen(bs: seq<Byte>, i: nat, p: Point)
    requires i < |bs| && bs[i] >= 0x80 && StandsAt(bs, i, p)
    ensures Begins(bs, i, |Utf8(p)|) && Leads(bs[i]) && |Utf8(p)| == Need(bs[i]) + 1
  {
    assert bs[i..i + |Utf8(p)|] == Utf8(p)[..|Utf8(p)|];
    assert bs[i..i + |Utf8(p)|][0] == bs[i];
    Bounded(p);
  }

  // ---------------------------------------------------------------- the decoder

  /** The decoder takes what is left as one part, but some byte of it cannot continue the first. */
  predicate SwallowsRest(bs: seq<Byte>, i: nat)
    requires i < |bs|
  {
    Leads(bs[i]) && i + Need(bs[i]) >= |bs| && !AllContinue(bs, i, |bs| - i)
  }

  /** Where no character stands, the decoder answers U+FFFD for the bytes up to the first that cannot continue. */
  lemma StrictPart(bs: seq<Byte>, i: nat)
    requires i < |bs| && bs[i] >= 0x80 && forall p: Point :: !StandsAt(bs, i, p)
    ensures var r := StrictStep(bs, i);
      && r.cp == 0xFFFD && 1 <= r.size && i + r.size <= |bs|
      && (!Leads(bs[i]) ==> r.size == 1)
      && (Leads(bs[i]) && i + Need(bs[i]) >= |bs| ==> r.size == |bs| - i)
      && (Leads(bs[i]) && i + Need(bs[i]) < |bs| ==>
            r.size <= Need(bs[i]) && AllContinue(bs, i, r.size) && !Continues(bs[i], r.size, bs[i + r.size]))
  {
    if Leads(bs[i]) && i + Need(bs[i]) < |bs| && AllContinue(bs, i, Need(bs[i]) + 1) {
      var p := Completed(bs, i, Need(bs[i]) + 1);
      assert StandsAt(bs, i, p);
    }
  }

  /** A part that ends at a byte that cannot continue is the longest that begins a character. */
  lemma LongestPart(bs: seq<Byte>, i: nat, n: nat)
    requires i < |bs| && 1 <= n && i + n <= |bs|
    requires !Leads(bs[i]) || i + n == |bs| || !Continues(bs[i], n, bs[i + n])
    ensures forall k :: k > n ==> !Begins(bs, i, k)
  {
    forall k | k > n ensures !Begins(bs, i, k) { BeginsWhen(bs, i, k); }
  }

  /** The decoder does what Unicode recommends, on any bytes, except where it swallows the rest. */
  lemma StrictIsRecommended(bs: seq<Byte>, i: nat)
    requires i < |bs|
    ensures Recommended(bs, i, StrictStep(bs, i)) <==> !SwallowsRest(bs, i)
  {
    hide StrictStep, AllContinue, Utf8, Scalar, Continues;
    if bs[i] < 0x80 {
      OneByte(bs, i);
    } else if exists p: Point :: StandsAt(bs, i, p) {
      var p: Point :| StandsAt(bs, i, p);
      Stands(bs, i, p);
    } else {
      var n := StrictStep(bs, i).size;
      StrictPart(bs, i);
      if n > 1 { BeginsWhen(bs, i, n); } else { OneContinues(bs, i); }
      LongestPart(bs, i, n);
    }
  }

  lemma OneContinues(bs: seq<Byte>, i: nat)
    requires i < |bs|
    ensures AllContinue(bs, i, 1)
  {
  }

  lemma OneByte(bs: seq<Byte>, i: nat)
    requires i < |bs| && bs[i] < 0x80
    ensures StandsAt(bs, i, bs[i]) && StrictStep(bs, i) == Part(bs[i], |Utf8(bs[i])|)
  {
  }

  lemma Stands(bs: seq<Byte>, i: nat, p: Point)
    requires i < |bs| && bs[i] >= 0x80 && StandsAt(bs, i, p)
    ensures StrictStep(bs, i) == Part(p, |Utf8(p)|) && !SwallowsRest(bs, i)
  {
    StandsWhen(bs, i, p);
    StrictEncoded(bs, i, p);
  }

  /** An input on which the decoder loses a letter: a cut-off lead byte swallows the A behind it. */
  lemma LosesALetter()
    ensures var bs: seq<Byte> := [0xE1, 0x41];
      StrictAll(bs, 0) == [0xFFFD] && Recommended(bs, 0, Part(0xFFFD, 1)) && !Recommended(bs, 0, StrictStep(bs, 0))
  {
    var bs: seq<Byte> := [0xE1, 0x41];
    assert !Continues(bs[0], 1, bs[0 + 1]);
    assert SwallowsRest(bs, 0);
    StrictIsRecommended(bs, 0);
    forall p: Point ensures !StandsAt(bs, 0, p) {
      if StandsAt(bs, 0, p) { StandsWhen(bs, 0, p); }
    }
    forall k | k > 1 ensures !Begins(bs, 0, k) { BeginsWhen(bs, 0, k); }
    assert StrictStep(bs, 0) == Part(0xFFFD, 2);
  }

  // ---------------------------------------------------------------- the lenient decoder

  /** The lenient decoder takes exactly the encodings, of surrogates and past Unicode's end too, and nothing overlong. */
  lemma DecodesEncodings(bs: seq<Byte>, i: nat, p: Point, n: nat)
    ensures Decode(bs, i) == Good(p, n) <==> n == |Utf8(p)| && i + n <= |bs| && bs[i..i + n] == Utf8(p)
  {
    if n == |Utf8(p)| && i + n <= |bs| && bs[i..i + n] == Utf8(p) { DecodeEncoded(bs, i, p); }
    if Decode(bs, i) == Good(p, n) { TakenIsEncoded(bs, i); }
  }

  lemma TakenIsEncoded(bs: seq<Byte>, i: nat)
    requires Decode(bs, i).Good?
    ensures var g := Decode(bs, i); Utf8(g.cp) == bs[i..i + g.size]
  {
    var b0 := bs[i];
    var n := Decode(bs, i).size;
    if n == 2 {
      TwoIs(b0, bs[i + 1]);
    } else if n == 3 {
      ThreeIs(b0, bs[i + 1], bs[i + 2]);
    } else if n == 4 {
      FourIs(b0, bs[i + 1], bs[i + 2], bs[i + 3]);
    }
  }

  lemma TwoIs(b0: Byte, b1: Byte)
    requires b0 / 0x20 == 6 && IsTail(b1) && Two(b0, b1) >= 0x80
    ensures Utf8(Two(b0, b1)) == [b0, b1]
  {
  }

  lemma ThreeIs(b0: Byte, b1: Byte, b2: Byte)
    requires b0 / 0x10 == 14 && IsTail(b1) && IsTail(b2) && Three(b0, b1, b2) >= 0x800
    ensures Utf8(Three(b0, b1, b2)) == [b0, b1, b2]
  {
    Quotients(0, b0 - 0xE0, b1 - 0x80, b2 - 0x80);
  }

  lemma FourIs(b0: Byte, b1: Byte, b2: Byte, b3: Byte)
    requires b0 / 8 == 30 && IsTail(b1) && IsTail(b2) && IsTail(b3) && Four(b0, b1, b2, b3) >= 0x10000
    ensures Utf8(Four(b0, b1, b2, b3)) == [b0, b1, b2, b3]
  {
    var a, b, c, d := b0 - 0xF0, b1 - 0x80, b2 - 0x80, b3 - 0x80;
    Quotients(a, b, c, d);
    assert b0 % 8 == a && b1 % 0x40 == b && b2 % 0x40 == c && b3 % 0x40 == d;
    assert Four(b0, b1, b2, b3) == a * 0x40000 + b * 0x1000 + c * 0x40 + d;
    hide Four;
  }
}

/** Searching, splitting and replacing by a fixed string (sections 6.1.4.1, 22.1.3.18, 22.1.3.19 and
    22.1.3.23 of ECMA-262; jsrt_string_ops.c). */
module StringsModel {
  import opened Options
  import CodecModel

  type Text = seq<CodecModel.Unit>

  // ---------------------------------------------------------------- searching

  predicate MatchAt(hay: Text, needle: Text, k: nat) {
    k + |needle| <= |hay| && hay[k..k + |needle|] == needle
  }

  /** The first match at `from` or after, or -1. */
  function First(hay: Text, needle: Text, from: nat): (r: int)
    ensures r == -1 || (from <= r && MatchAt(hay, needle, r))
    ensures forall k :: from <= k && (r == -1 || k < r) ==> !MatchAt(hay, needle, k)
    decreases |hay| - from
  {
    if from + |needle| > |hay| then -1
    else if MatchAt(hay, needle, from) then from
    else First(hay, needle, from + 1)
  }

  /** How far a search moves past a match: an empty pattern still moves on. */
  function Advance(pat: Text): (n: nat)
    ensures n > 0
  {
    if |pat| > 0 then |pat| else 1
  }

  // ---------------------------------------------------------------- matches

  /** The matches a replacement takes, from `scan` on: leftmost first, none overlapping, or just one. */
  function Hits(hay: Text, pat: Text, scan: nat, all: bool): (hs: seq<nat>)
    decreases |hay| - scan
  {
    var hit := First(hay, pat, scan);
    if scan > |hay| || hit < 0 then []
    else if all then [hit] + Hits(hay, pat, hit + Advance(pat), all)
    else [hit]
  }

  /** Each taken match is one, and starts no sooner than the one before it ends. */
  predicate Taken(hay: Text, pat: Text, from: nat, hs: seq<nat>) {
    && (forall i :: 0 <= i < |hs| ==> from <= hs[i] && MatchAt(hay, pat, hs[i]))
    && (forall i, j :: 0 <= i < j < |hs| ==> hs[i] + Advance(pat) <= hs[j])
  }

  /** Every match from `scan` on overlaps one that is taken. */
  ghost predicate Covered(hay: Text, pat: Text, scan: nat, hs: seq<nat>) {
    forall k :: scan <= k && MatchAt(hay, pat, k) ==> exists h :: h in hs && h <= k < h + Advance(pat)
  }

  lemma TakeFirst(hay: Text, pat: Text, scan: nat, hit: nat, rest: seq<nat>)
    requires hit == First(hay, pat, scan) && Taken(hay, pat, hit + Advance(pat), rest)
    ensures Taken(hay, pat, scan, [hit] + rest)
    ensures Covered(hay, pat, hit + Advance(pat), rest) ==> Covered(hay, pat, scan, [hit] + rest)
  {
    hide MatchAt, First;
    var hs := [hit] + rest;
    if Covered(hay, pat, hit + Advance(pat), rest) {
      forall k | scan <= k && MatchAt(hay, pat, k) ensures exists h :: h in hs && h <= k < h + Advance(pat) {
        if k < hit + Advance(pat) {
          assert hit in hs;
        } else {
          var h :| h in rest && h <= k < h + Advance(pat);
          assert h in hs;
        }
      }
    }
  }

  /** The matches taken are matches, do not overlap, and with `all` leave no other match untouched. */
  lemma {:induction false} HitsAre(hay: Text, pat: Text, scan: nat, all: bool)
    ensures var hs := Hits(hay, pat, scan, all);
      && Taken(hay, pat, scan, hs) && (all ==> Covered(hay, pat, scan, hs))
      && (hs == [] <==> forall k :: scan <= k ==> !MatchAt(hay, pat, k))
    decreases |hay| - scan
  {
    hide MatchAt, First, Taken, Covered;
    var hit := First(hay, pat, scan);
    if scan > |hay| {
      NothingTaken(hay, pat, scan);
    } else if hit < 0 {
      NothingTaken(hay, pat, scan);
    } else if all {
      HitsAre(hay, pat, hit + Advance(pat), all);
      TakeFirst(hay, pat, scan, hit, Hits(hay, pat, hit + Advance(pat), all));
    } else {
      NothingElse(hay, pat, hit + Advance(pat));
      TakeFirst(hay, pat, scan, hit, []);
      assert [hit] + [] == [hit] && MatchAt(hay, pat, hit);
    }
  }

  lemma NothingTaken(hay: Text, pat: Text, scan: nat)
    ensures Taken(hay, pat, scan, [])
    ensures scan > |hay| || First(hay, pat, scan) < 0 ==>
      Covered(hay, pat, scan, []) && forall k :: scan <= k ==> !MatchAt(hay, pat, k)
  {
  }

  lemma NothingElse(hay: Text, pat: Text, scan: nat)
    ensures Taken(hay, pat, scan, [])
  {
  }

  // ---------------------------------------------------------------- substitution

  const DOLLAR: CodecModel.Unit := 36
  const AMPERSAND: CodecModel.Unit := 38
  const BACKTICK: CodecModel.Unit := 96
  const TICK: CodecModel.Unit := 39

  /** What stands for two units of a replacement, if they are a substitution. */
  datatype Piece = Literal | Two(text: Text)

  function PieceAt(rep: Text, k: nat, hay: Text, pat: Text, pos: nat): Piece
    requires k < |rep| && pos + |pat| <= |hay|
  {
    if rep[k] == DOLLAR && k + 1 < |rep| then
      var next := rep[k + 1];
      if next == DOLLAR then Two([DOLLAR])
      else if next == AMPERSAND then Two(pat)
      else if next == BACKTICK then Two(hay[..pos])
      else if next == TICK then Two(hay[pos + |pat|..])
      else Literal
    else Literal
  }

  /** GetSubstitution for a match at `pos`, from unit `k` of the replacement on. */
  function Expand(rep: Text, k: nat, hay: Text, pat: Text, pos: nat): Text
    requires pos + |pat| <= |hay|
    decreases |rep| - k
  {
    if k >= |rep| then []
    else
      var p := PieceAt(rep, k, hay, pat, pos);
      if p.Two? then p.text + Expand(rep, k + 2, hay, pat, pos) else [rep[k]] + Expand(rep, k + 1, hay, pat, pos)
  }

  // ---------------------------------------------------------------- replacing

  /** The text from `tail` on with the taken matches replaced. */
  function Spliced(hay: Text, pat: Text, rep: Text, hs: seq<nat>, tail: nat): Text
    requires Taken(hay, pat, 0, hs) && (if hs == [] then tail <= |hay| else tail <= hs[0])
    decreases hs
  {
    if hs == [] then hay[tail..]
    else
      TailTaken(hay, pat, hs);
      hay[tail..hs[0]] + Expand(rep, 0, hay, pat, hs[0]) + Spliced(hay, pat, rep, hs[1..], hs[0] + |pat|)
  }

  lemma TailTaken(hay: Text, pat: Text, hs: seq<nat>)
    requires Taken(hay, pat, 0, hs) && hs != []
    ensures Taken(hay, pat, 0, hs[1..]) && hs[0] + |pat| <= |hay|
    ensures |hs| > 1 ==> hs[0] + |pat| <= hs[1..][0]
  {
    if |hs| > 1 { assert hs[0] + Advance(pat) <= hs[1]; }
  }

  /** `replace` and `replaceAll`. */
  function Replaced(hay: Text, pat: Text, rep: Text, all: bool): Text {
    HitsAre(hay, pat, 0, all);
    Spliced(hay, pat, rep, Hits(hay, pat, 0, all), 0)
  }

  /** A match replaced by itself leaves the text alone, whatever the pattern. */
  lemma {:induction false} SplicedSelf(hay: Text, pat: Text, hs: seq<nat>, tail: nat)
    requires Taken(hay, pat, 0, hs) && (if hs == [] then tail <= |hay| else tail <= hs[0])
    ensures Spliced(hay, pat, [DOLLAR, AMPERSAND], hs, tail) == hay[tail..]
    decreases hs
  {
    if hs != [] {
      TailTaken(hay, pat, hs);
      SelfExpands(hay, pat, hs[0]);
      hide Taken, Expand;
      SplicedSelf(hay, pat, hs[1..], hs[0] + |pat|);
      Rejoined(hay, tail, hs[0], hs[0] + |pat|);
    }
  }

  lemma SelfExpands(hay: Text, pat: Text, h: nat)
    requires h + |pat| <= |hay|
    ensures Expand([DOLLAR, AMPERSAND], 0, hay, pat, h) == pat
  {
    assert Expand([DOLLAR, AMPERSAND], 2, hay, pat, h) == [];
  }

  lemma Rejoined(s: Text, a: nat, b: nat, c: nat)
    requires a <= b <= c <= |s|
    ensures s[a..] == s[a..b] + s[b..c] + s[c..]
  {
  }

  lemma ReplaceWithMatch(hay: Text, pat: Text, all: bool)
    ensures Replaced(hay, pat, [DOLLAR, AMPERSAND], all) == hay
  {
    HitsAre(hay, pat, 0, all);
    SplicedSelf(hay, pat, Hits(hay, pat, 0, all), 0);
    assert hay[0..] == hay;
  }

  // ---------------------------------------------------------------- splitting

  /** The pieces between separators from `start` on. */
  function Pieces(s: Text, sep: Text, start: nat): (ps: seq<Text>)
    requires sep != [] && start <= |s|
    ensures ps != []
    decreases |s| - start
  {
    var hit := First(s, sep, start);
    if hit < 0 then [s[start..]] else [s[start..hit]] + Pieces(s, sep, hit + |sep|)
  }

  /** `split`: by nothing, the whole string is the one piece. */
  function SplitBy(s: Text, sep: Option<Text>): seq<Text> { if sep.None? then [s] else Split(s, sep.value) }

  /** `split` by a string. */
  function Split(s: Text, sep: Text): seq<Text> {
    if sep == [] then seq(|s|, i requires 0 <= i < |s| => [s[i]])
    else Pieces(s, sep, 0)
  }

  function Join(ps: seq<Text>, sep: Text): Text {
    if ps == [] then [] else if |ps| == 1 then ps[0] else ps[0] + sep + Join(ps[1..], sep)
  }

  /** The pieces with the separator between them are the text. */
  lemma {:induction false} PiecesRebuild(s: Text, sep: Text, start: nat)
    requires sep != [] && start <= |s|
    ensures Join(Pieces(s, sep, start), sep) == s[start..]
    decreases |s| - start
  {
    var hit := First(s, sep, start);
    if hit >= 0 {
      PiecesRebuild(s, sep, hit + |sep|);
      Rejoined(s, start, hit, hit + |sep|);
    }
  }

  lemma {:induction false} UnitsRebuild(s: Text, ps: seq<Text>)
    requires |ps| == |s| && forall i :: 0 <= i < |s| ==> ps[i] == [s[i]]
    ensures Join(ps, []) == s
    decreases s
  {
    if |s| == 1 {
      assert ps[0] == s;
    } else if |s| > 1 {
      UnitsRebuild(s[1..], ps[1..]);
      assert s == [s[0]] + [] + s[1..];
    }
  }

  lemma SplitRebuilds(s: Text, sep: Text)
    ensures Join(Split(s, sep), sep) == s
  {
    if sep == [] {
      UnitsRebuild(s, Split(s, sep));
    } else {
      PiecesRebuild(s, sep, 0);
      assert s[0..] == s;
    }
  }

  /** No piece holds the separator. */
  lemma {:induction false} PiecesFree(s: Text, sep: Text, start: nat, i: nat, k: nat)
    requires sep != [] && start <= |s| && i < |Pieces(s, sep, start)|
    ensures !MatchAt(Pieces(s, sep, start)[i], sep, k)
    decreases |s| - start
  {
    hide First;
    var hit := First(s, sep, start);
    if hit >= 0 && i > 0 {
      PiecesFree(s, sep, hit + |sep|, i - 1, k);
    } else {
      PieceFree(s, sep, start, if hit < 0 then |s| else hit, k);
      assert hit < 0 ==> s[start..|s|] == s[start..];
    }
  }

  lemma SubSlice(s: Text, a: nat, b: nat, i: nat, j: nat)
    requires a <= b <= |s| && i <= j <= b - a
    ensures s[a..b][i..j] == s[a + i..a + j]
  {
    var x, y := s[a..b][i..j], s[a + i..a + j];
    forall n | 0 <= n < |x| ensures x[n] == y[n] { assert x[n] == s[a..b][i + n]; }
  }

  lemma PieceFree(s: Text, sep: Text, start: nat, end: nat, k: nat)
    requires sep != [] && start <= end <= |s|
    requires First(s, sep, start) == end || (First(s, sep, start) < 0 && end == |s|)
    ensures !MatchAt(s[start..end], sep, k)
  {
    hide First;
    if k + |sep| <= end - start {
      SubSlice(s, start, end, k, k + |sep|);
      assert !MatchAt(s, sep, start + k);
    }
  }

  // ---------------------------------------------------------------- both together

  predicate Plain(rep: Text) { forall i :: 0 <= i < |rep| ==> rep[i] != DOLLAR }

  lemma {:induction false} PlainExpands(rep: Text, k: nat, hay: Text, pat: Text, pos: nat)
    requires Plain(rep) && pos + |pat| <= |hay| && k <= |rep|
    ensures Expand(rep, k, hay, pat, pos) == rep[k..]
    decreases |rep| - k
  {
    if k < |rep| {
      PlainExpands(rep, k + 1, hay, pat, pos);
      assert rep[k..] == [rep[k]] + rep[k + 1..];
    }
  }

  lemma {:induction false} SplicedJoins(s: Text, sep: Text, rep: Text, start: nat)
    requires sep != [] && start <= |s| && Plain(rep)
    requires Taken(s, sep, 0, Hits(s, sep, start, true))
    ensures var hs := Hits(s, sep, start, true);
      && (if hs == [] then start <= |s| else start <= hs[0])
      && Spliced(s, sep, rep, hs, start) == Join(Pieces(s, sep, start), rep)
    decreases |s| - start
  {
    hide MatchAt, First, Taken, Expand, Plain;
    var hit := First(s, sep, start);
    if hit >= 0 {
      TailTaken(s, sep, Hits(s, sep, start, true));
      assert Hits(s, sep, start, true)[1..] == Hits(s, sep, hit + |sep|, true);
      SplicedJoins(s, sep, rep, hit + |sep|);
      PlainExpands(rep, 0, s, sep, hit);
      assert rep[0..] == rep;
    }
  }

  /** Replacing every separator is splitting at it and joining with the replacement. */
  lemma ReplaceIsSplitJoin(s: Text, sep: Text, rep: Text)
    requires sep != [] && Plain(rep)
    ensures Replaced(s, sep, rep, true) == Join(Split(s, sep), rep)
  {
    HitsAre(s, sep, 0, true);
    SplicedJoins(s, sep, rep, 0);
  }
}

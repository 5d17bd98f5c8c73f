/** What a search takes, and what a replacement text means, without the order in which they are found. */
module StringsLaws {
  import opened Options
  import opened StringsModel
  import CodecModel

  // ---------------------------------------------------------------- which matches are taken

  /** Matches from `scan` on that do not overlap and leave no match that starts in none of them: there is only one
      such choice, and it is what is taken when all are asked for. */
  lemma {:induction false} HitsUnique(hay: Text, pat: Text, scan: nat, hs: seq<nat>)
    requires Taken(hay, pat, scan, hs) && Covered(hay, pat, scan, hs)
    ensures hs == Hits(hay, pat, scan, true)
    decreases |hs|
  {
    hide MatchAt, First, Taken, Covered, Hits;
    if hs == [] {
      HitsAre(hay, pat, scan, true);
      NoneTaken(hay, pat, scan);
    } else {
      SameStart(hay, pat, scan, hs);
      RestTaken(hay, pat, scan, hs);
      HitsUnique(hay, pat, hs[0] + Advance(pat), hs[1..]);
      SameList(hs, Hits(hay, pat, scan, true));
    }
  }

  lemma SameStart(hay: Text, pat: Text, scan: nat, hs: seq<nat>)
    requires Taken(hay, pat, scan, hs) && Covered(hay, pat, scan, hs) && hs != []
    ensures var ks := Hits(hay, pat, scan, true);
      ks != [] && ks[0] == hs[0] && ks[1..] == Hits(hay, pat, hs[0] + Advance(pat), true)
  {
    hide MatchAt, First, Taken, Covered, Hits;
    HitsAre(hay, pat, scan, true);
    FirstTaken(hay, pat, scan, hs);
    var ks := Hits(hay, pat, scan, true);
    assert ks != [];
    FirstTaken(hay, pat, scan, ks);
    SameFirst(hay, pat, scan, hs[0], ks[0]);
    HitsNext(hay, pat, scan);
  }

  lemma SameList(hs: seq<nat>, ks: seq<nat>)
    requires hs != [] && ks != [] && hs[0] == ks[0] && hs[1..] == ks[1..]
    ensures hs == ks
  {
    assert hs == [hs[0]] + hs[1..] && ks == [ks[0]] + ks[1..];
  }

  lemma NoneTaken(hay: Text, pat: Text, scan: nat)
    requires Covered(hay, pat, scan, [])
    ensures forall k :: scan <= k ==> !MatchAt(hay, pat, k)
  {
  }

  lemma CoveredBy(hay: Text, pat: Text, scan: nat, hs: seq<nat>, k: nat) returns (i: nat)
    requires Covered(hay, pat, scan, hs) && scan <= k && MatchAt(hay, pat, k)
    ensures i < |hs| && hs[i] <= k < hs[i] + Advance(pat)
  {
    hide MatchAt;
    var h :| h in hs && h <= k < h + Advance(pat);
    i :| 0 <= i < |hs| && hs[i] == h;
  }

  lemma FirstTaken(hay: Text, pat: Text, scan: nat, hs: seq<nat>)
    requires Taken(hay, pat, scan, hs) && Covered(hay, pat, scan, hs) && hs != []
    ensures scan <= hs[0] && MatchAt(hay, pat, hs[0]) && forall k :: scan <= k < hs[0] ==> !MatchAt(hay, pat, k)
  {
    hide MatchAt, Covered;
    forall i | 0 < i < |hs| ensures hs[0] < hs[i] { assert hs[0] + Advance(pat) <= hs[i]; }
    forall k: nat | scan <= k < hs[0] ensures !MatchAt(hay, pat, k) {
      if MatchAt(hay, pat, k) { var i := CoveredBy(hay, pat, scan, hs, k); }
    }
  }

  lemma SameFirst(hay: Text, pat: Text, scan: nat, a: nat, b: nat)
    requires scan <= a && MatchAt(hay, pat, a) && forall k :: scan <= k < a ==> !MatchAt(hay, pat, k)
    requires scan <= b && MatchAt(hay, pat, b) && forall k :: scan <= k < b ==> !MatchAt(hay, pat, k)
    ensures a == b
  {
  }

  lemma HitsNext(hay: Text, pat: Text, scan: nat)
    requires Hits(hay, pat, scan, true) != []
    ensures var ks := Hits(hay, pat, scan, true); ks[1..] == Hits(hay, pat, ks[0] + Advance(pat), true)
  {
  }

  lemma RestTaken(hay: Text, pat: Text, scan: nat, hs: seq<nat>)
    requires Taken(hay, pat, scan, hs) && Covered(hay, pat, scan, hs) && hs != []
    ensures var next := hs[0] + Advance(pat); Taken(hay, pat, next, hs[1..]) && Covered(hay, pat, next, hs[1..])
  {
    RestApart(hay, pat, scan, hs);
    RestCovered(hay, pat, scan, hs);
  }

  lemma RestApart(hay: Text, pat: Text, scan: nat, hs: seq<nat>)
    requires Taken(hay, pat, scan, hs) && hs != []
    ensures Taken(hay, pat, hs[0] + Advance(pat), hs[1..])
  {
    hide MatchAt;
    forall i | 0 <= i < |hs| - 1 ensures hs[0] + Advance(pat) <= hs[1..][i] { assert hs[0] + Advance(pat) <= hs[i + 1]; }
  }

  lemma RestCovered(hay: Text, pat: Text, scan: nat, hs: seq<nat>)
    requires Taken(hay, pat, scan, hs) && Covered(hay, pat, scan, hs) && hs != []
    ensures Covered(hay, pat, hs[0] + Advance(pat), hs[1..])
  {
    hide MatchAt, Covered, Taken;
    FirstTaken(hay, pat, scan, hs);
    forall k: nat | hs[0] + Advance(pat) <= k && MatchAt(hay, pat, k) ensures exists h :: h in hs[1..] && h <= k < h + Advance(pat) {
      var i := CoveredBy(hay, pat, scan, hs, k);
      var h := hs[i];
      assert hs[1..][i - 1] == h && h in hs[1..];
    }
    CoversAll(hay, pat, hs[0] + Advance(pat), hs[1..]);
  }

  lemma CoversAll(hay: Text, pat: Text, scan: nat, hs: seq<nat>)
    requires forall k: nat :: scan <= k && MatchAt(hay, pat, k) ==> exists h :: h in hs && h <= k < h + Advance(pat)
    ensures Covered(hay, pat, scan, hs)
  {
  }

  /** Without `all` the first match alone is taken. */
  lemma FirstOnly(hay: Text, pat: Text)
    ensures var hs := Hits(hay, pat, 0, false);
      if exists k :: MatchAt(hay, pat, k)
      then |hs| == 1 && MatchAt(hay, pat, hs[0]) && forall k :: 0 <= k < hs[0] ==> !MatchAt(hay, pat, k)
      else hs == []
  {
    hide MatchAt;
    var hit := First(hay, pat, 0);
    if k: nat :| MatchAt(hay, pat, k) { assert hit >= 0; }
  }

  // ---------------------------------------------------------------- what is put in their place

  /** Where the first `n` matches end. */
  function EndOf(pat: Text, hs: seq<nat>, n: nat): nat
    requires n <= |hs|
  {
    if n == 0 then 0 else hs[n - 1] + |pat|
  }

  ghost predicate Apart(hay: Text, pat: Text, hs: seq<nat>) {
    forall i :: 0 <= i < |hs| ==> EndOf(pat, hs, i) <= hs[i] && hs[i] + |pat| <= |hay|
  }

  /** The text up to the end of the `n`-th match, the matches in it replaced by their expansions. */
  function Upto(hay: Text, pat: Text, rep: Text, hs: seq<nat>, n: nat): Text
    requires Apart(hay, pat, hs) && n <= |hs|
  {
    if n == 0 then []
    else Upto(hay, pat, rep, hs, n - 1) + hay[EndOf(pat, hs, n - 1)..hs[n - 1]] + Expand(rep, 0, hay, pat, hs[n - 1])
  }

  lemma TakenApart(hay: Text, pat: Text, hs: seq<nat>)
    requires Taken(hay, pat, 0, hs)
    ensures Apart(hay, pat, hs) && EndOf(pat, hs, |hs|) <= |hay|
  {
    forall i | 0 <= i < |hs| ensures EndOf(pat, hs, i) <= hs[i] && hs[i] + |pat| <= |hay| {
      if i > 0 { assert hs[i - 1] + Advance(pat) <= hs[i]; }
    }
  }

  /** Each match taken is replaced by its own expansion, and nothing else is changed. */
  lemma ReplacedMeans(hay: Text, pat: Text, rep: Text, all: bool)
    ensures var hs := Hits(hay, pat, 0, all);
      && Apart(hay, pat, hs) && EndOf(pat, hs, |hs|) <= |hay|
      && Replaced(hay, pat, rep, all) == Upto(hay, pat, rep, hs, |hs|) + hay[EndOf(pat, hs, |hs|)..]
  {
    var hs := Hits(hay, pat, 0, all);
    HitsAre(hay, pat, 0, all);
    TakenApart(hay, pat, hs);
    hide Taken, Expand;
    SplicedUpto(hay, pat, rep, hs, |hs|);
    assert hs[|hs|..] == [];
  }

  lemma {:induction false} SplicedUpto(hay: Text, pat: Text, rep: Text, hs: seq<nat>, n: nat)
    requires Taken(hay, pat, 0, hs) && Apart(hay, pat, hs) && n <= |hs|
    ensures Taken(hay, pat, 0, hs[n..])
    ensures var tail := EndOf(pat, hs, n);
      && (if n == |hs| then tail <= |hay| else tail <= hs[n])
      && Spliced(hay, pat, rep, hs, 0) == Upto(hay, pat, rep, hs, n) + Spliced(hay, pat, rep, hs[n..], tail)
  {
    hide Taken, Expand, Spliced, Apart;
    if n == 0 {
      Whole(hay, pat, rep, hs);
    } else {
      SplicedUpto(hay, pat, rep, hs, n - 1);
      var rest, tail := hs[n - 1..], EndOf(pat, hs, n - 1);
      assert rest[1..] == hs[n..] && rest[0] == hs[n - 1];
      ApartAt(hay, pat, hs, n - 1);
      SplicedStep(hay, pat, rep, rest, tail);
      Regroup(Upto(hay, pat, rep, hs, n - 1), hay[tail..hs[n - 1]], Expand(rep, 0, hay, pat, hs[n - 1]),
              Spliced(hay, pat, rep, hs[n..], EndOf(pat, hs, n)));
    }
  }

  lemma ApartAt(hay: Text, pat: Text, hs: seq<nat>, i: nat)
    requires Apart(hay, pat, hs) && i < |hs|
    ensures EndOf(pat, hs, i) <= hs[i] && EndOf(pat, hs, i + 1) <= |hay|
  {
  }

  lemma Whole(hay: Text, pat: Text, rep: Text, hs: seq<nat>)
    requires Taken(hay, pat, 0, hs)
    ensures hs[0..] == hs && [] + Spliced(hay, pat, rep, hs, 0) == Spliced(hay, pat, rep, hs, 0)
  {
    hide Taken, Spliced;
  }

  lemma SplicedStep(hay: Text, pat: Text, rep: Text, hs: seq<nat>, tail: nat)
    requires Taken(hay, pat, 0, hs) && hs != [] && tail <= hs[0]
    ensures Taken(hay, pat, 0, hs[1..]) && hs[0] + |pat| <= |hay| && (|hs| > 1 ==> hs[0] + |pat| <= hs[1..][0])
    ensures Spliced(hay, pat, rep, hs, tail)
      == hay[tail..hs[0]] + Expand(rep, 0, hay, pat, hs[0]) + Spliced(hay, pat, rep, hs[1..], hs[0] + |pat|)
  {
    TailTaken(hay, pat, hs);
    hide Taken, Expand;
  }

  lemma Regroup(a: Text, b: Text, c: Text, d: Text)
    ensures a + (b + c + d) == a + b + c + d
  {
  }

  // ---------------------------------------------------------------- what a replacement text means

  /** A unit, or one of the four substitutions. */
  datatype Token = Just(u: CodecModel.Unit) | Dollar | Match | Before | After

  function SpellToken(t: Token): Text {
    match t
    case Just(u) => [u]
    case Dollar => [36, 36]
    case Match => [36, 38]
    case Before => [36, 96]
    case After => [36, 39]
  }

  function Spell(ts: seq<Token>): Text { if ts == [] then [] else SpellToken(ts[0]) + Spell(ts[1..]) }

  /** A dollar that stands for itself is followed by nothing that would make it a substitution. */
  predicate Clear(ts: seq<Token>) {
    forall i :: 0 <= i < |ts| - 1 && ts[i] == Just(36) ==>
      ts[i + 1].Just? && ts[i + 1].u != 36 && ts[i + 1].u != 38 && ts[i + 1].u != 96 && ts[i + 1].u != 39
  }

  function TokenMeaning(t: Token, before: Text, match_: Text, after: Text): Text {
    match t
    case Just(u) => [u]
    case Dollar => [36]
    case Match => match_
    case Before => before
    case After => after
  }

  function Meaning(ts: seq<Token>, before: Text, match_: Text, after: Text): Text {
    if ts == [] then [] else TokenMeaning(ts[0], before, match_, after) + Meaning(ts[1..], before, match_, after)
  }

  lemma ClearRest(ts: seq<Token>)
    requires Clear(ts) && ts != []
    ensures Clear(ts[1..])
  {
    forall i | 0 <= i < |ts| - 2 && ts[1..][i] == Just(36)
      ensures ts[1..][i + 1].Just? && ts[1..][i + 1].u != 36 && ts[1..][i + 1].u != 38 && ts[1..][i + 1].u != 96 && ts[1..][i + 1].u != 39
    {
      assert ts[i + 1] == Just(36);
    }
  }

  /** A text of tokens expands to what they mean: `$$` is a dollar, `$&` the match, and the backtick and the quote
      what stands before it and after it. */
  lemma {:induction false} ExpandMeans(ts: seq<Token>, rep: Text, k: nat, hay: Text, pat: Text, pos: nat)
    requires Clear(ts) && k <= |rep| && rep[k..] == Spell(ts) && pos + |pat| <= |hay|
    ensures Expand(rep, k, hay, pat, pos) == Meaning(ts, hay[..pos], pat, hay[pos + |pat|..])
    decreases |ts|
  {
    hide Clear, SpellToken, TokenMeaning;
    if ts != [] {
      var w := |SpellToken(ts[0])|;
      assert rep[k + w..] == rep[k..][w..] == Spell(ts[1..]);
      ClearRest(ts);
      ExpandMeans(ts[1..], rep, k + w, hay, pat, pos);
      hide Spell;
      ExpandStep(ts, rep, k, hay, pat, pos);
    }
  }

  lemma ExpandStep(ts: seq<Token>, rep: Text, k: nat, hay: Text, pat: Text, pos: nat)
    requires Clear(ts) && ts != [] && k <= |rep| && rep[k..] == Spell(ts) && pos + |pat| <= |hay|
    ensures k + |SpellToken(ts[0])| <= |rep|
    ensures Expand(rep, k, hay, pat, pos) ==
      TokenMeaning(ts[0], hay[..pos], pat, hay[pos + |pat|..]) + Expand(rep, k + |SpellToken(ts[0])|, hay, pat, pos)
  {
    FirstUnits(ts, rep, k);
    if ts[0] == Just(36) {
      if |ts| > 1 { NextUnit(ts, rep, k); } else { assert |rep| == k + 1; }
    }
    hide Spell, Clear;
  }

  lemma FirstUnits(ts: seq<Token>, rep: Text, k: nat)
    requires ts != [] && k <= |rep| && rep[k..] == Spell(ts)
    ensures var w := |SpellToken(ts[0])|;
      k + w <= |rep| && rep[k] == SpellToken(ts[0])[0] && (w == 2 ==> rep[k + 1] == SpellToken(ts[0])[1])
  {
    var w := |SpellToken(ts[0])|;
    var tail := rep[k..];
    assert tail == SpellToken(ts[0]) + Spell(ts[1..]);
    assert tail[0] == rep[k] && (w == 2 ==> tail[1] == rep[k + 1]);
  }

  lemma NextUnit(ts: seq<Token>, rep: Text, k: nat)
    requires Clear(ts) && |ts| > 1 && ts[0] == Just(36) && k <= |rep| && rep[k..] == Spell(ts)
    ensures k + 1 < |rep| && rep[k + 1] != 36 && rep[k + 1] != 38 && rep[k + 1] != 96 && rep[k + 1] != 39
  {
    assert Spell(ts)[1] == SpellToken(ts[1])[0];
    assert rep[k + 1] == rep[k..][1];
    assert ts[0 + 1].Just?;
  }

  /** Every replacement text is one of tokens. */
  lemma {:induction false} EveryText(rep: Text) returns (ts: seq<Token>)
    ensures Clear(ts) && Spell(ts) == rep
    decreases |rep|
  {
    if rep == [] {
      ts := [];
    } else {
      var t := if rep[0] == 36 && |rep| > 1 then
          if rep[1] == 36 then Dollar else if rep[1] == 38 then Match else if rep[1] == 96 then Before
          else if rep[1] == 39 then After else Just(36)
        else Just(rep[0]);
      var w := |SpellToken(t)|;
      var rest := EveryText(rep[w..]);
      ts := [t] + rest;
      assert ts[1..] == rest && rep == SpellToken(t) + rep[w..];
      if t == Just(36) && rest != [] { FirstToken(rest, rep[1..]); }
    }
  }

  lemma FirstToken(ts: seq<Token>, rep: Text)
    requires ts != [] && Spell(ts) == rep
    ensures rep != [] && rep[0] == SpellToken(ts[0])[0]
  {
  }

  /** So the text before the match, the match and the text after it put the whole string in its place. */
  lemma WholeString(hay: Text, pat: Text, pos: nat)
    requires MatchAt(hay, pat, pos)
    ensures Expand([36, 96, 36, 38, 36, 39], 0, hay, pat, pos) == hay
    ensures Expand([36, 36], 0, hay, pat, pos) == [36]
  {
    var rep: Text := [36, 96, 36, 38, 36, 39];
    assert Expand(rep, 6, hay, pat, pos) == [];
    assert Expand(rep, 4, hay, pat, pos) == hay[pos + |pat|..] + [];
    assert Expand(rep, 2, hay, pat, pos) == pat + (hay[pos + |pat|..] + []);
    assert hay == hay[..pos] + (pat + (hay[pos + |pat|..] + []));
    assert Expand([36, 36], 2, hay, pat, pos) == [];
  }

  /** Splitting by the empty string gives the units. */
  lemma UnitsApart(s: Text)
    ensures |Split(s, [])| == |s| && forall i :: 0 <= i < |s| ==> Split(s, [])[i] == [s[i]]
    ensures SplitBy(s, None) == [s]
  {
  }
}

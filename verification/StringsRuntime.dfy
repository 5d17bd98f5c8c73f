/** The counting and writing passes over a string, its result allocated between them (jsrt_string_ops.c). */
module StringsRuntime {
  import opened Options
  import CodecModel
  import opened StringsModel

  type Unit = CodecModel.Unit

  /** `index_of_from`. */
  method IndexOfFrom(hay: Text, needle: Text, start: nat) returns (hit: int)
    ensures hit == First(hay, needle, start)
  {
    if |needle| > |hay| {
      return -1;
    }
    var k := start;
    while k + |needle| <= |hay|
      invariant First(hay, needle, k) == First(hay, needle, start)
      decreases |hay| - k
    {
      if |needle| == 0 || hay[k..k + |needle|] == needle {
        return k;
      }
      k := k + 1;
    }
    hit := -1;
  }

  // ---------------------------------------------------------------- split

  method CountPieces(s: Text, sep: Text) returns (count: nat)
    requires sep != []
    ensures count == |Pieces(s, sep, 0)|
  {
    hide First, MatchAt;
    count := 0;
    var at: nat := 0;
    while at <= |s|
      invariant at <= |s| && count + |Pieces(s, sep, at)| == |Pieces(s, sep, 0)|
      decreases |s| - at
    {
      var hit := IndexOfFrom(s, sep, at);
      count := count + 1;
      if hit < 0 {
        return;
      }
      MatchFits(s, sep, hit);
      at := hit + |sep|;
    }
  }

  lemma MatchFits(s: Text, sep: Text, hit: nat)
    requires MatchAt(s, sep, hit)
    ensures hit + |sep| <= |s|
  {
  }

  /** `split` by a string, or by nothing: as many pieces as were counted. */
  method StringSplit(s: Text, separator: Option<Text>) returns (items: array<Text>)
    ensures fresh(items) && items[..] == SplitBy(s, separator)
  {
    if separator.None? {
      items := new Text[1](_ => s);
      return;
    }
    var sep := separator.value;
    if |sep| == 0 {
      items := new Text[|s|](_ => []);
      for k := 0 to |s|
        invariant forall i :: 0 <= i < k ==> items[i] == [s[i]]
      {
        items[k] := s[k..k + 1];
      }
      return;
    }
    if |s| == 0 {
      items := new Text[1](_ => []);
      assert First(s, sep, 0) == -1;
      return;
    }
    var count := CountPieces(s, sep);
    items := FillPieces(s, sep, count);
  }

  method FillPieces(s: Text, sep: Text, count: nat) returns (items: array<Text>)
    requires sep != [] && count == |Pieces(s, sep, 0)|
    ensures fresh(items) && items[..] == Pieces(s, sep, 0)
  {
    hide First, MatchAt, Pieces;
    items := new Text[count](_ => []);
    assert items[..0] + Pieces(s, sep, 0) == Pieces(s, sep, 0);
    var filled, start: nat := 0, 0;
    while filled + 1 < count
      invariant filled < count && start <= |s| && items.Length == count
      invariant items[..filled] + Pieces(s, sep, start) == Pieces(s, sep, 0)
      decreases count - filled
    {
      var hit := IndexOfFrom(s, sep, start);
      PieceNext(items[..filled], s, sep, start, count);
      ghost var done := items[..filled];
      items[filled] := s[start..hit];
      filled := filled + 1;
      assert items[..filled] == done + [s[start..hit]];
      start := hit + |sep|;
    }
    PieceLast(items[..filled], s, sep, start, count);
    ghost var done := items[..filled];
    items[filled] := s[start..];
    assert items[..] == done + [s[start..]];
  }

  lemma PieceNext(done: seq<Text>, s: Text, sep: Text, start: nat, count: nat)
    requires sep != [] && start <= |s| && |done| + 1 < count && |done| + |Pieces(s, sep, start)| == count
    ensures var hit := First(s, sep, start);
      && hit >= start && hit + |sep| <= |s|
      && done + Pieces(s, sep, start) == (done + [s[start..hit]]) + Pieces(s, sep, hit + |sep|)
  {
    var hit := First(s, sep, start);
    if hit >= 0 {
      assert done + ([s[start..hit]] + Pieces(s, sep, hit + |sep|)) == (done + [s[start..hit]]) + Pieces(s, sep, hit + |sep|);
    }
  }

  lemma PieceLast(done: seq<Text>, s: Text, sep: Text, start: nat, count: nat)
    requires sep != [] && start <= |s| && |done| + 1 == count && |done| + |Pieces(s, sep, start)| == count
    ensures Pieces(s, sep, start) == [s[start..]]
  {
    hide First;
  }

  // ---------------------------------------------------------------- substitution

  method SubstitutionLength(rep: Text, hay: Text, pat: Text, pos: nat) returns (len: nat)
    requires pos + |pat| <= |hay|
    ensures len == |Expand(rep, 0, hay, pat, pos)|
  {
    len := 0;
    var k: nat := 0;
    while k < |rep|
      invariant len + |Expand(rep, k, hay, pat, pos)| == |Expand(rep, 0, hay, pat, pos)|
      decreases |rep| - k
    {
      if rep[k] == DOLLAR && k + 1 < |rep| && rep[k + 1] == DOLLAR {
        len := len + 1;
        k := k + 2;
      } else if rep[k] == DOLLAR && k + 1 < |rep| && rep[k + 1] == AMPERSAND {
        len := len + |pat|;
        k := k + 2;
      } else if rep[k] == DOLLAR && k + 1 < |rep| && rep[k + 1] == BACKTICK {
        len := len + pos;
        k := k + 2;
      } else if rep[k] == DOLLAR && k + 1 < |rep| && rep[k + 1] == TICK {
        len := len + (|hay| - (pos + |pat|));
        k := k + 2;
      } else {
        len := len + 1;
        k := k + 1;
      }
    }
  }

  method EmitUnits(dst: array<Unit>, at: nat, src: Text) returns (end: nat)
    requires at + |src| <= dst.Length
    modifies dst
    ensures end == at + |src| && dst[..end] == old(dst[..at]) + src
  {
    for i := 0 to |src|
      invariant dst[..at] == old(dst[..at]) && dst[at..at + i] == src[..i]
    {
      dst[at + i] := src[i];
    }
    end := at + |src|;
    assert dst[..end] == dst[..at] + dst[at..end];
  }

  method SubstitutionEmit(dst: array<Unit>, start: nat, rep: Text, hay: Text, pat: Text, pos: nat) returns (at: nat)
    requires pos + |pat| <= |hay| && start + |Expand(rep, 0, hay, pat, pos)| <= dst.Length
    modifies dst
    ensures at == start + |Expand(rep, 0, hay, pat, pos)|
    ensures dst[..at] == old(dst[..start]) + Expand(rep, 0, hay, pat, pos)
  {
    hide Expand;
    at := start;
    var k: nat := 0;
    ghost var rest := Expand(rep, 0, hay, pat, pos);
    while k < |rep|
      invariant rest == Expand(rep, k, hay, pat, pos) && at + |rest| == start + |Expand(rep, 0, hay, pat, pos)|
      invariant dst[..at] + rest == old(dst[..start]) + Expand(rep, 0, hay, pat, pos)
      decreases |rep| - k
    {
      ExpandNext(dst[..at], rep, k, hay, pat, pos);
      if rep[k] == DOLLAR && k + 1 < |rep| && rep[k + 1] == DOLLAR {
        at := EmitUnits(dst, at, [DOLLAR]);
        k := k + 2;
      } else if rep[k] == DOLLAR && k + 1 < |rep| && rep[k + 1] == AMPERSAND {
        at := EmitUnits(dst, at, pat);
        k := k + 2;
      } else if rep[k] == DOLLAR && k + 1 < |rep| && rep[k + 1] == BACKTICK {
        at := EmitUnits(dst, at, hay[..pos]);
        k := k + 2;
      } else if rep[k] == DOLLAR && k + 1 < |rep| && rep[k + 1] == TICK {
        at := EmitUnits(dst, at, hay[pos + |pat|..]);
        k := k + 2;
      } else {
        at := EmitUnits(dst, at, [rep[k]]);
        k := k + 1;
      }
      rest := Expand(rep, k, hay, pat, pos);
    }
    ExpandEnds(rep, k, hay, pat, pos);
    assert dst[..at] + [] == dst[..at];
  }

  /** One piece of a replacement, and where the next begins. */
  lemma ExpandNext(done: Text, rep: Text, k: nat, hay: Text, pat: Text, pos: nat)
    requires k < |rep| && pos + |pat| <= |hay|
    ensures var p := PieceAt(rep, k, hay, pat, pos);
      var text := if p.Two? then p.text else [rep[k]]; var next := if p.Two? then k + 2 else k + 1;
      && done + Expand(rep, k, hay, pat, pos) == (done + text) + Expand(rep, next, hay, pat, pos)
      && |Expand(rep, k, hay, pat, pos)| == |text| + |Expand(rep, next, hay, pat, pos)|
  {
    var p := PieceAt(rep, k, hay, pat, pos);
    hide PieceAt;
    Shifted(done, if p.Two? then p.text else [rep[k]], Expand(rep, if p.Two? then k + 2 else k + 1, hay, pat, pos));
  }

  lemma Shifted(a: Text, b: Text, c: Text)
    ensures a + (b + c) == (a + b) + c
  {
  }

  lemma ExpandEnds(rep: Text, k: nat, hay: Text, pat: Text, pos: nat)
    requires k >= |rep| && pos + |pat| <= |hay|
    ensures Expand(rep, k, hay, pat, pos) == []
  {
  }

  // ---------------------------------------------------------------- replace

  method CountMatches(hay: Text, pat: Text, all: bool) returns (matches: nat)
    ensures matches == |Hits(hay, pat, 0, all)|
  {
    hide First, MatchAt;
    matches := 0;
    var scan: nat := 0;
    while scan <= |hay|
      invariant matches + |Hits(hay, pat, scan, all)| == |Hits(hay, pat, 0, all)|
      decreases |hay| + |pat| + 1 - scan
    {
      var hit := IndexOfFrom(hay, pat, scan);
      if hit < 0 {
        return;
      }
      MatchFits(hay, pat, hit);
      matches := matches + 1;
      if !all {
        return;
      }
      scan := hit + Advance(pat);
    }
  }

  /** The matches still to come when `m` are done: the search position finds the next one. */
  ghost predicate Remaining(hay: Text, pat: Text, all: bool, m: nat, scan: nat, tail: nat, hs: seq<nat>) {
    && hs == Hits(hay, pat, 0, all) && m <= |hs| && tail <= |hay|
    && (if m < |hs| then tail <= hs[m] && First(hay, pat, scan) == hs[m] else true)
    && Taken(hay, pat, 0, hs[m..])
  }

  /** Without `all` there is one match; with it, the next is the first past the last. */
  lemma {:induction false} NextHit(hay: Text, pat: Text, scan: nat, all: bool, m: nat)
    requires m < |Hits(hay, pat, scan, all)|
    ensures var hs := Hits(hay, pat, scan, all);
      && First(hay, pat, if m == 0 then scan else hs[m - 1] + Advance(pat)) == hs[m]
    decreases m
  {
    hide First, MatchAt;
    var hit := First(hay, pat, scan);
    if m > 0 {
      var rest := Hits(hay, pat, hit + Advance(pat), all);
      assert Hits(hay, pat, scan, all) == [hit] + rest;
      NextHit(hay, pat, hit + Advance(pat), all, m - 1);
    }
  }

  lemma RemainingStarts(hay: Text, pat: Text, all: bool)
    ensures Remaining(hay, pat, all, 0, 0, 0, Hits(hay, pat, 0, all))
  {
    hide First, MatchAt, Hits, Taken;
    var hs := Hits(hay, pat, 0, all);
    HitsAre(hay, pat, 0, all);
    assert hs[0..] == hs;
    if hs != [] { NextHit(hay, pat, 0, all, 0); }
  }

  /** The next match, and the state once it is done. */
  lemma RemainingNext(hay: Text, pat: Text, rep: Text, all: bool, m: nat, scan: nat, tail: nat, hs: seq<nat>)
    requires Remaining(hay, pat, all, m, scan, tail, hs) && m < |hs|
    ensures var hit := hs[m];
      && tail <= hit && hit + |pat| <= |hay| && First(hay, pat, scan) == hit
      && Remaining(hay, pat, all, m + 1, hit + Advance(pat), hit + |pat|, hs)
      && Spliced(hay, pat, rep, hs[m..], tail)
           == hay[tail..hit] + Expand(rep, 0, hay, pat, hit) + Spliced(hay, pat, rep, hs[m + 1..], hit + |pat|)
  {
    hide First, MatchAt, Hits, Expand;
    TailTaken(hay, pat, hs[m..]);
    assert hs[m..][1..] == hs[m + 1..] && hs[m..][0] == hs[m];
    if m + 1 < |hs| {
      NextHit(hay, pat, 0, all, m + 1);
      assert hs[m + 1..][0] == hs[m + 1];
    }
  }

  /** The length of the result: what the matches keep, what they become, and the rest. */
  method MeasureReplace(hay: Text, pat: Text, rep: Text, all: bool, matches: nat) returns (total: nat)
    requires matches == |Hits(hay, pat, 0, all)|
    ensures total == |Replaced(hay, pat, rep, all)|
  {
    hide First, MatchAt, Hits, Expand, Taken, Spliced;
    ghost var hs := Hits(hay, pat, 0, all);
    total := 0;
    var tailStart: nat, scan: nat := 0, 0;
    RemainingStarts(hay, pat, all);
    assert hs[0..] == hs;
    for m := 0 to matches
      invariant Remaining(hay, pat, all, m, scan, tailStart, hs)
      invariant total + |Spliced(hay, pat, rep, hs[m..], tailStart)| == |Replaced(hay, pat, rep, all)|
    {
      RemainingNext(hay, pat, rep, all, m, scan, tailStart, hs);
      var hit := IndexOfFrom(hay, pat, scan);
      var subLen := SubstitutionLength(rep, hay, pat, hit);
      total := total + (hit - tailStart) + subLen;
      tailStart := hit + |pat|;
      scan := hit + Advance(pat);
    }
    SplicedEnds(hay, pat, rep, hs[matches..], tailStart);
    total := total + (|hay| - tailStart);
  }

  lemma SplicedEnds(hay: Text, pat: Text, rep: Text, hs: seq<nat>, tail: nat)
    requires hs == [] && tail <= |hay|
    ensures Spliced(hay, pat, rep, hs, tail) == hay[tail..]
  {
  }

  /** `replace_impl`: as many units as were measured. */
  method ReplaceImpl(hay: Text, pat: Text, rep: Text, all: bool) returns (out: array<Unit>)
    ensures fresh(out) && out[..] == Replaced(hay, pat, rep, all)
  {
    hide First, MatchAt, Hits, Expand, Taken, Spliced;
    var matches := CountMatches(hay, pat, all);
    ghost var hs := Hits(hay, pat, 0, all);
    if matches == 0 {
      SplicedEnds(hay, pat, rep, hs, 0);
      out := new Unit[|hay|](i requires 0 <= i < |hay| => hay[i]);
      assert out[..] == hay == hay[0..];
      return;
    }
    var total := MeasureReplace(hay, pat, rep, all, matches);
    out := new Unit[total](_ => 0);
    var at: nat, tailStart: nat, scan: nat := 0, 0, 0;
    RemainingStarts(hay, pat, all);
    assert hs[0..] == hs;
    ghost var rest := Spliced(hay, pat, rep, hs, 0);
    assert out[..0] + rest == rest;
    for m := 0 to matches
      invariant Remaining(hay, pat, all, m, scan, tailStart, hs) && out.Length == total
      invariant rest == Spliced(hay, pat, rep, hs[m..], tailStart) && at + |rest| == total
      invariant out[..at] + rest == Replaced(hay, pat, rep, all)
    {
      RemainingNext(hay, pat, rep, all, m, scan, tailStart, hs);
      var hit := IndexOfFrom(hay, pat, scan);
      ghost var done := out[..at];
      at := EmitUnits(out, at, hay[tailStart..hit]);
      at := SubstitutionEmit(out, at, rep, hay, pat, hit);
      rest := Spliced(hay, pat, rep, hs[m + 1..], hit + |pat|);
      Regrouped(done, hay[tailStart..hit], Expand(rep, 0, hay, pat, hit), rest);
      tailStart := hit + |pat|;
      scan := hit + Advance(pat);
    }
    SplicedEnds(hay, pat, rep, hs[matches..], tailStart);
    at := EmitUnits(out, at, hay[tailStart..]);
    assert out[..at] == out[..];
  }

  lemma Regrouped(done: Text, a: Text, b: Text, rest: Text)
    ensures done + (a + b + rest) == (done + a + b) + rest
  {
  }
}

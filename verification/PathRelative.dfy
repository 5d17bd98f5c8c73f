/** `relative`, the inverse of `resolve` (packages/node/src/path.ts). */
module PathRelative {
  import opened PathModel
  import opened PathRuntime

  /** The way from one place to another, as text; the same place is "". */
  function RelativeText(from: seq<string>, to: seq<string>): string { Join(Way(from, to)) }

  // ---------------------------------------------------------------- segments and characters

  /** The first segment of a text is what precedes its first slash. */
  lemma SplitFirst(x: string, m: nat)
    requires m <= |x| && SLASH !in x[..m] && (m < |x| ==> x[m] == SLASH)
    ensures Split(x)[0] == x[..m]
    ensures m < |x| ==> Split(x) == [x[..m]] + Split(x[m + 1..])
    ensures m == |x| ==> Split(x) == [x]
  {
    hide Split;
    SplitOne(x[..m]);
    if m < |x| {
      assert x == x[..m] + "/" + x[m + 1..];
      SplitConcat(x[..m], x[m + 1..]);
    } else {
      assert x[..m] == x;
    }
  }

  lemma FirstSlash(x: string) returns (m: nat)
    ensures m <= |x| && SLASH !in x[..m] && (m < |x| ==> x[m] == SLASH)
  {
    m := 0;
    while m < |x| && x[m] != SLASH
      invariant m <= |x| && SLASH !in x[..m]
    {
      m := m + 1;
    }
  }

  lemma SplitCons(c: char, y: string)
    ensures |Split([c] + y)| == |Split(y)| + (if c == SLASH then 1 else 0)
  {
    var m := FirstSlash(y);
    SplitFirst(y, m);
    if c == SLASH {
      SplitLed(y);
      assert "/" + y == [c] + y;
    } else {
      var x := [c] + y;
      assert x[..m + 1] == [c] + y[..m];
      SplitFirst(x, m + 1);
      if m < |y| { assert x[m + 2..] == y[m + 1..]; }
    }
  }

  lemma {:induction false} JoinUps(n: nat)
    ensures Join(Ups(n + 1)) == if n == 0 then ".." else Join(Ups(n)) + "/.."
    ensures n > 0 ==> |Join(Ups(n))| > 0
  {
    assert Ups(n + 1)[..n] == Ups(n);
    if n > 0 { JoinUps(n - 1); }
  }

  /** `..` once for every segment of `source[start..]`. */
  method ClimbOut(source: string, start: nat) returns (out: string)
    requires start <= |source|
    ensures out == Join(Ups(|Split(source[start..])|))
  {
    out := "";
    ghost var n := 0;
    var j := start;
    while j <= |source|
      invariant start <= j <= |source| + 1
      invariant out == Join(Ups(n))
      invariant j <= |source| ==> n + |Split(source[j..])| == |Split(source[start..])|
      invariant j > |source| ==> n == |Split(source[start..])|
    {
      if j < |source| {
        assert source[j..] == [source[j]] + source[j + 1..];
        SplitCons(source[j], source[j + 1..]);
      } else {
        assert source[j..] == "";
      }
      if j == |source| || source[j] == SLASH {
        JoinUps(n);
        out := out + (if |out| == 0 then ".." else "/..");
        n := n + 1;
      }
      j := j + 1;
    }
  }

  // ---------------------------------------------------------------- the common part

  /** The first `k` characters of both texts are the same whole segments. */
  ghost predicate SharedAt(s: string, t: string, k: nat) {
    && k <= |s| && k <= |t| && s[..k] == t[..k]
    && (k < |s| ==> s[k] == SLASH)
    && (k < |t| ==> t[k] == SLASH)
  }

  lemma SplitAt(s: string, k: nat)
    requires k < |s| && s[k] == SLASH
    ensures Split(s) == Split(s[..k]) + Split(s[k + 1..])
  {
    assert s == s[..k] + "/" + s[k + 1..];
    SplitConcat(s[..k], s[k + 1..]);
  }

  /** If both texts agree up to `start` and go on with the same segment, they share it whole. */
  lemma SameSegment(s: string, t: string, start: nat) returns (e: nat)
    requires start <= |s| && start <= |t| && s[..start] == t[..start]
    requires Split(s[start..])[0] == Split(t[start..])[0]
    ensures start <= e && SharedAt(s, t, e)
  {
    var x, y := s[start..], t[start..];
    var m := FirstSlash(x);
    var n := FirstSlash(y);
    SplitFirst(x, m);
    SplitFirst(y, n);
    assert x[..m] == y[..n] && m == n;
    e := start + m;
    assert s[..e] == s[..start] + x[..m] && t[..e] == t[..start] + y[..n];
  }

  /** `k` is the last place where the two texts share whole segments. */
  ghost predicate LastShared(s: string, t: string, k: int) {
    && (k >= 0 ==> SharedAt(s, t, k))
    && forall e :: k < e && 0 <= e <= |s| && e <= |t| ==> !SharedAt(s, t, e)
  }

  /** The whole segments two texts share, when the last place they share some is `k`. */
  lemma SharedSegments(s: string, t: string, k: nat)
    requires LastShared(s, t, k)
    ensures var c := |Split(s[..k])|;
      && Split(s) == Split(s[..k]) + (if k < |s| then Split(s[k + 1..]) else [])
      && Split(t) == Split(s[..k]) + (if k < |t| then Split(t[k + 1..]) else [])
      && Common(Split(s), Split(t)) == c
  {
    hide Split, Common;
    if k < |s| { SplitAt(s, k); } else { assert s[..k] == s; }
    if k < |t| { SplitAt(t, k); } else { assert t[..k] == t; }
    if k < |s| && k < |t| && Split(s[k + 1..])[0] == Split(t[k + 1..])[0] {
      assert s[..k + 1] == s[..k] + "/" == t[..k + 1];
      var e := SameSegment(s, t, k + 1);
    }
    CommonOf(Split(s[..k]), if k < |s| then Split(s[k + 1..]) else [], if k < |t| then Split(t[k + 1..]) else []);
  }

  lemma CommonOf(p: seq<string>, a: seq<string>, b: seq<string>)
    requires a == [] || b == [] || a[0] != b[0]
    ensures Common(p + a, p + b) == |p|
  {
    CommonIs(p + a, p + b, |p|);
  }

  lemma NothingShared(s: string, t: string)
    requires LastShared(s, t, -1)
    ensures Common(Split(s), Split(t)) == 0
  {
    if Split(s)[0] == Split(t)[0] {
      assert s[0..] == s && t[0..] == t;
      var e := SameSegment(s, t, 0);
    }
    CommonIs(Split(s), Split(t), 0);
  }

  // ---------------------------------------------------------------- relative

  lemma PlainText(segs: seq<string>)
    requires Plain(segs)
    ensures Join(segs) == "" <==> segs == []
    ensures segs != [] ==> Split(Join(segs)) == segs && Join(segs)[0] != SLASH
  {
    JoinEmpty(segs);
    if segs != [] {
      SplitJoin(segs);
      FirstChar(segs, false);
    }
  }

  /** The characters two texts agree on, and the last slash among them: the loop of `relative`. */
  method CommonCharacters(source: string, target: string, length: nat) returns (i: nat, lastCommonSep: int)
    requires length < |source| && length < |target|
    ensures i <= length && source[1..][..i] == target[1..][..i]
    ensures i < length ==> source[1 + i] != target[1 + i]
    ensures -1 <= lastCommonSep < i && (lastCommonSep >= 0 ==> source[1 + lastCommonSep] == SLASH)
    ensures forall e :: 1 + lastCommonSep < e < 1 + i ==> source[e] != SLASH
  {
    lastCommonSep := -1;
    i := 0;
    while i < length
      invariant i <= length && source[1..][..i] == target[1..][..i]
      invariant -1 <= lastCommonSep < i && (lastCommonSep >= 0 ==> source[1 + lastCommonSep] == SLASH)
      invariant forall e :: 1 + lastCommonSep < e < 1 + i ==> source[e] != SLASH
    {
      var code := source[1 + i];
      if code != target[1 + i] {
        break;
      }
      if code == SLASH {
        lastCommonSep := i;
      }
      i := i + 1;
    }
  }

  lemma AgreeBelow(s: string, t: string, e: nat, i: nat)
    requires i < e <= |s| && e <= |t| && s[..e] == t[..e]
    ensures s[i] == t[i]
  {
    assert s[i] == s[..e][i] && t[i] == t[..e][i];
  }

  /** Where the loop ends decides the last place the two texts share whole segments. */
  lemma LoopFindsLastShared(s: string, t: string, i: nat, sep: int)
    requires s != t && i <= |s| && i <= |t| && s[..i] == t[..i]
    requires i == |s| || i == |t| || s[i] != t[i]
    requires -1 <= sep < i && (sep >= 0 ==> s[sep] == SLASH)
    requires forall e :: sep < e < i ==> s[e] != SLASH
    ensures LastShared(s, t, if SharedAt(s, t, i) then i else sep)
  {
    if sep >= 0 { assert s[..sep] == s[..i][..sep] && t[..sep] == t[..i][..sep]; }
    if sep >= 0 { assert s[..i][sep] == t[..i][sep]; }
    forall e: nat | sep < e && e <= |s| && e <= |t| && SharedAt(s, t, e)
      ensures e == i
    {
      if e > i { AgreeBelow(s, t, e, i); }
    }
  }

  lemma WayOf(p: seq<string>, a: seq<string>, b: seq<string>)
    requires Common(p + a, p + b) == |p|
    ensures Way(p + a, p + b) == Ups(|a|) + b
  {
    assert (p + b)[|p|..] == b;
  }

  lemma WayAtShared(s: string, t: string, k: nat)
    requires k < |s| && k < |t| && LastShared(s, t, k)
    ensures Way(Split(s), Split(t)) == Ups(|Split(s[k + 1..])|) + Split(t[k + 1..])
  {
    SharedSegments(s, t, k);
    WayOf(Split(s[..k]), Split(s[k + 1..]), Split(t[k + 1..]));
  }

  lemma WayToAncestor(s: string, t: string, k: nat)
    requires k < |s| && k == |t| && LastShared(s, t, k)
    ensures Way(Split(s), Split(t)) == Ups(|Split(s[k + 1..])|)
  {
    SharedSegments(s, t, k);
    WayOf(Split(s[..k]), Split(s[k + 1..]), []);
  }

  lemma WayAtNothing(s: string, t: string)
    requires LastShared(s, t, -1)
    ensures Way(Split(s), Split(t)) == Ups(|Split(s)|) + Split(t)
  {
    NothingShared(s, t);
    assert [] + Split(s) == Split(s) && [] + Split(t) == Split(t);
    WayOf([], Split(s), Split(t));
  }

  lemma WayJoined(n: nat, text: string)
    requires n > 0
    ensures Join(Ups(n) + Split(text)) == Join(Ups(n)) + "/" + text
  {
    JoinSplit(text);
    JoinConcat(Ups(n), Split(text));
  }

  /** What the slice of the target from the separator on holds. */
  lemma TailText(t: string, k: nat)
    requires k <= |t| && (k < |t| ==> t[k] == SLASH)
    ensures ("/" + t)[1 + k..] == if k < |t| then "/" + t[k + 1..] else ""
  {
  }

  /** `..` for every segment of the source past `k`, then the rest of the target. */
  lemma WayText(s: string, t: string, k: nat)
    requires k < |s| && k <= |t| && LastShared(s, t, k)
    ensures Join(Ups(|Split(s[k + 1..])|)) + ("/" + t)[1 + k..] == RelativeText(Split(s), Split(t))
  {
    TailText(t, k);
    if k == |t| {
      WayToAncestor(s, t, k);
    } else {
      WayAtShared(s, t, k);
      WayJoined(|Split(s[k + 1..])|, t[k + 1..]);
    }
  }

  lemma WayTextNothing(s: string, t: string)
    requires LastShared(s, t, -1)
    ensures Join(Ups(|Split(s)|)) + ("/" + t) == RelativeText(Split(s), Split(t))
  {
    WayAtNothing(s, t);
    WayJoined(|Split(s)|, t);
  }

  /** The last part of `relative`: up from the source to `k`, down to the target. */
  method ClimbAndAppend(source: string, target: string, k: int, ghost S: seq<string>, ghost T: seq<string>) returns (r: string)
    requires Plain(S) && Plain(T) && S != [] && source == "/" + Join(S) && target == "/" + Join(T)
    requires -1 <= k < |Join(S)| && k <= |Join(T)| && Join(S) != ""
    requires if T == [] then k == 0 else LastShared(Join(S), Join(T), k)
    ensures r == RelativeText(S, T)
  {
    hide Split, Plain, RelativeText, LastShared;
    var out := ClimbOut(source, 1 + k + 1);
    var down := target[1 + k..];
    if k < 0 {
      WholeTail(Join(S), Join(T), source[1 + k + 1..], down, k);
      ClimbAll(S, T);
    } else {
      PartTail(Join(S), source[1 + k + 1..], k);
      ClimbTarget(S, T, k);
    }
    return out + down;
  }

  lemma WholeTail(s: string, t: string, up: string, down: string, k: int)
    requires k == -1 && up == ("/" + s)[1 + k + 1..] && down == ("/" + t)[1 + k..]
    ensures up == s && down == "/" + t
  {
  }

  lemma PartTail(s: string, up: string, k: nat)
    requires k < |s| && up == ("/" + s)[1 + k + 1..]
    ensures up == s[k + 1..]
  {
  }

  lemma ClimbAll(S: seq<string>, T: seq<string>)
    requires Plain(S) && Plain(T) && S != [] && T != [] && Join(S) != "" && LastShared(Join(S), Join(T), -1)
    ensures Join(Ups(|Split(Join(S))|)) + ("/" + Join(T)) == RelativeText(S, T)
  {
    hide Split, Join, Reduce, RelativeText, LastShared;
    PlainText(S);
    PlainText(T);
    WayTextNothing(Join(S), Join(T));
  }

  lemma ClimbTarget(S: seq<string>, T: seq<string>, k: nat)
    requires Plain(S) && Plain(T) && S != []
    requires k < |Join(S)| && k <= |Join(T)| && Join(S) != ""
    requires if T == [] then k == 0 else LastShared(Join(S), Join(T), k)
    ensures Join(Ups(|Split(Join(S)[k + 1..])|)) + ("/" + Join(T))[1 + k..] == RelativeText(S, T)
  {
    if T == [] {
      ToRoot(S, T, k);
      assert ("/" + Join(T))[1 + k..] == "";
    } else {
      hide Split, Join, Reduce, RelativeText, LastShared;
      PlainText(S);
      PlainText(T);
      WayText(Join(S), Join(T), k);
    }
  }

  /** `relative` once both paths are resolved, and differ. */
  method RelativeOf(source: string, target: string, ghost S: seq<string>, ghost T: seq<string>) returns (r: string)
    requires Plain(S) && Plain(T) && source == "/" + Join(S) && target == "/" + Join(T) && source != target
    ensures r == RelativeText(S, T)
  {
    hide Split, Join, Plain, RelativeText, LastShared;
    PlainText(S);
    PlainText(T);
    var fromLen := |source| - 1;
    var toLen := |target| - 1;
    var length := if fromLen < toLen then fromLen else toLen;
    var i, lastCommonSep := CommonCharacters(source, target, length);
    assert source[1..] == Join(S) && target[1..] == Join(T);
    LoopFindsLastShared(Join(S), Join(T), i, lastCommonSep);
    if i == length {
      if toLen > length {
        if target[1 + i] == SLASH {
          DownOnly(S, T, i);
          return target[1 + i + 1..];
        }
        if i == 0 {
          FromRoot(S, T);
          return target[1 + i..];
        }
      } else if fromLen > length {
        if source[1 + i] == SLASH {
          lastCommonSep := i;
        } else if i == 0 {
          lastCommonSep := 0;
        }
      }
    }
    r := ClimbAndAppend(source, target, lastCommonSep, S, T);
  }

  method Relative(from: string, to: string, cwd: string) returns (r: string)
    requires Anchored([from], cwd) && Anchored([to], cwd)
    ensures r == RelativeText(Place([from], cwd), Place([to], cwd))
  {
    ghost var S, T := Place([from], cwd), Place([to], cwd);
    if from == to {
      SameWay(S);
      return "";
    }
    ResolvedIsPlace([from], cwd);
    ResolvedIsPlace([to], cwd);
    var source := Resolve([from], cwd);
    var target := Resolve([to], cwd);
    if source == target {
      assert source[1..] == Join(S) && target[1..] == Join(T);
      SamePlace(S, T);
      SameWay(S);
      return "";
    }
    r := RelativeOf(source, target, S, T);
  }

  lemma SameWay(segs: seq<string>)
    ensures RelativeText(segs, segs) == ""
  {
    CommonIs(segs, segs, |segs|);
  }

  lemma SamePlace(a: seq<string>, b: seq<string>)
    requires Plain(a) && Plain(b) && Join(a) == Join(b)
    ensures a == b
  {
    PlainText(a);
    PlainText(b);
  }

  /** The source is an ancestor of the target. */
  lemma DownOnly(from: seq<string>, to: seq<string>, i: nat)
    requires Plain(from) && Plain(to)
    requires var s, t := Join(from), Join(to); i == |s| < |t| && s == t[..i] && t[i] == SLASH
    ensures RelativeText(from, to) == Join(to)[i + 1..]
  {
    var s, t := Join(from), Join(to);
    PlainText(from);
    PlainText(to);
    SplitAt(t, i);
    CommonOf(from, [], Split(t[i + 1..]));
    assert from + [] == from;
    assert Ups(0) + to[|from|..] == Split(t[i + 1..]);
    JoinSplit(t[i + 1..]);
  }

  lemma FromRoot(from: seq<string>, to: seq<string>)
    requires from == []
    ensures RelativeText(from, to) == Join(to)
  {
    assert Ups(0) + to[0..] == to;
  }

  lemma ToRoot(from: seq<string>, to: seq<string>, k: int)
    requires Plain(from) && from != [] && to == [] && k == 0 && Join(from) != ""
    ensures RelativeText(from, to) == Join(Ups(|Split(Join(from)[1..])|))
  {
    hide Split, Join;
    var s := Join(from);
    PlainText(from);
    assert s == [s[0]] + s[1..];
    SplitCons(s[0], s[1..]);
    assert Ups(|from|) + to[0..] == Ups(|from|);
  }

  /** `resolve(from, relative(from, to)) = resolve(to)`: every common-prefix, partial segment and root case
      included. It fails where `resolve(to)` is a working directory that is not canonical, and only there. */
  lemma RelativeInvertsResolve(from: string, to: string, cwd: string)
    requires IsAbsolute(cwd) || IsAbsolute(from)
    ensures Resolved([from, RelativeText(Place([from], cwd), Place([to], cwd))], cwd) == Resolved([to], cwd)
      <==> Anchored([to], cwd)
  {
    var S, T := Place([from], cwd), Place([to], cwd);
    var rel := RelativeText(S, T);
    AnyAbsolute(from, rel, cwd);
    ResolvedIsPlace([from, rel], cwd);
    ResolvedIsPlace([from], cwd);
    ResolvedIsPlace([to], cwd);
    assert [from] + [rel] == [from, rel];
    assert [from, rel][..1] == [from];
    if Way(S, T) == [] {
      assert S == T by { assert S[..|S|] == S && T[..|T|] == T; }
    } else {
      WaySegments(S, T);
      PlaceSnoc([from], rel, cwd);
      ClimbAndDescend(S, T, Common(S, T));
    }
  }

  /** So it holds between any paths from a canonical directory, and to an absolute path from any. */
  lemma RelativeInverts(from: string, to: string, cwd: string)
    requires CanonicalDir(cwd) || (IsAbsolute(to) && (IsAbsolute(cwd) || IsAbsolute(from)))
    ensures Resolved([from, RelativeText(Place([from], cwd), Place([to], cwd))], cwd) == Resolved([to], cwd)
  {
    AnchoredBy([to], cwd);
    RelativeInvertsResolve(from, to, cwd);
  }

  lemma WaySegments(from: seq<string>, to: seq<string>)
    requires Plain(from) && Plain(to) && Way(from, to) != []
    ensures Split(RelativeText(from, to)) == Way(from, to)
    ensures RelativeText(from, to) != "" && !IsAbsolute(RelativeText(from, to))
  {
    var way := Way(from, to);
    assert Reduced(way, true) by {
      assert Name(DOTDOT) by { assert |DOT| == 1; }
      var n := |from| - Common(from, to);
      forall i | 0 <= i < |way| ensures Name(way[i]) && (way[i] == DOTDOT ==> i < n) {
        if i >= n { assert way[i] == to[Common(from, to) + i - n]; }
      }
    }
    SplitJoin(way);
    FirstChar(way, true);
  }
}

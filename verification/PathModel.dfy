/** Paths as segments: what `node:path` means (packages/node/src/path.ts). */
module PathModel {
  const SLASH := '/'
  const DOT := "."
  const DOTDOT := ".."

  /** The text between slashes; always at least one piece. */
  function Split(s: string): (segs: seq<string>)
    ensures |segs| > 0
  {
    if s == "" then [""] else AddChar(Split(s[..|s| - 1]), s[|s| - 1])
  }

  function AddChar(segs: seq<string>, c: char): (r: seq<string>)
    requires segs != []
    ensures |r| > 0
  {
    var n := |segs| - 1;
    if c == SLASH then segs + [""] else segs[n := segs[n] + [c]]
  }

  function Join(segs: seq<string>): string {
    if segs == [] then ""
    else if |segs| == 1 then segs[0]
    else Join(segs[..|segs| - 1]) + "/" + segs[|segs| - 1]
  }

  /** One segment against the directories above it. */
  function Enter(stack: seq<string>, seg: string, allowAboveRoot: bool): seq<string> {
    if seg == "" || seg == DOT then stack
    else if seg != DOTDOT then stack + [seg]
    else if stack != [] && stack[|stack| - 1] != DOTDOT then stack[..|stack| - 1]
    else if allowAboveRoot then stack + [DOTDOT]
    else stack
  }

  function Reduce(stack: seq<string>, segs: seq<string>, allowAboveRoot: bool): seq<string> {
    if segs == [] then stack
    else Enter(Reduce(stack, segs[..|segs| - 1], allowAboveRoot), segs[|segs| - 1], allowAboveRoot)
  }

  /** What a fold leaves: names, behind leading `..`s when those may be kept. */
  ghost predicate Reduced(stack: seq<string>, allowAboveRoot: bool) {
    && (forall i :: 0 <= i < |stack| ==> Name(stack[i]))
    && (forall i :: 0 <= i < |stack| && stack[i] == DOTDOT ==> allowAboveRoot && forall j :: 0 <= j < i ==> stack[j] == DOTDOT)
  }

  ghost predicate Name(seg: string) { seg != "" && seg != DOT && SLASH !in seg }

  ghost predicate Plain(stack: seq<string>) {
    forall i :: 0 <= i < |stack| ==> Name(stack[i]) && stack[i] != DOTDOT
  }

  // ---------------------------------------------------------------- splitting

  lemma {:induction false} SplitNoSlash(s: string)
    ensures forall i :: 0 <= i < |Split(s)| ==> SLASH !in Split(s)[i]
  {
    if s != "" { SplitNoSlash(s[..|s| - 1]); }
  }

  lemma {:induction false} SplitOne(s: string)
    requires SLASH !in s
    ensures Split(s) == [s]
  {
    if s != "" {
      var n := |s| - 1;
      assert s[n] != SLASH;
      SplitOne(s[..n]);
      assert s == s[..n] + [s[n]];
    }
  }

  lemma SplitSnoc(s: string, c: char)
    ensures Split(s + [c]) == AddChar(Split(s), c)
  {
    assert (s + [c])[..|s|] == s;
  }

  lemma {:induction false} SplitConcat(a: string, b: string)
    ensures Split(a + "/" + b) == Split(a) + Split(b)
  {
    if b == "" {
      SplitSnoc(a, SLASH);
      assert a + "/" + b == a + [SLASH];
    } else {
      var n := |b| - 1;
      SplitConcat(a, b[..n]);
      SplitSnoc(a + "/" + b[..n], b[n]);
      assert a + "/" + b == a + "/" + b[..n] + [b[n]];
      AddCharRight(Split(a), Split(b[..n]), b[n]);
    }
  }

  lemma AddCharRight(x: seq<string>, y: seq<string>, c: char)
    requires y != []
    ensures AddChar(x + y, c) == x + AddChar(y, c)
  {
  }

  lemma {:induction false} SplitJoin(segs: seq<string>)
    requires segs != [] && forall i :: 0 <= i < |segs| ==> SLASH !in segs[i]
    ensures Split(Join(segs)) == segs
  {
    hide Split;
    var n := |segs| - 1;
    SplitOne(segs[n]);
    if n > 0 {
      var init := segs[..n];
      assert forall i :: 0 <= i < n ==> init[i] == segs[i];
      SplitJoin(init);
      SplitConcat(Join(init), segs[n]);
      assert init + [segs[n]] == segs;
    }
  }

  lemma {:induction false} JoinConcat(a: seq<string>, b: seq<string>)
    requires a != [] && b != []
    ensures Join(a + b) == Join(a) + "/" + Join(b)
  {
    var n := |b| - 1;
    if n == 0 {
      assert (a + b)[..|a|] == a;
    } else {
      JoinConcat(a, b[..n]);
      assert b == b[..n] + [b[n]];
      assert (a + b)[..|a + b| - 1] == a + b[..n];
    }
  }

  lemma {:induction false} JoinSplit(s: string)
    ensures Join(Split(s)) == s
  {
    if s != "" {
      var n := |s| - 1;
      JoinSplit(s[..n]);
      JoinAddChar(Split(s[..n]), s[n]);
    }
  }

  lemma JoinAddChar(segs: seq<string>, c: char)
    requires segs != []
    ensures Join(AddChar(segs, c)) == Join(segs) + [c]
  {
    var n := |segs| - 1;
    if c == SLASH {
      assert (segs + [""])[..|segs|] == segs;
    } else {
      assert AddChar(segs, c)[..n] == segs[..n];
    }
  }

  // ---------------------------------------------------------------- reducing

  lemma {:induction false} ReduceConcat(stack: seq<string>, a: seq<string>, b: seq<string>, allow: bool)
    ensures Reduce(stack, a + b, allow) == Reduce(Reduce(stack, a, allow), b, allow)
  {
    if b == [] {
      assert a + b == a;
    } else {
      ReduceConcat(stack, a, b[..|b| - 1], allow);
      assert (a + b)[..|a + b| - 1] == a + b[..|b| - 1];
    }
  }

  lemma {:induction false} ReduceIsReduced(stack: seq<string>, segs: seq<string>, allow: bool)
    requires Reduced(stack, allow)
    requires forall i :: 0 <= i < |segs| ==> SLASH !in segs[i]
    ensures Reduced(Reduce(stack, segs, allow), allow)
  {
    if segs != [] { ReduceIsReduced(stack, segs[..|segs| - 1], allow); }
  }

  /** Reducing what is reduced changes nothing. */
  lemma {:induction false} ReducedIsFixed(segs: seq<string>, allow: bool)
    requires Reduced(segs, allow)
    ensures Reduce([], segs, allow) == segs
  {
    if segs != [] {
      var n := |segs| - 1;
      var init := segs[..n];
      assert Reduced(init, allow) by { assert forall i :: 0 <= i < n ==> init[i] == segs[i]; }
      ReducedIsFixed(init, allow);
      assert segs == init + [segs[n]];
      assert Name(segs[n]);
      if segs[n] == DOTDOT && n > 0 { assert init[n - 1] == segs[n - 1] == DOTDOT; }
    }
  }

  lemma {:induction false} ReducePlain(stack: seq<string>, segs: seq<string>, allow: bool)
    requires Plain(segs)
    ensures Reduce(stack, segs, allow) == stack + segs
  {
    if segs != [] {
      var n := |segs| - 1;
      ReducePlain(stack, segs[..n], allow);
      assert segs == segs[..n] + [segs[n]];
    }
  }

  /** Below any base, a relative path and its reduction lead to the same place. */
  lemma {:induction false} ReduceKeepsMeaning(base: seq<string>, segs: seq<string>)
    ensures Reduce(base, Reduce([], segs, true), false) == Reduce(base, segs, false)
  {
    if segs != [] {
      var n := |segs| - 1;
      ReduceKeepsMeaning(base, segs[..n]);
      var r := Reduce([], segs[..n], true);
      if segs[n] != DOTDOT || r == [] || r[|r| - 1] == DOTDOT {
        assert (r + [segs[n]])[..|r|] == r;
      } else {
        var k := |r| - 1;
        ReduceNames(segs[..n]);
        assert r == r[..k] + [r[k]];
      }
    }
  }

  lemma {:induction false} ReduceNames(segs: seq<string>)
    ensures NoEmpty(Reduce([], segs, true))
  {
    if segs != [] {
      ReduceNames(segs[..|segs| - 1]);
      EnterNames(Reduce([], segs[..|segs| - 1], true), segs[|segs| - 1]);
    }
  }

  ghost predicate NoEmpty(r: seq<string>) { forall i :: 0 <= i < |r| ==> r[i] != "" && r[i] != DOT }

  lemma EnterNames(r: seq<string>, seg: string)
    requires NoEmpty(r)
    ensures NoEmpty(Enter(r, seg, true))
  {
    assert |DOT| == 1 && |DOTDOT| == 2;
  }

  function Ups(n: nat): (ups: seq<string>)
    ensures |ups| == n && forall i :: 0 <= i < n ==> ups[i] == DOTDOT
  {
    seq(n, _ => DOTDOT)
  }

  lemma {:induction false} ReduceUps(stack: seq<string>, n: nat)
    requires Plain(stack) && n <= |stack|
    ensures Reduce(stack, Ups(n), false) == stack[..|stack| - n]
  {
    if n > 0 {
      ReduceUps(stack, n - 1);
      assert Ups(n)[..n - 1] == Ups(n - 1);
    }
  }

  lemma PlainRest(segs: seq<string>, c: nat)
    requires Plain(segs) && c <= |segs|
    ensures Plain(segs[c..])
  {
  }

  /** Climbing out of what two places do not share and down again reaches the other place. */
  lemma ClimbAndDescend(from: seq<string>, to: seq<string>, c: nat)
    requires Plain(from) && Plain(to) && c <= |from| && c <= |to| && from[..c] == to[..c]
    ensures Reduce(from, Ups(|from| - c) + to[c..], false) == to
  {
    hide Reduce, Plain;
    PlainRest(to, c);
    ReduceConcat(from, Ups(|from| - c), to[c..], false);
    ReduceUps(from, |from| - c);
    ReducePlain(from[..c], to[c..], false);
    assert from[..c] + to[c..] == to;
  }

  // ---------------------------------------------------------------- places

  predicate IsAbsolute(path: string) { |path| > 0 && path[0] == SLASH }

  /** The arguments of `resolve` that count: the nonempty ones from the last absolute one on. */
  function Used(paths: seq<string>): seq<string> {
    if paths == [] then []
    else
      var p := paths[|paths| - 1];
      if p == "" then Used(paths[..|paths| - 1])
      else if IsAbsolute(p) then [p]
      else Used(paths[..|paths| - 1]) + [p]
  }

  function WithCwd(used: seq<string>, cwd: string): (ps: seq<string>)
    ensures ps != []
  {
    if used != [] && IsAbsolute(used[0]) then used else [cwd] + used
  }

  function SplitAll(paths: seq<string>): seq<string> {
    if paths == [] then [] else Split(paths[0]) + SplitAll(paths[1..])
  }

  /** The segments of the place `paths` lead to, from the root. */
  function Place(paths: seq<string>, cwd: string): seq<string> {
    Reduce([], SplitAll(WithCwd(Used(paths), cwd)), false)
  }

  /** A working directory as the system reports it: absolute, no `.`, `..` or empty segment. */
  ghost predicate CanonicalDir(dir: string) {
    IsAbsolute(dir) && Plain(DirSegments(dir)) && dir == "/" + Join(DirSegments(dir))
  }

  ghost function DirSegments(dir: string): seq<string> { Reduce([], Split(dir), false) }

  lemma {:induction false} SplitAllConcat(a: seq<string>, b: seq<string>)
    ensures SplitAll(a + b) == SplitAll(a) + SplitAll(b)
  {
    if a == [] {
      assert a + b == b;
    } else {
      assert (a + b)[1..] == a[1..] + b;
      SplitAllConcat(a[1..], b);
    }
  }

  lemma {:induction false} SplitAllNoSlash(paths: seq<string>)
    ensures forall i :: 0 <= i < |SplitAll(paths)| ==> SLASH !in SplitAll(paths)[i]
  {
    if paths != [] {
      SplitNoSlash(paths[0]);
      SplitAllNoSlash(paths[1..]);
    }
  }

  lemma PlacePlain(paths: seq<string>, cwd: string)
    ensures Plain(Place(paths, cwd))
  {
    var segs := SplitAll(WithCwd(Used(paths), cwd));
    SplitAllNoSlash(WithCwd(Used(paths), cwd));
    ReduceIsReduced([], segs, false);
  }

  /** One more relative argument is followed from where the others lead. */
  lemma PlaceSnoc(paths: seq<string>, rel: string, cwd: string)
    requires rel != "" && !IsAbsolute(rel)
    ensures Place(paths + [rel], cwd) == Reduce(Place(paths, cwd), Split(rel), false)
  {
    assert (paths + [rel])[..|paths|] == paths;
    var before := WithCwd(Used(paths), cwd);
    assert WithCwd(Used(paths + [rel]), cwd) == before + [rel];
    SplitAllConcat(before, [rel]);
    assert SplitAll([rel]) == Split(rel) + SplitAll([rel][1..]);
    assert SplitAll([rel]) == Split(rel);
    ReduceConcat([], SplitAll(before), Split(rel), false);
  }

  lemma SplitAllOne(p: string)
    ensures SplitAll([p]) == Split(p)
  {
    assert SplitAll([p]) == Split(p) + SplitAll([p][1..]);
  }

  lemma PlaceAbsolute(paths: seq<string>, path: string, cwd: string)
    requires IsAbsolute(path)
    ensures Place(paths + [path], cwd) == Reduce([], Split(path), false)
  {
    assert (paths + [path])[..|paths|] == paths;
    SplitAllOne(path);
  }

  lemma ReduceSnoc(stack: seq<string>, done: seq<string>, seg: string, allow: bool)
    ensures Reduce(stack, done + [seg], allow) == Enter(Reduce(stack, done, allow), seg, allow)
  {
    assert (done + [seg])[..|done|] == done;
  }

  /** A `.` or nothing leads nowhere else. */
  lemma ReduceOne(stack: seq<string>, seg: string, allow: bool)
    ensures Reduce(stack, [seg], allow) == Enter(stack, seg, allow)
  {
    ReduceSnoc(stack, [], seg, allow);
    assert [] + [seg] == [seg];
  }

  lemma PlaceOfNothing(cwd: string)
    requires IsAbsolute(cwd)
    ensures Place([], cwd) == DirSegments(cwd)
    ensures Place([""], cwd) == DirSegments(cwd)
    ensures Place([DOT], cwd) == DirSegments(cwd)
  {
    SplitAllOne(cwd);
    assert [""][..0] == [];
    assert Used([""]) == [];
    PlaceSnoc([], DOT, cwd);
    assert [] + [DOT] == [DOT];
    SplitOne(DOT);
    ReduceOne(Place([], cwd), DOT, false);
  }

  // ---------------------------------------------------------------- the way from one place to another

  /** How many leading segments two places share. */
  function Common(a: seq<string>, b: seq<string>): (c: nat)
    ensures c <= |a| && c <= |b| && a[..c] == b[..c]
    ensures c == |a| || c == |b| || a[c] != b[c]
  {
    if a != [] && b != [] && a[0] == b[0] then 1 + Common(a[1..], b[1..]) else 0
  }

  lemma {:induction false} CommonIs(a: seq<string>, b: seq<string>, c: nat)
    requires c <= |a| && c <= |b| && a[..c] == b[..c]
    requires c == |a| || c == |b| || a[c] != b[c]
    ensures Common(a, b) == c
  {
    if c > 0 {
      assert a[0] == a[..c][0] == b[..c][0] == b[0];
      assert a[1..][..c - 1] == a[..c][1..] && b[1..][..c - 1] == b[..c][1..];
      CommonIs(a[1..], b[1..], c - 1);
    }
  }

  /** Up out of what is not shared, then down. */
  function Way(from: seq<string>, to: seq<string>): seq<string> {
    var c := Common(from, to);
    Ups(|from| - c) + to[c..]
  }

  /** How far two places are apart. */
  function Apart(a: seq<string>, b: seq<string>): int { |a| + |b| - 2 * Common(a, b) }

  /** One segment moves at most one step. */
  lemma OneStep(from: seq<string>, stack: seq<string>, seg: string)
    ensures Apart(from, Enter(stack, seg, false)) <= Apart(from, stack) + 1
  {
    var to := Enter(stack, seg, false);
    var c, d := Common(from, stack), Common(from, to);
    if |to| > |stack| {
      SharedAtLeast(from, to, c);
    } else if |to| < |stack| {
      SharedAtLeast(from, to, if c < |to| then c else |to|);
    }
  }

  lemma SharedAtLeast(a: seq<string>, b: seq<string>, c: nat)
    requires c <= |a| && c <= |b| && a[..c] == b[..c]
    ensures Common(a, b) >= c
  {
    forall k | 0 <= k < c ensures a[k] == b[k] { assert a[..c][k] == b[..c][k]; }
  }

  /** No relative path from one place to another has fewer segments than the way `relative` answers. */
  lemma {:induction false} WayIsShortest(from: seq<string>, w: seq<string>)
    ensures |Way(from, Reduce(from, w, false))| <= |w|
  {
    var to := Reduce(from, w, false);
    assert |Way(from, to)| == Apart(from, to);
    if w == [] {
      CommonIs(from, from, |from|);
    } else {
      var n := |w| - 1;
      WayIsShortest(from, w[..n]);
      OneStep(from, Reduce(from, w[..n], false), w[n]);
    }
  }

  /** An empty argument of `resolve` changes nothing, a relative one is followed from where the others lead, an
      absolute one starts again, and without any it is the directory. */
  lemma PlaceRules(paths: seq<string>, p: string, cwd: string)
    ensures Place([], cwd) == Reduce([], Split(cwd), false)
    ensures Place(paths + [p], cwd) ==
      if p == "" then Place(paths, cwd) else Reduce(if IsAbsolute(p) then [] else Place(paths, cwd), Split(p), false)
  {
    assert (paths + [p])[..|paths|] == paths;
    SplitAllOne(cwd);
    assert [cwd] + [] == [cwd];
    if IsAbsolute(p) { PlaceAbsolute(paths, p, cwd); } else if p != "" { PlaceSnoc(paths, p, cwd); }
  }
}

/** The path functions as the source runs them: one pass over characters, strings and counters updated
    in place (packages/node/src/path.ts). The working directory is a parameter. */
module PathRuntime {
  import opened PathModel

  /** What `path` folds to: its segments reduced, rejoined. */
  function Folded(path: string, allowAboveRoot: bool): string {
    Join(Reduce([], Split(path), allowAboveRoot))
  }

  // ---------------------------------------------------------------- the fold

  /** The counter `dots` of a segment read so far: its length while it is all dots, else -1. */
  function DotState(seg: string): int {
    if forall i :: 0 <= i < |seg| ==> seg[i] == '.' then |seg| else -1
  }

  function LastLength(stack: seq<string>): nat {
    if stack == [] then 0 else |stack[|stack| - 1]|
  }

  lemma LastSegment(stack: seq<string>, allow: bool)
    requires Reduced(stack, allow) && stack != []
    ensures var res, last := Join(stack), stack[|stack| - 1];
      && 1 <= |last| <= |res| && res[|res| - |last|..] == last
      && (|stack| == 1 ==> res == last)
      && (|stack| > 1 ==>
            && |res| >= |last| + 2
            && res[|res| - |last| - 1] == SLASH
            && res[..|res| - |last| - 1] == Join(stack[..|stack| - 1]))
  {
    if |stack| > 1 {
      var init := stack[..|stack| - 1];
      assert Reduced(init, allow) by { assert forall i :: 0 <= i < |init| ==> init[i] == stack[i]; }
      LastSegment(init, allow);
    }
  }

  method LastIndexOfSlash(s: string) returns (i: int)
    ensures -1 <= i < |s|
    ensures i >= 0 ==> s[i] == SLASH
    ensures forall j :: i < j < |s| ==> s[j] != SLASH
  {
    i := |s| - 1;
    while i >= 0 && s[i] != SLASH
      invariant -1 <= i < |s|
      invariant forall j :: i < j < |s| ==> s[j] != SLASH
    {
      i := i - 1;
    }
  }

  /** The `..` branch of the fold, on the text folded so far. */
  method FoldDotDot(res: string, lastSegmentLength: nat, allowAboveRoot: bool, ghost stack: seq<string>)
    returns (res': string, length: nat)
    requires Reduced(stack, allowAboveRoot) && res == Join(stack) && lastSegmentLength == LastLength(stack)
    ensures var stack' := Enter(stack, DOTDOT, allowAboveRoot); res' == Join(stack') && length == LastLength(stack')
  {
    hide Join, Reduced;
    TextFacts(stack, allowAboveRoot);
    var parentIsDotDot :=
      |res| >= 2 && lastSegmentLength == 2 && res[|res| - 1] == '.' && res[|res| - 2] == '.';
    if stack != [] { TwoDots(res, stack[|stack| - 1]); }
    if !parentIsDotDot && |res| > 2 {
      var lastSlashIndex := |res| - lastSegmentLength - 1;
      if lastSlashIndex == -1 {
        return "", 0;
      }
      res' := res[..lastSlashIndex];
      var last := LastIndexOfSlash(res');
      length := |res'| - 1 - last;
      LengthAfterPop(stack, allowAboveRoot, res', last);
      return;
    }
    if !parentIsDotDot && |res| != 0 {
      return "", 0;
    }
    res', length := res, lastSegmentLength;
    if allowAboveRoot {
      AddDotDot(stack);
      res' := if |res| > 0 then res + "/.." else "..";
      length := 2;
    }
  }

  /** What the text says of the last segment. */
  lemma TextFacts(stack: seq<string>, allow: bool)
    requires Reduced(stack, allow)
    ensures var res := Join(stack);
      && (stack == [] <==> res == "")
      && (stack != [] ==>
            var last := stack[|stack| - 1]; var n := |res| - |last|;
            && 1 <= |last| && n >= 0 && res[n..] == last && (last == DOTDOT || last != DOT)
            && (|stack| == 1 <==> n == 0) && (|stack| > 1 ==> n >= 2 && res[..n - 1] == Join(stack[..|stack| - 1])))
    ensures Join([]) == ""
  {
    if stack != [] {
      LastSegment(stack, allow);
      assert Name(stack[|stack| - 1]);
    }
  }

  lemma TwoDots(res: string, last: string)
    requires |res| >= |last| && res[|res| - |last|..] == last
    ensures last == DOTDOT <==> |last| == 2 && res[|res| - 1] == '.' && res[|res| - 2] == '.'
  {
    if |last| == 2 { assert last[0] == res[|res| - 2] && last[1] == res[|res| - 1]; }
  }

  lemma AddDotDot(stack: seq<string>)
    ensures Join(stack + [DOTDOT]) == if stack == [] then DOTDOT else Join(stack) + "/.."
  {
    assert (stack + [DOTDOT])[..|stack|] == stack;
  }

  lemma LengthAfterPop(stack: seq<string>, allow: bool, res: string, last: int)
    requires Reduced(stack, allow) && |stack| > 1 && res == Join(stack[..|stack| - 1])
    requires -1 <= last < |res| && (last >= 0 ==> res[last] == SLASH)
    requires forall j :: last < j < |res| ==> res[j] != SLASH
    ensures |res| - 1 - last == LastLength(stack[..|stack| - 1])
  {
    var init := stack[..|stack| - 1];
    assert Reduced(init, allow) by { assert forall i :: 0 <= i < |init| ==> init[i] == stack[i]; }
    LastSegment(init, allow);
    var seg := init[|init| - 1];
    assert Name(seg);
    assert forall j :: |res| - |seg| <= j < |res| ==> res[j] == seg[j - (|res| - |seg|)];
  }

  /** The text folded so far is that of `stack`. */
  ghost predicate Holds(stack: seq<string>, allow: bool, res: string, length: nat) {
    Reduced(stack, allow) && res == Join(stack) && length == LastLength(stack)
  }

  /** At character `i`: the segments before the last slash are done, and `dots` describes the one begun. */
  ghost predicate Scanned(path: string, i: nat, lastSlash: int, dots: int)
    requires i <= |path|
  {
    && -1 <= lastSlash < i
    && (forall k :: lastSlash < k < i ==> path[k] != SLASH)
    && dots == DotState(path[lastSlash + 1..i])
  }

  lemma ScanOther(path: string, i: nat, lastSlash: int, dots: int)
    requires i < |path| && path[i] != SLASH && Scanned(path, i, lastSlash, dots)
    ensures Scanned(path, i + 1, lastSlash, if path[i] == '.' && dots != -1 then dots + 1 else -1)
  {
    var seg := path[lastSlash + 1..i];
    assert path[lastSlash + 1..i + 1] == seg + [path[i]];
    if dots != -1 && path[i] != '.' { assert (seg + [path[i]])[|seg|] != '.'; }
    if dots == -1 {
      var k :| 0 <= k < |seg| && seg[k] != '.';
      assert (seg + [path[i]])[k] != '.';
    }
  }

  lemma SlashBetween(path: string, from: nat, i: nat)
    requires from <= i < |path| && path[i] == SLASH
    ensures path[from..] == path[from..i] + "/" + path[i + 1..]
  {
  }

  lemma SplitAtSlash(path: string, done: seq<string>, i: nat, lastSlash: int)
    requires -1 <= lastSlash < i < |path| && path[i] == SLASH
    requires forall k :: lastSlash < k < i ==> path[k] != SLASH
    requires Split(path) == done + Split(path[lastSlash + 1..])
    ensures Split(path) == done + [path[lastSlash + 1..i]] + Split(path[i + 1..])
  {
    hide Split;
    var seg, rest := path[lastSlash + 1..i], path[i + 1..];
    SlashBetween(path, lastSlash + 1, i);
    SplitOne(seg);
    SplitConcat(seg, rest);
    assert done + ([seg] + Split(rest)) == done + [seg] + Split(rest);
  }

  /** A slash, or the end of the path, ends the segment `seg`. */
  method EndSegment(res: string, length: nat, seg: string, dots: int, allow: bool, ghost stack: seq<string>)
    returns (res': string, length': nat)
    requires Holds(stack, allow, res, length) && dots == DotState(seg) && SLASH !in seg
    ensures Holds(Enter(stack, seg, allow), allow, res', length')
  {
    EnterReduced(stack, seg, allow);
    DotStates(seg);
    res', length' := res, length;
    if |seg| == 0 || dots == 1 {
      // An empty or `.` segment adds nothing.
    } else if dots == 2 {
      res', length' := FoldDotDot(res, length, allow, stack);
    } else {
      assert (stack + [seg])[..|stack|] == stack;
      if stack != [] { LastSegment(stack, allow); }
      res' := if |res| > 0 then res + "/" + seg else seg;
      length' := |seg|;
    }
  }

  lemma EnterReduced(stack: seq<string>, seg: string, allow: bool)
    requires Reduced(stack, allow) && SLASH !in seg
    ensures Reduced(Enter(stack, seg, allow), allow)
  {
    ReduceIsReduced(stack, [seg], allow);
    assert [seg][..0] == [];
  }

  /** Before character `i`: `done` holds the segments up to the last slash, and `res` is their folded text. */
  ghost predicate Folding(path: string, allow: bool, i: int, lastSlash: int, dots: int, code: char,
                          done: seq<string>, res: string, length: nat) {
    && 0 <= i <= |path| + 1 && -1 <= lastSlash < i
    && (if i <= |path| then
          && Scanned(path, i, lastSlash, dots) && (code == SLASH <==> i > 0 && lastSlash == i - 1)
          && Split(path) == done + Split(path[lastSlash + 1..])
        else done == Split(path))
    && Holds(Reduce([], done, allow), allow, res, length)
  }

  lemma FoldStarts(path: string, allow: bool)
    ensures Folding(path, allow, 0, -1, 0, '\0', [], "", 0)
  {
    assert path[0..] == path && path[0..0] == "";
  }

  /** A path that ends in a slash has nothing left but an empty segment. */
  lemma FoldEnds(path: string, allow: bool, lastSlash: int, dots: int, done: seq<string>, res: string, length: nat)
    requires Folding(path, allow, |path|, lastSlash, dots, SLASH, done, res, length)
    ensures res == Folded(path, allow)
  {
    assert path[|path|..] == "";
    ReduceSnoc([], done, "", allow);
  }

  lemma NextSegment(path: string, i: int, lastSlash: int, done: seq<string>)
    requires -1 <= lastSlash < i <= |path| && (i < |path| ==> path[i] == SLASH)
    requires forall k :: lastSlash < k < i ==> path[k] != SLASH
    requires Split(path) == done + Split(path[lastSlash + 1..])
    ensures var seg := path[lastSlash + 1..i];
      Split(path) == if i < |path| then done + [seg] + Split(path[i + 1..]) else done + [seg]
  {
    if i < |path| {
      SplitAtSlash(path, done, i, lastSlash);
    } else {
      assert path[lastSlash + 1..] == path[lastSlash + 1..i];
      SplitOne(path[lastSlash + 1..i]);
    }
  }

  /** A slash, or the end of the path, at `i`. */
  method AtSlash(path: string, allow: bool, i: int, lastSlash: int, dots: int, ghost code: char,
                 ghost done: seq<string>, res: string, length: nat) returns (res': string, length': nat)
    requires Folding(path, allow, i, lastSlash, dots, code, done, res, length)
    requires if i < |path| then path[i] == SLASH else i == |path| && code != SLASH
    ensures Folding(path, allow, i + 1, i, 0, SLASH, done + [path[lastSlash + 1..i]], res', length')
  {
    hide Split, Reduce, Holds, DotState;
    var segment := path[lastSlash + 1..i];
    assert SLASH !in segment;
    res', length' := EndSegment(res, length, segment, dots, allow, Reduce([], done, allow));
    ReduceSnoc([], done, segment, allow);
    NextSegment(path, i, lastSlash, done);
    if i < |path| { ScanStarts(path, i + 1); }
  }

  lemma ScanStarts(path: string, i: nat)
    requires 0 < i <= |path|
    ensures Scanned(path, i, i - 1, 0)
  {
    assert path[i..i] == "";
  }

  /** Any other character at `i`. */
  lemma AtOther(path: string, allow: bool, i: int, lastSlash: int, dots: int, code: char, done: seq<string>, res: string, length: nat)
    requires Folding(path, allow, i, lastSlash, dots, code, done, res, length) && i < |path| && path[i] != SLASH
    ensures Folding(path, allow, i + 1, lastSlash, if path[i] == '.' && dots != -1 then dots + 1 else -1, path[i], done, res, length)
  {
    hide Split, Reduce, Holds, DotState;
    ScanOther(path, i, lastSlash, dots);
  }

  method NodePathFold(path: string, allowAboveRoot: bool) returns (res: string)
    ensures res == Folded(path, allowAboveRoot)
  {
    hide Split, Reduce, Holds, Scanned;
    res := "";
    var lastSegmentLength: nat := 0;
    var lastSlash := -1;
    var dots := 0;
    var code := '\0';
    ghost var done: seq<string> := [];
    FoldStarts(path, allowAboveRoot);
    var i := 0;
    while i <= |path|
      invariant Folding(path, allowAboveRoot, i, lastSlash, dots, code, done, res, lastSegmentLength)
    {
      ghost var last := code;
      if i < |path| {
        code := path[i];
      } else if code == SLASH {
        FoldEnds(path, allowAboveRoot, lastSlash, dots, done, res, lastSegmentLength);
        break;
      } else {
        code := SLASH;
      }
      if code == SLASH {
        res, lastSegmentLength := AtSlash(path, allowAboveRoot, i, lastSlash, dots, last, done, res, lastSegmentLength);
        done := done + [path[lastSlash + 1..i]];
        lastSlash := i;
        dots := 0;
      } else {
        AtOther(path, allowAboveRoot, i, lastSlash, dots, last, done, res, lastSegmentLength);
        if code == '.' && dots != -1 {
          dots := dots + 1;
        } else {
          dots := -1;
        }
      }
      i := i + 1;
    }
    if i > |path| { FoldDone(path, allowAboveRoot, i, lastSlash, dots, code, done, res, lastSegmentLength); }
  }

  lemma FoldDone(path: string, allow: bool, i: int, lastSlash: int, dots: int, code: char, done: seq<string>, res: string, length: nat)
    requires Folding(path, allow, i, lastSlash, dots, code, done, res, length) && i > |path|
    ensures res == Folded(path, allow)
  {
  }

  lemma DotStates(seg: string)
    ensures DotState(seg) == 1 <==> seg == DOT
    ensures DotState(seg) == 2 <==> seg == DOTDOT
  {
  }

  // ---------------------------------------------------------------- resolve

  /** `resolve(...paths)`: the working directory itself when there is nothing to resolve. */
  function Resolved(paths: seq<string>, cwd: string): string {
    if (paths == [] || paths == [""] || paths == [DOT]) && IsAbsolute(cwd) then cwd
    else
      var ps := WithCwd(Used(paths), cwd);
      var stack := Reduce([], SplitAll(ps), !IsAbsolute(ps[0]));
      if IsAbsolute(ps[0]) then "/" + Join(stack) else if stack == [] then DOT else Join(stack)
  }

  /** Each path followed by a slash. */
  function Slashed(ps: seq<string>): string {
    if ps == [] then "" else ps[0] + "/" + Slashed(ps[1..])
  }

  lemma {:induction false} SplitSlashed(ps: seq<string>)
    ensures Split(Slashed(ps)) == SplitAll(ps) + [""]
  {
    if ps != [] {
      SplitConcat(ps[0], Slashed(ps[1..]));
      SplitSlashed(ps[1..]);
    }
  }

  lemma FoldedSlashed(ps: seq<string>, allow: bool)
    ensures Folded(Slashed(ps), allow) == Join(Reduce([], SplitAll(ps), allow))
  {
    SplitSlashed(ps);
    ReduceSnoc([], SplitAll(ps), "", allow);
  }

  lemma JoinEmpty(stack: seq<string>)
    requires forall i :: 0 <= i < |stack| ==> stack[i] != ""
    ensures Join(stack) == "" <==> stack == []
  {
  }

  lemma PlaceNames(ps: seq<string>, allow: bool)
    ensures forall i :: 0 <= i < |Reduce([], SplitAll(ps), allow)| ==> Reduce([], SplitAll(ps), allow)[i] != ""
  {
    hide Reduce, SplitAll;
    SplitAllNoSlash(ps);
    ReduceIsReduced([], SplitAll(ps), allow);
  }

  method Resolve(paths: seq<string>, cwd: string) returns (r: string)
    ensures r == Resolved(paths, cwd)
  {
    hide Reduce, Reduced, SplitAll, Join;
    if |paths| == 0 || (|paths| == 1 && (paths[0] == "" || paths[0] == ".")) {
      if IsAbsolute(cwd) {
        return cwd;
      }
    }
    var resolved := "";
    var absolute := false;
    ghost var taken: seq<string> := [];
    var i := |paths| - 1;
    assert paths[..|paths|] == paths;
    while i >= 0 && !absolute
      invariant -1 <= i < |paths|
      invariant resolved == Slashed(taken)
      invariant absolute ==> taken != [] && IsAbsolute(taken[0]) && Used(paths) == taken
      invariant !absolute ==> Used(paths) == Used(paths[..i + 1]) + taken && (taken == [] || !IsAbsolute(taken[0]))
    {
      assert paths[..i + 1][..i] == paths[..i];
      var path := paths[i];
      if |path| != 0 {
        resolved := path + "/" + resolved;
        absolute := path[0] == SLASH;
        assert ([path] + taken)[1..] == taken;
        taken := [path] + taken;
      }
      i := i - 1;
    }
    assert Used(paths) == taken;
    if !absolute {
      resolved := cwd + "/" + resolved;
      absolute := IsAbsolute(cwd);
      assert ([cwd] + taken)[1..] == taken;
      taken := [cwd] + taken;
    }
    FoldedSlashed(taken, !absolute);
    resolved := NodePathFold(resolved, !absolute);
    ghost var stack := Reduce([], SplitAll(taken), !absolute);
    PlaceNames(taken, !absolute);
    JoinEmpty(stack);
    if absolute {
      return "/" + resolved;
    }
    return if |resolved| > 0 then resolved else ".";
  }

  /** What `resolve` answers with the working directory itself. */
  predicate Nothing(paths: seq<string>) { paths == [] || paths == [""] || paths == [DOT] }

  /** There is an absolute path to start from, and a directory answered as it is is canonical. */
  ghost predicate Anchored(paths: seq<string>, cwd: string) {
    IsAbsolute(WithCwd(Used(paths), cwd)[0]) && (Nothing(paths) ==> CanonicalDir(cwd))
  }

  /** `resolve` names the place its arguments lead to in canonical form exactly when there is an absolute path
      among them and the directory, and it does not answer a directory that is not canonical. */
  lemma ResolvedIsPlace(paths: seq<string>, cwd: string)
    ensures Resolved(paths, cwd) == "/" + Join(Place(paths, cwd)) <==> Anchored(paths, cwd)
    ensures Plain(Place(paths, cwd))
  {
    hide Reduce, SplitAll, Join, Plain;
    PlacePlain(paths, cwd);
    if Nothing(paths) && IsAbsolute(cwd) {
      PlaceOfNothing(cwd);
    } else if !IsAbsolute(WithCwd(Used(paths), cwd)[0]) {
      RelativeStays(WithCwd(Used(paths), cwd));
    }
  }

  /** A canonical directory anchors everything, an absolute path all that follows it. */
  lemma AnchoredBy(paths: seq<string>, cwd: string)
    ensures CanonicalDir(cwd) ==> Anchored(paths, cwd)
    ensures forall i :: 0 <= i < |paths| && IsAbsolute(paths[i]) ==> Anchored(paths, cwd)
  {
    forall i | 0 <= i < |paths| && IsAbsolute(paths[i]) ensures Anchored(paths, cwd) { UsedFrom(paths, i); }
  }

  lemma {:induction false} UsedFrom(paths: seq<string>, i: nat)
    requires i < |paths| && IsAbsolute(paths[i])
    ensures Used(paths) != [] && IsAbsolute(Used(paths)[0])
  {
    var n := |paths| - 1;
    if i < n { UsedFrom(paths[..n], i); }
  }

  lemma RelativeStays(ps: seq<string>)
    ensures !IsAbsolute(Join(Reduce([], SplitAll(ps), true)))
  {
    hide Reduce, SplitAll;
    SplitAllNoSlash(ps);
    ReduceIsReduced([], SplitAll(ps), true);
    NamesNoSlash(Reduce([], SplitAll(ps), true));
  }

  lemma {:induction false} NamesNoSlash(segs: seq<string>)
    requires forall i :: 0 <= i < |segs| ==> segs[i] != "" && SLASH !in segs[i]
    ensures !IsAbsolute(Join(segs))
  {
    if segs != [] { NamesNoSlash(segs[..|segs| - 1]); }
  }

  // ---------------------------------------------------------------- normalize and join

  /** What `normalize` makes of the folded segments. */
  function Finish(stack: seq<string>, absolute: bool, trailing: bool): string {
    if stack == [] then (if absolute then "/" else if trailing then "./" else ".")
    else (if absolute then "/" else "") + Join(stack) + (if trailing then "/" else "")
  }

  function Normalized(path: string): string {
    if path == "" then DOT
    else Finish(Reduce([], Split(path), !IsAbsolute(path)), IsAbsolute(path), path[|path| - 1] == SLASH)
  }

  method Normalize(path: string) returns (r: string)
    ensures r == Normalized(path)
  {
    if |path| == 0 {
      return ".";
    }
    var absolute := path[0] == SLASH;
    var trailing := path[|path| - 1] == SLASH;
    var folded := NodePathFold(path, !absolute);
    SplitNoSlash(path);
    ReduceIsReduced([], Split(path), !absolute);
    JoinEmpty(Reduce([], Split(path), !absolute));
    if |folded| == 0 {
      if absolute {
        return "/";
      }
      return if trailing then "./" else ".";
    }
    if trailing {
      folded := folded + "/";
    }
    return if absolute then "/" + folded else folded;
  }

  /** The text `normalize` writes between the leading and the trailing slash. */
  ghost function Core(stack: seq<string>, absolute: bool): string {
    if stack == [] then (if absolute then "" else DOT) else Join(stack)
  }

  lemma CoreSegments(stack: seq<string>, absolute: bool)
    requires Reduced(stack, !absolute)
    ensures Reduce([], Split(Core(stack, absolute)), !absolute) == stack
  {
    ReducedIsFixed(stack, !absolute);
    if stack != [] {
      SplitJoin(stack);
    } else {
      SplitOne(Core(stack, absolute));
      ReduceOne([], Core(stack, absolute), !absolute);
    }
  }

  lemma FinishText(stack: seq<string>, absolute: bool, trailing: bool)
    requires Reduced(stack, !absolute)
    ensures var core := Core(stack, absolute); var led := (if absolute then "/" else "") + core;
      && Finish(stack, absolute, trailing) == (if trailing && led != "/" then led + "/" else led)
      && (core == "" <==> absolute && stack == [])
      && (core != "" ==> core[0] != SLASH && core[|core| - 1] != SLASH)
  {
    if stack == [] {
      assert DOT + "/" == "./" && "" + DOT == DOT && DOT != "/" && "/" + "" == "/";
      assert DOT[0] != SLASH;
    } else {
      FirstChar(stack, !absolute);
      LastChar(stack, !absolute);
      NotRoot(Join(stack), absolute);
    }
  }

  lemma NotRoot(text: string, absolute: bool)
    requires text != ""
    ensures (if absolute then "/" else "") + text != "/" || (!absolute && text == "/")
  {
    if absolute { assert |"/" + text| > 1; }
  }

  lemma LastChar(stack: seq<string>, allow: bool)
    requires Reduced(stack, allow) && stack != []
    ensures Join(stack) != "" && Join(stack)[|Join(stack)| - 1] != SLASH
  {
    LastSegment(stack, allow);
    var last := stack[|stack| - 1];
    assert Name(last) && last[|last| - 1] in last;
  }

  /** The text of these segments, and of nothing else: one slash between them, one in front of an absolute path, one
      behind if it is to end in one; without a segment the root, or a dot. */
  predicate Reads(text: string, segs: seq<string>, absolute: bool, trailing: bool) {
    if segs == [] then text == if absolute then "/" else if trailing then "./" else "."
    else Split(text) == (if absolute then [""] else []) + segs + (if trailing then [""] else [])
  }

  lemma ReadsUnique(a: string, b: string, segs: seq<string>, absolute: bool, trailing: bool)
    requires Reads(a, segs, absolute, trailing) && Reads(b, segs, absolute, trailing)
    ensures a == b
  {
    JoinSplit(a);
    JoinSplit(b);
  }

  /** `normalize` answers the text of the reduced segments, absolute and ending in a slash where the path is and does. */
  lemma NormalizeMeans(path: string)
    requires path != ""
    ensures var absolute := IsAbsolute(path);
      Reads(Normalized(path), Reduce([], Split(path), !absolute), absolute, path[|path| - 1] == SLASH)
  {
    hide Split, Reduce, Reads, Finish;
    SplitNoSlash(path);
    ReduceIsReduced([], Split(path), !IsAbsolute(path));
    FinishReads(Reduce([], Split(path), !IsAbsolute(path)), IsAbsolute(path), path[|path| - 1] == SLASH);
  }

  lemma FinishReads(stack: seq<string>, absolute: bool, trailing: bool)
    requires Reduced(stack, !absolute)
    ensures Reads(Finish(stack, absolute, trailing), stack, absolute, trailing)
  {
    if stack != [] {
      forall i | 0 <= i < |stack| ensures SLASH !in stack[i] { assert Name(stack[i]); }
      hide Split, Join, Reduced;
      var led := (if absolute then "/" else "") + Join(stack);
      SplitJoin(stack);
      SplitLed(Join(stack));
      SplitTrailed(led);
      Bare(Join(stack));
      Bare(led);
      BareSegments(stack);
      BareSegments(Split(led));
    }
  }

  lemma Bare(s: string)
    ensures "" + s == s && s + "" == s
  {
  }

  lemma BareSegments(segs: seq<string>)
    ensures [] + segs == segs && segs + [] == segs
  {
  }

  /** The segments of what `normalize` answers reduce to what the path's own do. */
  lemma NormalizedSegments(path: string)
    requires path != ""
    ensures var absolute := IsAbsolute(path); var stack := Reduce([], Split(path), !absolute); var n := Normalized(path);
      && n != ""
      && IsAbsolute(n) == absolute
      && (n[|n| - 1] == SLASH <==> path[|path| - 1] == SLASH || (absolute && stack == []))
      && Reduce([], Split(n), !absolute) == stack
  {
    var absolute := IsAbsolute(path);
    var stack := Reduce([], Split(path), !absolute);
    SplitNoSlash(path);
    ReduceIsReduced([], Split(path), !absolute);
    FinishText(stack, absolute, path[|path| - 1] == SLASH);
    CoreSegments(stack, absolute);
    var core := Core(stack, absolute);
    var led := (if absolute then "/" else "") + core;
    if absolute {
      SplitLed(core);
      ReduceLed(Split(core), false);
    } else {
      assert led == core;
    }
    SplitTrailed(led);
    ReduceSnoc([], Split(led), "", !absolute);
  }

  lemma FirstChar(stack: seq<string>, allow: bool)
    requires Reduced(stack, allow) && stack != []
    ensures Join(stack) != "" && Join(stack)[0] != SLASH
  {
    if |stack| > 1 {
      var init := stack[..|stack| - 1];
      assert Reduced(init, allow) by { assert forall i :: 0 <= i < |init| ==> init[i] == stack[i]; }
      FirstChar(init, allow);
    } else {
      assert Name(stack[0]);
    }
  }

  lemma SplitLed(core: string)
    ensures Split("/" + core) == [""] + Split(core)
  {
    SplitConcat("", core);
    assert "" + "/" + core == "/" + core;
  }

  lemma SplitTrailed(s: string)
    ensures Split(s + "/") == Split(s) + [""]
  {
    SplitConcat(s, "");
    assert s + "/" + "" == s + "/";
  }

  lemma ReduceLed(segs: seq<string>, allow: bool)
    ensures Reduce([], [""] + segs, allow) == Reduce([], segs, allow)
  {
    ReduceConcat([], [""], segs, allow);
    ReduceOne([], "", allow);
  }

  /** `normalize(normalize(p)) = normalize(p)`. */
  lemma NormalizeTwice(path: string)
    ensures Normalized(Normalized(path)) == Normalized(path)
  {
    if path != "" {
      NormalizedSegments(path);
    } else {
      SplitOne(DOT);
      ReduceOne([], DOT, true);
    }
  }

  lemma AnyAbsolute(base: string, path: string, cwd: string)
    requires IsAbsolute(cwd) || IsAbsolute(base) || IsAbsolute(path)
    ensures Anchored([base, path], cwd)
  {
    var ps := [base, path];
    if IsAbsolute(base) { UsedFrom(ps, 0); }
    if IsAbsolute(path) { UsedFrom(ps, 1); }
  }

  /** Normalizing never changes where a path leads: `resolve(base, normalize(p)) = resolve(base, p)`. */
  lemma NormalizeKeepsPlace(base: string, path: string, cwd: string)
    requires IsAbsolute(cwd) || IsAbsolute(base) || IsAbsolute(path)
    ensures Resolved([base, Normalized(path)], cwd) == Resolved([base, path], cwd)
  {
    var n := Normalized(path);
    if path != "" { NormalizedSegments(path); }
    AnyAbsolute(base, n, cwd);
    AnyAbsolute(base, path, cwd);
    ResolvedIsPlace([base, n], cwd);
    ResolvedIsPlace([base, path], cwd);
    assert [base, n][..1] == [base] && [base, path][..1] == [base];
    assert [base] + [n] == [base, n] && [base] + [path] == [base, path];
    if path == "" {
      PlaceSnoc([base], DOT, cwd);
      SplitOne(DOT);
      ReduceOne(Place([base], cwd), DOT, false);
    } else {
      if IsAbsolute(path) {
        PlaceAbsolute([base], path, cwd);
        PlaceAbsolute([base], n, cwd);
      } else {
        PlaceSnoc([base], path, cwd);
        PlaceSnoc([base], n, cwd);
        ReduceKeepsMeaning(Place([base], cwd), Split(path));
        ReduceKeepsMeaning(Place([base], cwd), Split(n));
      }
    }
  }

  function Joined(paths: seq<string>): string {
    if paths == [] then ""
    else
      var before := Joined(paths[..|paths| - 1]);
      var p := paths[|paths| - 1];
      if p == "" then before else if before == "" then p else before + "/" + p
  }

  method JoinPaths(paths: seq<string>) returns (r: string)
    ensures r == if Joined(paths) == "" then DOT else Normalized(Joined(paths))
    ensures var used := Nonempty(paths);
      if used == [] then r == "."
      else
        var absolute, last := IsAbsolute(used[0]), used[|used| - 1];
        Reads(r, Reduce([], SplitAll(paths), !absolute), absolute, last[|last| - 1] == SLASH)
  {
    var joined := "";
    var i := 0;
    while i < |paths|
      invariant 0 <= i <= |paths| && joined == Joined(paths[..i])
    {
      assert paths[..i + 1][..i] == paths[..i];
      if |paths[i]| > 0 {
        joined := if |joined| > 0 then joined + "/" + paths[i] else paths[i];
      }
      i := i + 1;
    }
    assert paths[..i] == paths;
    JoinMeans(paths);
    if |joined| > 0 {
      r := Normalize(joined);
    } else {
      r := ".";
    }
  }

  /** `join` follows its arguments one after the other, wherever it is itself followed from. */
  lemma {:induction false} JoinFollowsEach(stack: seq<string>, paths: seq<string>, allow: bool)
    ensures Reduce(stack, Split(Joined(paths)), allow) == Reduce(stack, SplitAll(paths), allow)
  {
    if paths == [] {
      SplitOne("");
      ReduceOne(stack, "", allow);
    } else {
      var n := |paths| - 1;
      var p := paths[n];
      JoinFollowsEach(stack, paths[..n], allow);
      SplitAllConcat(paths[..n], [p]);
      assert paths[..n] + [p] == paths;
      SplitAllOne(p);
      ReduceConcat(stack, SplitAll(paths[..n]), Split(p), allow);
      var before := Joined(paths[..n]);
      var there := Reduce(stack, SplitAll(paths[..n]), allow);
      if p == "" {
        SplitOne("");
        ReduceOne(there, "", allow);
      } else if before == "" {
        SplitOne("");
        ReduceOne(stack, "", allow);
      } else {
        SplitConcat(before, p);
        ReduceConcat(stack, Split(before), Split(p), allow);
      }
    }
  }

  /** The arguments of `join` that count. */
  function Nonempty(paths: seq<string>): (r: seq<string>)
    ensures forall i :: 0 <= i < |r| ==> r[i] != ""
  {
    if paths == [] then []
    else Nonempty(paths[..|paths| - 1]) + if paths[|paths| - 1] == "" then [] else [paths[|paths| - 1]]
  }

  lemma {:induction false} JoinedEnds(paths: seq<string>)
    ensures var used, j := Nonempty(paths), Joined(paths);
      && (used == [] <==> j == "")
      && (used != [] ==>
            && j[0] == used[0][0]
            && var last := used[|used| - 1]; j[|j| - 1] == last[|last| - 1])
  {
    if paths != [] { JoinedEnds(paths[..|paths| - 1]); }
  }

  /** `join`, from its arguments: absolute exactly when the first one that is not empty is, ending in a slash
      exactly when the last one does or it is the root, and between, the segments of all of them, reduced. */
  lemma JoinMeans(paths: seq<string>)
    ensures var used, j := Nonempty(paths), Joined(paths);
      if used == [] then j == ""
      else
        var absolute, last := IsAbsolute(used[0]), used[|used| - 1];
        j != "" && Reads(Normalized(j), Reduce([], SplitAll(paths), !absolute), absolute, last[|last| - 1] == SLASH)
  {
    JoinedEnds(paths);
    if Joined(paths) != "" {
      NormalizeMeans(Joined(paths));
      JoinFollowsEach([], paths, !IsAbsolute(Joined(paths)));
    }
  }
}

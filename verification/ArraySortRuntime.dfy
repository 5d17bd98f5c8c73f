/** The sort over the receiver's own storage and a scratch array that mirrors it (jsrt_array_ops.c). */
module ArraySortRuntime {
  import opened ArraySort

  /** The state of a merge: `p` are the places merged into the scratch so far. */
  ghost predicate MergeState<T(!new)>(answer: Comparator<T>, pending: bool, before: seq<Cell<T>>, left: seq<nat>, right: seq<nat>,
                                      a: nat, b: nat, p: seq<nat>, done: seq<Cell<T>>) {
    && Runs(before, left, right) && Merging(before, left, right, a, b, p) && done == Picked(before, p)
    && (!pending ==> MergesTo(answer, before, left, right, a, b, p))
  }

  /** Which run the next element comes from, asked of the comparator if both have one. */
  method Choose<T(!new)>(elems: array<Cell<T>>, a: nat, mid: nat, b: nat, hi: nat, caller: Caller<T>) returns (takeLeft: bool)
    requires a <= mid <= b <= hi <= elems.Length && (a < mid || b < hi) && !caller.pending && caller.Valid()
    requires forall i :: 0 <= i < hi ==> !elems[i].Hole?
    modifies caller
    ensures if takeLeft then a < mid else b < hi
    ensures caller.Valid() && (caller.asked == old(caller.asked)
      || (a < mid && b < hi && elems[a].Value? && elems[b].Value? && caller.asked == old(caller.asked) + [(elems[a].v, elems[b].v)]))
    ensures !caller.pending ==> forall le :: Consistent(caller.answer, le) && a < mid && b < hi ==> (takeLeft <==> CellLe(le, elems[a], elems[b]))
  {
    takeLeft := a < mid;
    if a < mid && b < hi {
      var order := caller.Compare(elems[a], elems[b]);
      takeLeft := order <= 0;
    }
  }

  /** What the next element is, whichever run it comes from. */
  lemma NextElement<T(!new)>(cells: seq<Cell<T>>, before: seq<Cell<T>>, left: seq<nat>, right: seq<nat>, lo: nat, mid: nat, hi: nat, a: nat, b: nat)
    requires Within(left, 0, |before|) && Within(right, 0, |before|) && lo <= a <= mid <= b <= hi <= |cells|
    requires cells[lo..mid] == Picked(before, left) && cells[mid..hi] == Picked(before, right)
    ensures a < mid ==> a - lo < |left| && cells[a] == before[left[a - lo]]
    ensures b < hi ==> b - mid < |right| && cells[b] == before[right[b - mid]]
  {
    if a < mid { assert cells[lo..mid][a - lo] == cells[a]; }
    if b < hi { assert cells[mid..hi][b - mid] == cells[b]; }
  }

  /** The loop of `sort_merge`: the runs stay, the scratch fills. */
  method MergeInto<T(!new)>(elems: array<Cell<T>>, scratch: array<Cell<T>>, lo: nat, mid: nat, hi: nat, caller: Caller<T>,
                            ghost before: seq<Cell<T>>, ghost left: seq<nat>, ghost right: seq<nat>) returns (ghost p: seq<nat>)
    requires elems != scratch && lo <= mid <= hi <= elems.Length && hi <= scratch.Length && !caller.pending && caller.Valid()
    requires Runs(before, left, right) && |left| == mid - lo && |right| == hi - mid
    requires elems[lo..mid] == Picked(before, left) && elems[mid..hi] == Picked(before, right)
    requires forall i :: 0 <= i < hi ==> !elems[i].Hole?
    modifies scratch, caller
    ensures caller.Valid() && Shown(old(caller.asked), false, caller.asked, before)
    ensures !caller.pending ==> MergeState(caller.answer, false, before, left, right, |left|, |right|, p, scratch[lo..hi])
  {
    hide Merged, CellLe, Consistent, MergeState, Picked;
    var a, b, k := lo, mid, lo;
    p := [];
    MergeStarts(caller.answer, before, left, right);
    assert scratch[lo..lo] == [];
    while k < hi && !caller.pending
      invariant lo <= a <= mid <= b <= hi && k == a + b - mid
      invariant caller.Valid() && Shown(old(caller.asked), false, caller.asked, before)
      invariant MergeState(caller.answer, caller.pending, before, left, right, a - lo, b - mid, p, scratch[lo..k])
      decreases hi - k
    {
      NextElement(elems[..], before, left, right, lo, mid, hi, a, b);
      ghost var done := scratch[lo..k];
      var takeLeft := Choose(elems, a, mid, b, hi, caller);
      scratch[k] := if takeLeft then elems[a] else elems[b];
      assert scratch[lo..k + 1] == done + [if takeLeft then elems[a] else elems[b]];
      MergeSteps(caller.answer, caller.pending, before, left, right, a - lo, b - mid, p, done, takeLeft);
      p := p + [if takeLeft then left[a - lo] else right[b - mid]];
      if takeLeft {
        a := a + 1;
      } else {
        b := b + 1;
      }
      k := k + 1;
    }
  }

  method CopyBack<T>(elems: array<Cell<T>>, scratch: array<Cell<T>>, lo: nat, hi: nat)
    requires elems != scratch && lo <= hi <= elems.Length && hi <= scratch.Length
    modifies elems
    ensures elems[lo..hi] == scratch[lo..hi]
    ensures elems[..lo] == old(elems[..lo]) && elems[hi..] == old(elems[hi..])
  {
    for c := lo to hi
      invariant elems[..lo] == old(elems[..lo]) && elems[hi..] == old(elems[hi..])
      invariant elems[lo..c] == scratch[lo..c]
    {
      elems[c] := scratch[c];
    }
  }

  /** `sort_merge`; `p` is the order it leaves. A comparator that throws leaves both runs as they were. */
  method SortMerge<T(!new)>(elems: array<Cell<T>>, scratch: array<Cell<T>>, lo: nat, mid: nat, hi: nat, caller: Caller<T>,
                            ghost before: seq<Cell<T>>, ghost left: seq<nat>, ghost right: seq<nat>) returns (ghost p: seq<nat>)
    requires elems != scratch && lo <= mid <= hi <= elems.Length && hi <= scratch.Length && !caller.pending && caller.Valid()
    requires Runs(before, left, right) && |left| == mid - lo && |right| == hi - mid
    requires elems[lo..mid] == Picked(before, left) && elems[mid..hi] == Picked(before, right)
    requires forall i :: 0 <= i < hi ==> !elems[i].Hole?
    modifies elems, scratch, caller
    ensures Within(p, 0, |before|) && Distinct(p) && |p| == hi - lo && elems[lo..hi] == Picked(before, p)
    ensures forall x :: x in p <==> x in left || x in right
    ensures elems[..lo] == old(elems[..lo]) && elems[hi..] == old(elems[hi..])
    ensures !caller.pending ==> forall le :: Consistent(caller.answer, le) ==> p == Merged(le, before, left, right)
    ensures caller.pending ==> elems[..] == old(elems[..])
    ensures caller.Valid() && Shown(old(caller.asked), false, caller.asked, before)
  {
    hide Merged, CellLe, Consistent, MergeState, Runs, Picked;
    p := MergeInto(elems, scratch, lo, mid, hi, caller, before, left, right);
    if caller.pending {
      p := left + right;
      BothRuns(before, left, right);
      assert elems[lo..hi] == elems[lo..mid] + elems[mid..hi];
      return;
    }
    MergeEnds(caller.answer, before, left, right, p, scratch[lo..hi]);
    CopyBack(elems, scratch, lo, hi);
  }

  lemma MergeStarts<T(!new)>(answer: Comparator<T>, before: seq<Cell<T>>, left: seq<nat>, right: seq<nat>)
    requires Runs(before, left, right)
    ensures MergeState(answer, false, before, left, right, 0, 0, [], [])
  {
    hide Merged, Consistent;
    assert left[0..] == left && right[0..] == right;
    forall le | Consistent(answer, le) ensures [] + Merged(le, before, left[0..], right[0..]) == Merged(le, before, left, right) {
      NoPrefix(Merged(le, before, left, right));
    }
  }

  lemma NoPrefix(s: seq<nat>)
    ensures [] + s == s
  {
  }

  lemma MergeSteps<T(!new)>(answer: Comparator<T>, pending: bool, before: seq<Cell<T>>, left: seq<nat>, right: seq<nat>,
                            a: nat, b: nat, p: seq<nat>, done: seq<Cell<T>>, takeLeft: bool)
    requires MergeState(answer, false, before, left, right, a, b, p, done)
    requires if takeLeft then a < |left| else b < |right|
    requires !pending ==> forall le :: Consistent(answer, le) && a < |left| && b < |right| ==>
      (takeLeft <==> CellLe(le, before[left[a]], before[right[b]]))
    ensures var place := if takeLeft then left[a] else right[b];
      MergeState(answer, pending, before, left, right, if takeLeft then a + 1 else a, if takeLeft then b else b + 1,
                 p + [place], done + [before[place]])
  {
    hide Merged, CellLe, Consistent, MergesTo;
    if takeLeft { TakeLeft(before, left, right, a, b, p); } else { TakeRight(before, left, right, a, b, p); }
    if !pending { TakeOne(answer, before, left, right, a, b, p, takeLeft); }
  }

  lemma MergeEnds<T(!new)>(answer: Comparator<T>, before: seq<Cell<T>>, left: seq<nat>, right: seq<nat>, p: seq<nat>, done: seq<Cell<T>>)
    requires MergeState(answer, false, before, left, right, |left|, |right|, p, done)
    ensures Within(p, 0, |before|) && Distinct(p) && done == Picked(before, p) && |p| == |left| + |right|
    ensures forall x :: x in p <==> x in left || x in right
    ensures forall le :: Consistent(answer, le) ==> p == Merged(le, before, left, right)
  {
    hide Merged, CellLe, Consistent;
    assert left[..|left|] == left && right[..|right|] == right;
    forall le | Consistent(answer, le) ensures p == Merged(le, before, left, right) {
      assert left[|left|..] == [] && right[|right|..] == [];
      NoSuffix(p);
      MergedNothing(le, before);
    }
  }

  lemma NoSuffix(s: seq<nat>)
    ensures s + [] == s
  {
  }

  lemma MergedNothing<T(!new)>(le: Order<T>, before: seq<Cell<T>>)
    ensures Merged(le, before, [], []) == []
  {
  }

  lemma BothRuns<T(!new)>(before: seq<Cell<T>>, left: seq<nat>, right: seq<nat>)
    requires Runs(before, left, right)
    ensures var p := left + right;
      && Within(p, 0, |before|) && Distinct(p) && Picked(before, p) == Picked(before, left) + Picked(before, right)
      && forall x :: x in p <==> x in left || x in right
  {
  }

  /** `now` is `before` with the elements between `lo` and `hi` in the order `p`. */
  ghost predicate Reordered<T(!new)>(before: seq<Cell<T>>, now: seq<Cell<T>>, lo: nat, hi: nat, p: seq<nat>) {
    && lo <= hi <= |before| == |now| && Rearranges(p, lo, hi) && now[lo..hi] == Picked(before, p)
    && now[..lo] == before[..lo] && now[hi..] == before[hi..]
  }

  predicate NoHoles<T>(cells: seq<Cell<T>>, n: nat) {
    n <= |cells| && forall i :: 0 <= i < n ==> !cells[i].Hole?
  }

  lemma Unmoved<T(!new)>(before: seq<Cell<T>>, lo: nat, hi: nat)
    requires lo <= hi <= |before|
    ensures Reordered(before, before, lo, hi, seq(hi - lo, i => lo + i))
  {
  }

  lemma OneInOrder<T(!new)>(le: Order<T>, before: seq<Cell<T>>, p: seq<nat>)
    requires Within(p, 0, |before|) && |p| < 2
    ensures InOrder(le, before, p)
  {
  }

  lemma ReorderedNoHoles<T(!new)>(before: seq<Cell<T>>, now: seq<Cell<T>>, lo: nat, hi: nat, p: seq<nat>, n: nat)
    requires Reordered(before, now, lo, hi, p) && NoHoles(before, n) && hi <= n
    ensures NoHoles(now, n)
  {
    forall i | 0 <= i < n ensures !now[i].Hole? {
      if i < lo { assert now[i] == now[..lo][i] == before[..lo][i]; }
      else if i < hi { assert now[i] == now[lo..hi][i - lo] == before[p[i - lo]]; }
      else { assert now[i] == now[hi..][i - hi] == before[hi..][i - hi]; }
    }
  }

  /** Both halves in order, each among its own places. */
  lemma HalvesReordered<T(!new)>(before: seq<Cell<T>>, half: seq<Cell<T>>, now: seq<Cell<T>>, lo: nat, mid: nat, hi: nat, left: seq<nat>, right: seq<nat>)
    requires Reordered(before, half, lo, mid, left) && Reordered(half, now, mid, hi, right)
    ensures Runs(before, left, right) && Rearranges(left, lo, mid) && Rearranges(right, mid, hi)
    ensures now[lo..mid] == Picked(before, left) && now[mid..hi] == Picked(before, right)
    ensures now[..lo] == before[..lo] && now[hi..] == before[hi..]
    ensures forall le: Order<T> :: InOrder(le, half, right) ==> InOrder(le, before, right)
  {
    forall i | mid <= i < hi ensures half[i] == before[i] {
      assert half[i] == half[mid..][i - mid] && before[i] == before[mid..][i - mid];
    }
    assert now[lo..mid] == now[..mid][lo..] && half[lo..mid] == half[..mid][lo..];
    assert now[..lo] == now[..mid][..lo] && half[..lo] == half[..mid][..lo];
    assert now[hi..] == half[hi..] && half[hi..] == half[mid..][hi - mid..] && before[hi..] == before[mid..][hi - mid..];
  }

  lemma MergedRearranges<T(!new)>(before: seq<Cell<T>>, lo: nat, mid: nat, hi: nat, left: seq<nat>, right: seq<nat>, p: seq<nat>)
    requires Rearranges(left, lo, mid) && Rearranges(right, mid, hi) && Distinct(p) && |p| == hi - lo
    requires forall x :: x in p <==> x in left || x in right
    ensures Rearranges(p, lo, hi)
  {
    forall i | 0 <= i < |p| ensures lo <= p[i] < hi {
      assert p[i] in p;
    }
  }

  lemma StillReordered<T(!new)>(before: seq<Cell<T>>, now: seq<Cell<T>>, lo: nat, mid: nat, hi: nat, left: seq<nat>, right: seq<nat>)
    requires lo <= mid <= hi <= |before| == |now| && Runs(before, left, right)
    requires Rearranges(left, lo, mid) && Rearranges(right, mid, hi)
    requires now[lo..mid] == Picked(before, left) && now[mid..hi] == Picked(before, right)
    requires now[..lo] == before[..lo] && now[hi..] == before[hi..]
    ensures Reordered(before, now, lo, hi, left + right)
  {
    BothRuns(before, left, right);
    MergedRearranges(before, lo, mid, hi, left, right, left + right);
    assert now[lo..hi] == now[lo..mid] + now[mid..hi];
  }

  lemma ReorderedMembers<T(!new)>(before: seq<Cell<T>>, now: seq<Cell<T>>, lo: nat, hi: nat, p: seq<nat>)
    requires Reordered(before, now, lo, hi, p)
    ensures forall x :: x in now ==> x in before
  {
    forall i | 0 <= i < |now| ensures now[i] in before {
      if i < lo { assert now[i] == now[..lo][i] == before[..lo][i]; }
      else if i < hi { assert now[i] == now[lo..hi][i - lo] == before[p[i - lo]]; }
      else { assert now[i] == now[hi..][i - hi] == before[hi..][i - hi]; }
    }
  }

  lemma ShownThen<T(!new)>(a: seq<(T, T)>, b: seq<(T, T)>, threw: bool, c: seq<(T, T)>, before: seq<Cell<T>>, half: seq<Cell<T>>)
    requires Shown(a, false, b, before) && Shown(b, threw, c, half) && forall x :: x in half ==> x in before
    ensures Shown(a, false, c, before)
  {
    forall i | |a| <= i < |c| ensures Value(c[i].0) in before && Value(c[i].1) in before {
      if i < |b| { assert c[i] == b[i]; }
    }
  }

  /** Two sorted halves into one, or left as they are by a comparator that throws. */
  method MergeHalves<T(!new)>(elems: array<Cell<T>>, scratch: array<Cell<T>>, lo: nat, mid: nat, hi: nat, ghost n: nat, caller: Caller<T>,
                              ghost before: seq<Cell<T>>, ghost left: seq<nat>, ghost right: seq<nat>) returns (ghost p: seq<nat>)
    requires elems != scratch && lo <= mid <= hi <= n <= scratch.Length && NoHoles(elems[..], n) && NoHoles(before, n)
    requires |before| == elems.Length && !caller.pending && caller.Valid() && Runs(before, left, right)
    requires Rearranges(left, lo, mid) && Rearranges(right, mid, hi)
    requires elems[lo..mid] == Picked(before, left) && elems[mid..hi] == Picked(before, right)
    requires elems[..lo] == before[..lo] && elems[hi..] == before[hi..]
    requires forall le :: Consistent(caller.answer, le) ==> InOrder(le, before, left) && InOrder(le, before, right)
    modifies elems, scratch, caller
    ensures Reordered(before, elems[..], lo, hi, p) && NoHoles(elems[..], n)
    ensures caller.Valid() && Shown(old(caller.asked), false, caller.asked, before)
    ensures !caller.pending ==> forall le :: Consistent(caller.answer, le) ==> InOrder(le, before, p)
  {
    hide Consistent, InOrder, Merged, Picked, Runs, CellLe;
    forall i | 0 <= i < hi ensures !elems[i].Hole? { assert elems[..][i] == elems[i]; }
    p := SortMerge(elems, scratch, lo, mid, hi, caller, before, left, right);
    MergedRearranges(before, lo, mid, hi, left, right, p);
    ReorderedNoHoles(before, elems[..], lo, hi, p, n);
    if !caller.pending {
      forall le | Consistent(caller.answer, le) ensures InOrder(le, before, p) {
        RunsMerge(caller.answer, le, before, left, right);
      }
    }
  }

  lemma RunsMerge<T(!new)>(answer: Comparator<T>, le: Order<T>, before: seq<Cell<T>>, left: seq<nat>, right: seq<nat>)
    requires Consistent(answer, le) && Runs(before, left, right) && InOrder(le, before, left) && InOrder(le, before, right)
    ensures InOrder(le, before, Merged(le, before, left, right))
  {
    MergedInOrder(le, before, left, right);
  }

  /** `sort_range`; `p` is the order it leaves. */
  method SortRange<T(!new)>(elems: array<Cell<T>>, scratch: array<Cell<T>>, lo: nat, hi: nat, ghost n: nat, caller: Caller<T>) returns (ghost p: seq<nat>)
    requires elems != scratch && lo <= hi <= n <= scratch.Length && NoHoles(elems[..], n) && caller.Valid()
    modifies elems, scratch, caller
    ensures Reordered(old(elems[..]), elems[..], lo, hi, p) && NoHoles(elems[..], n)
    ensures caller.Valid() && (old(caller.pending) ==> caller.pending)
    ensures Shown(old(caller.asked), old(caller.pending), caller.asked, old(elems[..]))
    ensures !caller.pending ==> forall le :: Consistent(caller.answer, le) ==> InOrder(le, old(elems[..]), p)
    decreases hi - lo
  {
    hide Consistent, InOrder, Reordered, Merged;
    ghost var before := elems[..];
    if hi - lo < 2 || caller.pending {
      p := seq(hi - lo, i => lo + i);
      Unmoved(before, lo, hi);
      if hi - lo < 2 {
        forall le | Consistent(caller.answer, le) ensures InOrder(le, before, p) { OneInOrder(le, before, p); }
      }
      return;
    }
    var mid := lo + (hi - lo) / 2;
    ghost var asked0 := caller.asked;
    ghost var left := SortRange(elems, scratch, lo, mid, n, caller);
    ghost var half, asked1, threw := elems[..], caller.asked, caller.pending;
    ghost var right := SortRange(elems, scratch, mid, hi, n, caller);
    ReorderedMembers(before, half, lo, mid, left);
    ShownThen(asked0, asked1, threw, caller.asked, before, half);
    HalvesReordered(before, half, elems[..], lo, mid, hi, left, right);
    if caller.pending {
      p := left + right;
      StillReordered(before, elems[..], lo, mid, hi, left, right);
      return;
    }
    p := MergeHalves(elems, scratch, lo, mid, hi, n, caller, before, left, right);
  }

  // ---------------------------------------------------------------- the whole array

  /** The elements an array has, holes left out. */
  function Present<T>(cells: seq<Cell<T>>): (r: seq<Cell<T>>)
    ensures |r| <= |cells| && forall i :: 0 <= i < |r| ==> !r[i].Hole?
  {
    if cells == [] then []
    else if cells[|cells| - 1].Hole? then Present(cells[..|cells| - 1])
    else Present(cells[..|cells| - 1]) + [cells[|cells| - 1]]
  }

  /** How many elements stand before place `i`, holes not counted. */
  function Rank<T>(cells: seq<Cell<T>>, i: nat): (n: nat)
    requires i <= |cells|
  {
    if i == 0 then 0 else Rank(cells, i - 1) + if cells[i - 1].Hole? then 0 else 1
  }

  lemma {:induction false} SameRank<T>(cells: seq<Cell<T>>, m: nat, i: nat)
    requires i <= m <= |cells|
    ensures Rank(cells[..m], i) == Rank(cells, i)
    decreases i
  {
    if i > 0 { SameRank(cells, m, i - 1); }
  }

  lemma {:induction false} PresentCounts<T>(cells: seq<Cell<T>>)
    ensures |Present(cells)| == Rank(cells, |cells|)
  {
    if cells != [] {
      var n := |cells| - 1;
      PresentCounts(cells[..n]);
      SameRank(cells, n, n);
    }
  }

  /** Every element that is no hole is there, in its order, and nothing else. */
  lemma {:induction false} PresentMeans<T>(cells: seq<Cell<T>>, i: nat)
    requires i < |cells|
    ensures |Present(cells)| == Rank(cells, |cells|)
    ensures !cells[i].Hole? ==> Rank(cells, i) < |Present(cells)| && Present(cells)[Rank(cells, i)] == cells[i]
  {
    var n := |cells| - 1;
    PresentCounts(cells);
    PresentCounts(cells[..n]);
    SameRank(cells, n, i);
    SameRank(cells, n, n);
    if i < n { PresentMeans(cells[..n], i); }
  }

  lemma NonePresent<T>(cells: seq<Cell<T>>)
    ensures Present(cells[..0]) == []
  {
  }

  lemma PresentNext<T>(cells: seq<Cell<T>>, i: nat)
    requires i < |cells|
    ensures Present(cells[..i + 1]) == Present(cells[..i]) + if cells[i].Hole? then [] else [cells[i]]
  {
    assert cells[..i + 1][..i] == cells[..i];
  }

  /** Present elements to the front, in order, and holes behind them. */
  method Compact<T>(elems: array<Cell<T>>) returns (present: nat)
    modifies elems
    ensures present == |Present(old(elems[..]))|
    ensures elems[..present] == Present(old(elems[..])) && forall i :: present <= i < elems.Length ==> elems[i].Hole?
  {
    present := 0;
    hide Present;
    ghost var cells := elems[..];
    assert Present(cells[..0]) == [] by { NonePresent(cells); }
    for i := 0 to elems.Length
      invariant present <= i && elems[..present] == Present(cells[..i])
      invariant elems[i..] == cells[i..]
    {
      PresentNext(cells, i);
      assert elems[i] == elems[i..][0] == cells[i];
      assert elems[i + 1..] == elems[i..][1..] == cells[i + 1..];
      ghost var front := elems[..present];
      if !elems[i].Hole? {
        elems[present] := elems[i];
        present := present + 1;
        assert elems[..present] == front + [cells[i]];
      }
    }
    assert cells[..elems.Length] == cells;
    for i := present to elems.Length
      invariant elems[..present] == Present(cells) && forall k :: present <= k < i ==> elems[k].Hole?
    {
      elems[i] := Hole;
    }
  }

  /** `jsrt_array_sort`: a rearrangement of the present elements, then the holes, whatever the comparator
      does; the stable sorted one if it answers for an order and never throws. */
  method Sort<T(!new)>(elems: array<Cell<T>>, caller: Caller<T>) returns (ghost p: seq<nat>)
    requires !caller.pending && caller.Valid()
    modifies elems, caller
    ensures Rearranges(p, 0, |Present(old(elems[..]))|)
    ensures elems[..|p|] == Picked(Present(old(elems[..])), p) && forall i :: |p| <= i < elems.Length ==> elems[i].Hole?
    ensures caller.Valid() && Shown(old(caller.asked), false, caller.asked, Present(old(elems[..])))
    ensures !caller.pending ==> forall le :: Consistent(caller.answer, le) ==> InOrder(le, Present(old(elems[..])), p)
  {
    hide Consistent, InOrder, Present;
    ghost var cells := Present(elems[..]);
    var present := Compact(elems);
    if present < 2 {
      p := seq(present, i => i);
      Unmoved(cells, 0, present);
      forall le | Consistent(caller.answer, le) ensures InOrder(le, cells, p) { OneInOrder(le, cells, p); }
      return;
    }
    var scratch := new Cell<T>[present](i requires 0 <= i < present <= elems.Length reads elems => elems[i]);
    ghost var compacted := elems[..];
    FrontNoHoles(compacted, cells, present);
    p := SortRange(elems, scratch, 0, present, present, caller);
    PickedFront(compacted, cells, elems[..], present, p);
    forall i | present <= i < elems.Length ensures elems[i].Hole? {
      assert elems[i] == elems[..][present..][i - present] == compacted[present..][i - present];
    }
  }

  lemma FrontNoHoles<T>(compacted: seq<Cell<T>>, cells: seq<Cell<T>>, n: nat)
    requires n <= |compacted| && compacted[..n] == cells && forall i :: 0 <= i < |cells| ==> !cells[i].Hole?
    ensures NoHoles(compacted, n)
  {
    forall i | 0 <= i < n ensures !compacted[i].Hole? { assert compacted[..n][i] == compacted[i]; }
  }

  lemma PickedFront<T(!new)>(compacted: seq<Cell<T>>, cells: seq<Cell<T>>, now: seq<Cell<T>>, n: nat, p: seq<nat>)
    requires n <= |compacted| && compacted[..n] == cells && Reordered(compacted, now, 0, n, p)
    ensures now[..n] == Picked(cells, p)
    ensures forall le: Order<T> :: InOrder(le, compacted, p) ==> InOrder(le, cells, p)
  {
    forall i | 0 <= i < n ensures compacted[i] == cells[i] { assert compacted[..n][i] == compacted[i]; }
    assert now[..n] == now[0..n];
  }
}

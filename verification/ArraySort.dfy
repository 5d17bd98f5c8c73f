/** Array.prototype.sort: a stable merge sort whose comparator may throw at any call (section 23.1.3.30
    of ECMA-262; jsrt_array_ops.c). */
module ArraySort {
  datatype Cell<T> = Hole | Undefined | Value(v: T)

  /** What one call of the comparator does; a NaN counts as `Equal`. */
  datatype Answer = Less | Equal | Greater | Throws

  /** The program's comparator: what it answers may depend on how often it was called before. */
  type Comparator<!T> = (nat, T, T) -> Answer

  type Order<!T> = (T, T) -> bool

  // ---------------------------------------------------------------- orders

  ghost predicate TotalPreorder<T(!new)>(le: Order<T>) {
    && (forall x, y :: le(x, y) || le(y, x))
    && (forall x, y, z :: le(x, y) && le(y, z) ==> le(x, z))
  }

  /** Unless it throws, the comparator answers for `le`. */
  ghost predicate Consistent<T(!new)>(answer: Comparator<T>, le: Order<T>) {
    TotalPreorder(le) && forall n, x, y :: Answers(answer(n, x, y), le, x, y)
  }

  predicate Answers<T>(a: Answer, le: Order<T>, x: T, y: T) {
    match a
    case Less => le(x, y) && !le(y, x)
    case Equal => le(x, y) && le(y, x)
    case Greater => !le(x, y)
    case Throws => true
  }

  /** Undefined goes after every value. */
  predicate CellLe<T>(le: Order<T>, x: Cell<T>, y: Cell<T>) {
    if x.Value? && y.Value? then le(x.v, y.v) else !y.Value?
  }

  /** Of the elements that stood at `i` and `j`, the first goes before the second: it is smaller, or no
      larger and stood first. */
  predicate Goes<T>(le: Order<T>, before: seq<Cell<T>>, i: nat, j: nat)
    requires i < |before| && j < |before|
  {
    CellLe(le, before[i], before[j]) && (CellLe(le, before[j], before[i]) ==> i < j)
  }

  predicate Within(p: seq<nat>, lo: nat, hi: nat) { forall i :: 0 <= i < |p| ==> lo <= p[i] < hi }

  predicate Distinct(p: seq<nat>) { forall i, j :: 0 <= i < j < |p| ==> p[i] != p[j] }

  /** Each place from `lo` to `hi` once. */
  predicate Rearranges(p: seq<nat>, lo: nat, hi: nat) { lo <= hi && |p| == hi - lo && Within(p, lo, hi) && Distinct(p) }

  predicate InOrder<T>(le: Order<T>, before: seq<Cell<T>>, p: seq<nat>)
    requires Within(p, 0, |before|)
  {
    forall i, j :: 0 <= i < j < |p| ==> Goes(le, before, p[i], p[j])
  }

  lemma GoesTransitive<T(!new)>(le: Order<T>, before: seq<Cell<T>>, i: nat, j: nat, k: nat)
    requires TotalPreorder(le) && i < |before| && j < |before| && k < |before|
    ensures Goes(le, before, i, j) && Goes(le, before, j, k) ==> Goes(le, before, i, k)
    ensures i != j ==> Goes(le, before, i, j) || Goes(le, before, j, i)
    ensures !(Goes(le, before, i, j) && Goes(le, before, j, i))
  {
  }

  // ---------------------------------------------------------------- merging

  /** The left element is taken unless the right one is smaller. */
  function Merged<T>(le: Order<T>, before: seq<Cell<T>>, a: seq<nat>, b: seq<nat>): (r: seq<nat>)
    requires Within(a, 0, |before|) && Within(b, 0, |before|)
    ensures |r| == |a| + |b| && Within(r, 0, |before|)
    ensures forall x :: x in r <==> x in a || x in b
    decreases |a| + |b|
  {
    if a == [] then b
    else if b == [] then a
    else if CellLe(le, before[a[0]], before[b[0]]) then [a[0]] + Merged(le, before, a[1..], b)
    else [b[0]] + Merged(le, before, a, b[1..])
  }

  lemma {:induction false} MergedInOrder<T(!new)>(le: Order<T>, before: seq<Cell<T>>, a: seq<nat>, b: seq<nat>)
    requires TotalPreorder(le) && Within(a, 0, |before|) && Within(b, 0, |before|)
    requires InOrder(le, before, a) && InOrder(le, before, b)
    requires forall i, j :: 0 <= i < |a| && 0 <= j < |b| ==> a[i] < b[j]
    ensures InOrder(le, before, Merged(le, before, a, b))
    decreases |a| + |b|
  {
    if a != [] && b != [] {
      if CellLe(le, before[a[0]], before[b[0]]) {
        MergedInOrder(le, before, a[1..], b);
        HeadFirst(le, before, a[0], a, b, Merged(le, before, a[1..], b));
      } else {
        MergedInOrder(le, before, a, b[1..]);
        HeadFirst(le, before, b[0], b, a, Merged(le, before, a, b[1..]));
      }
    }
  }

  /** The element taken goes before all that are left. */
  lemma HeadFirst<T(!new)>(le: Order<T>, before: seq<Cell<T>>, x: nat, own: seq<nat>, other: seq<nat>, rest: seq<nat>)
    requires TotalPreorder(le) && Within(own, 0, |before|) && Within(other, 0, |before|) && Within(rest, 0, |before|)
    requires InOrder(le, before, own) && InOrder(le, before, other) && InOrder(le, before, rest)
    requires own != [] && x == own[0] && other != [] && Goes(le, before, x, other[0])
    requires forall y :: y in rest ==> y in own[1..] || y in other
    ensures InOrder(le, before, [x] + rest)
  {
    forall j | 0 <= j < |rest| ensures Goes(le, before, x, rest[j]) {
      var y := rest[j];
      assert y in rest;
      if y in own[1..] {
        var k :| 1 <= k < |own| && own[k] == y;
      } else {
        var k :| 0 <= k < |other| && other[k] == y;
        if k > 0 { GoesTransitive(le, before, x, other[0], y); }
      }
    }
  }

  /** There is only one stable order: any two that qualify are the same. */
  lemma {:induction false} StableUnique<T(!new)>(le: Order<T>, before: seq<Cell<T>>, p: seq<nat>, q: seq<nat>)
    requires TotalPreorder(le) && Within(p, 0, |before|) && Within(q, 0, |before|)
    requires InOrder(le, before, p) && InOrder(le, before, q) && forall x :: x in p <==> x in q
    ensures p == q
    decreases p
  {
    if p == [] {
      NoneIn(q);
    } else {
      assert p[0] in p;
      var k :| 0 <= k < |q| && q[k] == p[0];
      assert q[0] in q;
      var m :| 0 <= m < |p| && p[m] == q[0];
      GoesTransitive(le, before, p[0], q[0], p[0]);
      assert p[0] == q[0];
      TailMembers(le, before, p, q);
      StableUnique(le, before, p[1..], q[1..]);
    }
  }

  lemma NoneIn(q: seq<nat>)
    ensures (forall x :: x !in q) ==> q == []
  {
    if q != [] { assert q[0] in q; }
  }

  lemma TailMembers<T(!new)>(le: Order<T>, before: seq<Cell<T>>, p: seq<nat>, q: seq<nat>)
    requires TotalPreorder(le) && Within(p, 0, |before|) && Within(q, 0, |before|)
    requires InOrder(le, before, p) && InOrder(le, before, q) && (forall x :: x in p <==> x in q)
    requires p != [] && q != [] && p[0] == q[0]
    ensures forall x :: x in p[1..] <==> x in q[1..]
  {
    forall x ensures x in p[1..] <==> x in q[1..] {
      InTail(le, before, p, x);
      InTail(le, before, q, x);
    }
  }

  lemma InTail<T(!new)>(le: Order<T>, before: seq<Cell<T>>, p: seq<nat>, x: nat)
    requires TotalPreorder(le) && Within(p, 0, |before|) && InOrder(le, before, p) && p != []
    ensures x in p[1..] <==> x in p && x != p[0]
  {
    if x in p[1..] {
      var k :| 1 <= k < |p| && p[k] == x;
      GoesTransitive(le, before, p[0], p[k], p[0]);
    }
  }

  // ---------------------------------------------------------------- the sort as it runs

  /** An exception is pending when the last call threw, and no call before it did. */
  ghost predicate ThrewLast<T(!new)>(answer: Comparator<T>, asked: seq<(T, T)>, pending: bool) {
    && (pending ==> asked != [])
    && forall i :: 0 <= i < |asked| ==> (answer(i, asked[i].0, asked[i].1) == Throws <==> pending && i == |asked| - 1)
  }

  /** Every pair shown since was a pair of these elements; none after a throw. */
  ghost predicate Shown<T(!new)>(was: seq<(T, T)>, threw: bool, asked: seq<(T, T)>, cells: seq<Cell<T>>) {
    && was <= asked && (threw ==> was == asked)
    && forall i :: |was| <= i < |asked| ==> Value(asked[i].0) in cells && Value(asked[i].1) in cells
  }

  /** The comparator at run time: how often it was called, and whether an exception is pending. */
  class Caller<T(!new)> {
    const answer: Comparator<T>
    var calls: nat
    var pending: bool
    ghost var asked: seq<(T, T)>   // what it was shown, call by call

    constructor (answer: Comparator<T>)
      ensures this.answer == answer && Valid() && !pending && asked == []
    {
      this.answer := answer;
      calls, pending, asked := 0, false, [];
    }

    ghost predicate Valid()
      reads this
    {
      calls == |asked| && ThrewLast(answer, asked, pending)
    }

    /** `sort_compare`: an undefined is never shown to the comparator. */
    method Compare(x: Cell<T>, y: Cell<T>) returns (order: int)
      requires !x.Hole? && !y.Hole? && !pending && Valid()
      modifies this
      ensures Valid() && asked == old(asked) + if x.Value? && y.Value? then [(x.v, y.v)] else []
      ensures !pending ==> forall le :: Consistent(answer, le) ==> (order <= 0 <==> CellLe(le, x, y))
    {
      if x.Undefined? || y.Undefined? {
        return if x.Undefined? then (if y.Undefined? then 0 else 1) else -1;
      }
      var a := answer(calls, x.v, y.v);
      forall le | Consistent(answer, le) ensures Answers(a, le, x.v, y.v) { }
      calls, asked := calls + 1, asked + [(x.v, y.v)];
      match a {
        case Less => order := -1;
        case Equal => order := 0;
        case Greater => order := 1;
        case Throws =>
          pending := true;
          order := 0;
      }
    }
  }

  /** The elements that stood at `p`. */
  function Picked<T>(before: seq<Cell<T>>, p: seq<nat>): (r: seq<Cell<T>>)
    requires Within(p, 0, |before|)
    ensures |r| == |p|
  {
    seq(|p|, i requires 0 <= i < |p| => before[p[i]])
  }

  /** Merging two runs, so far: `p` holds the places taken, `a` and `b` are the next ones. */
  ghost predicate Merging<T(!new)>(before: seq<Cell<T>>, left: seq<nat>, right: seq<nat>, a: nat, b: nat, p: seq<nat>) {
    && a <= |left| && b <= |right| && |p| == a + b && Within(p, 0, |before|)
    && (forall x :: x in p <==> x in left[..a] || x in right[..b])
    && Distinct(p)
  }

  /** For a consistent comparator, what is taken and what is left merge to the stable order. */
  ghost predicate MergesTo<T(!new)>(answer: Comparator<T>, before: seq<Cell<T>>, left: seq<nat>, right: seq<nat>, a: nat, b: nat, p: seq<nat>)
    requires Within(left, 0, |before|) && Within(right, 0, |before|) && a <= |left| && b <= |right|
  {
    forall le :: Consistent(answer, le) ==>
      p + Merged(le, before, left[a..], right[b..]) == Merged(le, before, left, right)
  }

  predicate Runs<T>(before: seq<Cell<T>>, left: seq<nat>, right: seq<nat>) {
    && Within(left, 0, |before|) && Within(right, 0, |before|) && Distinct(left) && Distinct(right)
    && (forall i, j :: 0 <= i < |left| && 0 <= j < |right| ==> left[i] < right[j])
  }

  lemma TakeLeft<T(!new)>(before: seq<Cell<T>>, left: seq<nat>, right: seq<nat>, a: nat, b: nat, p: seq<nat>)
    requires Runs(before, left, right) && Merging(before, left, right, a, b, p) && a < |left|
    ensures Merging(before, left, right, a + 1, b, p + [left[a]])
  {
    assert left[..a + 1] == left[..a] + [left[a]];
    forall i | 0 <= i < |p| ensures p[i] != left[a] {
      assert p[i] in p;
      if p[i] in right[..b] { var k :| 0 <= k < b && right[k] == p[i]; }
    }
  }

  lemma TakeRight<T(!new)>(before: seq<Cell<T>>, left: seq<nat>, right: seq<nat>, a: nat, b: nat, p: seq<nat>)
    requires Runs(before, left, right) && Merging(before, left, right, a, b, p) && b < |right|
    ensures Merging(before, left, right, a, b + 1, p + [right[b]])
  {
    assert right[..b + 1] == right[..b] + [right[b]];
    forall i | 0 <= i < |p| ensures p[i] != right[b] {
      assert p[i] in p;
      if p[i] in left[..a] { var k :| 0 <= k < a && left[k] == p[i]; }
    }
  }

  lemma MergedLeft<T(!new)>(le: Order<T>, before: seq<Cell<T>>, l: seq<nat>, r: seq<nat>)
    requires Within(l, 0, |before|) && Within(r, 0, |before|) && l != []
    requires r != [] ==> CellLe(le, before[l[0]], before[r[0]])
    ensures Merged(le, before, l, r) == [l[0]] + Merged(le, before, l[1..], r)
  {
    hide CellLe;
    assert l == [l[0]] + l[1..];
    if r == [] { assert Merged(le, before, l[1..], r) == l[1..]; }
  }

  lemma MergedRight<T(!new)>(le: Order<T>, before: seq<Cell<T>>, l: seq<nat>, r: seq<nat>)
    requires Within(l, 0, |before|) && Within(r, 0, |before|) && r != []
    requires l != [] ==> !CellLe(le, before[l[0]], before[r[0]])
    ensures Merged(le, before, l, r) == [r[0]] + Merged(le, before, l, r[1..])
  {
    hide CellLe;
    assert r == [r[0]] + r[1..];
    if l != [] && |r| == 1 { assert r[1..] == []; }
  }

  lemma LeftMerges<T(!new)>(le: Order<T>, before: seq<Cell<T>>, left: seq<nat>, right: seq<nat>, a: nat, b: nat, p: seq<nat>)
    requires Within(left, 0, |before|) && Within(right, 0, |before|) && a < |left| && b <= |right|
    requires b < |right| ==> CellLe(le, before[left[a]], before[right[b]])
    ensures p + Merged(le, before, left[a..], right[b..]) == (p + [left[a]]) + Merged(le, before, left[a + 1..], right[b..])
  {
    hide CellLe, Merged;
    MergedLeft(le, before, left[a..], right[b..]);
    assert left[a..][1..] == left[a + 1..];
    assert p + ([left[a]] + Merged(le, before, left[a + 1..], right[b..])) == (p + [left[a]]) + Merged(le, before, left[a + 1..], right[b..]);
  }

  lemma RightMerges<T(!new)>(le: Order<T>, before: seq<Cell<T>>, left: seq<nat>, right: seq<nat>, a: nat, b: nat, p: seq<nat>)
    requires Within(left, 0, |before|) && Within(right, 0, |before|) && a <= |left| && b < |right|
    requires a < |left| ==> !CellLe(le, before[left[a]], before[right[b]])
    ensures p + Merged(le, before, left[a..], right[b..]) == (p + [right[b]]) + Merged(le, before, left[a..], right[b + 1..])
  {
    hide CellLe, Merged;
    MergedRight(le, before, left[a..], right[b..]);
    assert right[b..][1..] == right[b + 1..];
    assert p + ([right[b]] + Merged(le, before, left[a..], right[b + 1..])) == (p + [right[b]]) + Merged(le, before, left[a..], right[b + 1..]);
  }

  /** One element taken: from the left run on a tie. */
  lemma TakeOne<T(!new)>(answer: Comparator<T>, before: seq<Cell<T>>, left: seq<nat>, right: seq<nat>, a: nat, b: nat, p: seq<nat>, takeLeft: bool)
    requires Runs(before, left, right) && Merging(before, left, right, a, b, p) && MergesTo(answer, before, left, right, a, b, p)
    requires if takeLeft then a < |left| else b < |right|
    requires forall le :: Consistent(answer, le) && a < |left| && b < |right| ==>
      (takeLeft <==> CellLe(le, before[left[a]], before[right[b]]))
    ensures MergesTo(answer, before, left, right, if takeLeft then a + 1 else a, if takeLeft then b else b + 1,
                     p + [if takeLeft then left[a] else right[b]])
  {
    hide CellLe, Merged;
    forall le | Consistent(answer, le)
      ensures p + [if takeLeft then left[a] else right[b]] +
        Merged(le, before, left[if takeLeft then a + 1 else a..], right[if takeLeft then b else b + 1..]) ==
        Merged(le, before, left, right)
    {
      if takeLeft { LeftMerges(le, before, left, right, a, b, p); } else { RightMerges(le, before, left, right, a, b, p); }
    }
  }
}

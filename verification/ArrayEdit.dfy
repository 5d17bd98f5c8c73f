/** splice, unshift, push, pop and shift, which move elements within the array's own buffer (sections 23.1.3.21
    to 23.1.3.36 of ECMA-262; jsrt_array_ops.c). */
module ArrayEdit {
  import opened ArraySort

  /** An argument after ToIntegerOrInfinity. */
  datatype Position = NegInfinity | Finite(i: int) | Infinity

  /** Counted from the end if negative, and clamped into the array. */
  function RelativeIndex(v: Position, len: nat): (k: nat)
    ensures k <= len
    ensures forall i: int :: v == Finite(i) && 0 <= i <= len ==> k == i
    ensures forall i: int :: v == Finite(i) && i < 0 <= len + i ==> k - len == i
  {
    match v
    case NegInfinity => 0
    case Infinity => len
    case Finite(i) => if i < 0 then (if len + i <= 0 then 0 else len + i) else if i >= len then len else i
  }

  function DeleteCount(v: Position, room: nat): (k: nat)
    ensures k <= room
    ensures forall i: int :: v == Finite(i) && 0 <= i <= room ==> k == i
  {
    match v
    case NegInfinity => 0
    case Infinity => room
    case Finite(i) => if i <= 0 then 0 else if i >= room then room else i
  }

  // ---------------------------------------------------------------- edits of a list

  datatype Edit<T> =
    | Push(x: Cell<T>)
    | Pop
    | Shift
    | Unshift(items: seq<Cell<T>>)
    | Splice(start: Position, count: Position, items: seq<Cell<T>>)
    | SpliceFrom(start: Position)

  /** Where an edit of a list of length `len` takes elements out and how many. */
  function Span<T>(e: Edit<T>, len: nat): (r: (nat, nat))
    ensures r.0 + r.1 <= len
  {
    match e
    case Push(_) => (len, 0)
    case Pop => if len == 0 then (0, 0) else (len - 1, 1)
    case Shift => (0, if len == 0 then 0 else 1)
    case Unshift(_) => (0, 0)
    case Splice(start, count, _) => var from := RelativeIndex(start, len); (from, DeleteCount(count, len - from))
    case SpliceFrom(start) => var from := RelativeIndex(start, len); (from, len - from)
  }

  /** What an edit puts in the place of what it takes out. */
  function Inserted<T>(e: Edit<T>): seq<Cell<T>> {
    match e
    case Push(x) => [x]
    case Unshift(items) => items
    case Splice(_, _, items) => items
    case _ => []
  }

  function Replaced<T>(s: seq<Cell<T>>, from: nat, count: nat, items: seq<Cell<T>>): (r: seq<Cell<T>>)
    requires from + count <= |s|
    ensures |r| == |s| - count + |items|
  {
    s[..from] + items + s[from + count..]
  }

  function Edited<T>(s: seq<Cell<T>>, e: Edit<T>): seq<Cell<T>> {
    var (from, count) := Span(e, |s|); Replaced(s, from, count, Inserted(e))
  }

  function Removed<T>(s: seq<Cell<T>>, e: Edit<T>): seq<Cell<T>> {
    var (from, count) := Span(e, |s|); s[from..from + count]
  }

  function EditedAll<T>(s: seq<Cell<T>>, es: seq<Edit<T>>): seq<Cell<T>>
    decreases |es|
  {
    if es == [] then s else EditedAll(Edited(s, es[0]), es[1..])
  }

  function RemovedAll<T>(s: seq<Cell<T>>, es: seq<Edit<T>>): seq<Cell<T>>
    decreases |es|
  {
    if es == [] then [] else Removed(s, es[0]) + RemovedAll(Edited(s, es[0]), es[1..])
  }

  function InsertedAll<T>(es: seq<Edit<T>>): seq<Cell<T>> {
    if es == [] then [] else Inserted(es[0]) + InsertedAll(es[1..])
  }

  /** The edit that takes `e` back: a splice at the same place, of as many elements as `e` put in. */
  function Undo<T>(s: seq<Cell<T>>, e: Edit<T>): Edit<T> {
    Splice(Finite(Span(e, |s|).0), Finite(|Inserted(e)|), Removed(s, e))
  }

  function UndoAll<T>(s: seq<Cell<T>>, es: seq<Edit<T>>): seq<Edit<T>>
    decreases |es|
  {
    if es == [] then [] else UndoAll(Edited(s, es[0]), es[1..]) + [Undo(s, es[0])]
  }

  lemma ReplacedBack<T>(s: seq<Cell<T>>, from: nat, count: nat, items: seq<Cell<T>>)
    requires from + count <= |s|
    ensures var r := Replaced(s, from, count, items);
      r[from..from + |items|] == items && Replaced(r, from, |items|, s[from..from + count]) == s
  {
    var r := Replaced(s, from, count, items);
    assert r[..from] == s[..from] && r[from + |items|..] == s[from + count..];
  }

  lemma ReplacedKeeps<T>(s: seq<Cell<T>>, from: nat, count: nat, items: seq<Cell<T>>)
    requires from + count <= |s|
    ensures multiset(Replaced(s, from, count, items)) + multiset(s[from..from + count]) == multiset(s) + multiset(items)
  {
    assert s == s[..from] + s[from..from + count] + s[from + count..];
  }

  /** Every edit is undone by one splice, which hands back what the edit put in. */
  lemma UndoRestores<T>(s: seq<Cell<T>>, e: Edit<T>)
    ensures Edited(Edited(s, e), Undo(s, e)) == s && Removed(Edited(s, e), Undo(s, e)) == Inserted(e)
  {
    hide Replaced, Inserted, Span;
    var (from, count) := Span(e, |s|);
    var after := Edited(s, e);
    UndoSpan(s, e);
    ReplacedBack(s, from, count, Inserted(e));
  }

  lemma UndoSpan<T>(s: seq<Cell<T>>, e: Edit<T>)
    ensures var (from, count) := Span(e, |s|);
      var n := |Inserted(e)|;
      Span(Undo(s, e), |s| - count + n) == (from, n) && Inserted(Undo(s, e)) == s[from..from + count]
  {
  }

  lemma {:induction false} EditedAllConcat<T>(s: seq<Cell<T>>, xs: seq<Edit<T>>, ys: seq<Edit<T>>)
    ensures EditedAll(s, xs + ys) == EditedAll(EditedAll(s, xs), ys)
    decreases |xs|
  {
    if xs == [] {
      assert xs + ys == ys;
    } else {
      assert (xs + ys)[1..] == xs[1..] + ys;
      EditedAllConcat(Edited(s, xs[0]), xs[1..], ys);
    }
  }

  /** A whole run is undone by the splices in the opposite order. */
  lemma {:induction false} RunUndone<T>(s: seq<Cell<T>>, es: seq<Edit<T>>)
    ensures EditedAll(EditedAll(s, es), UndoAll(s, es)) == s
    decreases |es|
  {
    hide Edited, Undo;
    if es != [] {
      var next := Edited(s, es[0]);
      RunUndone(next, es[1..]);
      EditedAllConcat(EditedAll(s, es), UndoAll(next, es[1..]), [Undo(s, es[0])]);
      UndoRestores(s, es[0]);
      assert [Undo(s, es[0])][1..] == [];
    }
  }

  lemma Telescopes<T>(now: multiset<T>, next: multiset<T>, last: multiset<T>, out1: multiset<T>, out: multiset<T>, in1: multiset<T>, ins: multiset<T>)
    requires next + out1 == now + in1 && last + out == next + ins
    ensures last + (out1 + out) == now + (in1 + ins)
  {
    assert last + (out1 + out) == next + ins + out1 == now + in1 + ins;
  }

  lemma EditKeeps<T>(s: seq<Cell<T>>, e: Edit<T>)
    ensures multiset(Edited(s, e)) + multiset(Removed(s, e)) == multiset(s) + multiset(Inserted(e))
  {
    hide Replaced, Inserted, Span;
    var (from, count) := Span(e, |s|);
    ReplacedKeeps(s, from, count, Inserted(e));
  }

  /** No element is lost or doubled: what is left and what was handed back are what was there and what was put in. */
  lemma {:induction false} Conserved<T>(s: seq<Cell<T>>, es: seq<Edit<T>>)
    ensures multiset(EditedAll(s, es)) + multiset(RemovedAll(s, es)) == multiset(s) + multiset(InsertedAll(es))
    decreases |es|
  {
    hide Edited, Removed, Inserted;
    if es != [] {
      var e := es[0];
      var next := Edited(s, e);
      Conserved(next, es[1..]);
      EditKeeps(s, e);
      assert EditedAll(s, es) == EditedAll(next, es[1..]);
      Telescopes(multiset(s), multiset(next), multiset(EditedAll(s, es)), multiset(Removed(s, e)), multiset(RemovedAll(next, es[1..])),
        multiset(Inserted(e)), multiset(InsertedAll(es[1..])));
      assert multiset(RemovedAll(s, es)) == multiset(Removed(s, e)) + multiset(RemovedAll(next, es[1..]));
      assert multiset(InsertedAll(es)) == multiset(Inserted(e)) + multiset(InsertedAll(es[1..]));
    }
  }

  /** Items put in front together keep their order; one at a time they end up reversed. */
  lemma UnshiftKeepsOrder<T>(s: seq<Cell<T>>, x: Cell<T>, y: Cell<T>)
    ensures Edited(s, Unshift([x, y])) == [x, y] + s
    ensures EditedAll(s, [Unshift([x]), Unshift([y])]) == [y, x] + s
  {
    var first, second := Unshift([x]), Unshift([y]);
    var es := [first, second];
    InFront(s, [x, y]);
    InFront(s, [x]);
    InFront([x] + s, [y]);
    assert [y] + ([x] + s) == [y, x] + s;
    hide Edited;
    assert es[1..] == [second] && [second][1..] == [];
    assert EditedAll([x] + s, [second]) == Edited([x] + s, second);
  }

  lemma InFront<T>(s: seq<Cell<T>>, items: seq<Cell<T>>)
    ensures Edited(s, Unshift(items)) == items + s
  {
  }

  /** Where a position falls: from the end if negative, and no further than the ends. */
  function Clamped(v: Position, len: nat): int {
    match v
    case NegInfinity => 0
    case Infinity => len
    case Finite(i) => Low(if i < 0 then High(len + i, 0) else i, len)
  }

  function High(a: int, b: int): int { if a < b then b else a }

  function Low(a: int, b: int): int { if a < b then a else b }

  /** What each edit leaves and hands back. */
  lemma EditMeans<T>(s: seq<Cell<T>>, e: Edit<T>)
    ensures (Edited(s, e), Removed(s, e)) ==
      match e
      case Push(x) => (s + [x], [])
      case Pop => if s == [] then (s, s) else (s[..|s| - 1], [s[|s| - 1]])
      case Shift => if s == [] then (s, s) else (s[1..], [s[0]])
      case Unshift(items) => (items + s, [])
      case SpliceFrom(start) => var k := Clamped(start, |s|); (s[..k], s[k..])
      case Splice(start, count, items) =>
        var k := Clamped(start, |s|);
        var m := k + (match count case NegInfinity => 0 case Infinity => |s| - k case Finite(n) => Low(High(n, 0), |s| - k));
        (s[..k] + items + s[m..], s[k..m])
  {
    match e
    case Push(x) =>
      assert s[..|s|] + [x] + s[|s| + 0..] == s + [x] && s[|s|..|s| + 0] == [];
    case Unshift(items) => InFront(s, items);
    case Splice(start, count, items) =>
      ClampedIs(start, |s|);
      CountIs(count, |s| - RelativeIndex(start, |s|));
    case SpliceFrom(start) =>
      ClampedIs(start, |s|);
      var k := RelativeIndex(start, |s|);
      assert s[k..k + (|s| - k)] == s[k..] && s[..k] + [] + s[k + (|s| - k)..] == s[..k];
    case Pop => EndMeans(s);
    case Shift => EndMeans(s);
  }

  lemma EndMeans<T>(s: seq<Cell<T>>)
    ensures (Edited(s, Pop), Removed(s, Pop)) == if s == [] then (s, s) else (s[..|s| - 1], [s[|s| - 1]])
    ensures (Edited(s, Shift), Removed(s, Shift)) == if s == [] then (s, s) else (s[1..], [s[0]])
  {
    NothingReplaced(s);
    if s != [] {
      LastTaken(s);
      FirstTaken(s);
      hide Replaced;
    }
  }

  lemma LastTaken<T>(s: seq<Cell<T>>)
    requires s != []
    ensures Replaced(s, |s| - 1, 1, []) == s[..|s| - 1] && s[|s| - 1..|s| - 1 + 1] == [s[|s| - 1]]
  {
  }

  lemma FirstTaken<T>(s: seq<Cell<T>>)
    requires s != []
    ensures Replaced(s, 0, 1, []) == s[1..] && s[0..0 + 1] == [s[0]]
  {
  }

  lemma NothingReplaced<T>(s: seq<Cell<T>>)
    ensures Replaced(s, 0, 0, []) == s && s[0..0 + 0] == []
  {
  }

  lemma ClampedIs(v: Position, len: nat)
    ensures Clamped(v, len) == RelativeIndex(v, len)
  {
  }

  lemma CountIs(v: Position, room: nat)
    ensures DeleteCount(v, room) == match v case NegInfinity => 0 case Infinity => room case Finite(n) => Low(High(n, 0), room)
  {
  }

  // ---------------------------------------------------------------- the array

  ghost predicate IsMoved<T>(was: seq<Cell<T>>, now: seq<Cell<T>>, to: nat, from: nat, n: nat)
    requires to + n <= |was| && from + n <= |was|
  {
    && |now| == |was|
    && forall j {:trigger now[j]} :: 0 <= j < |was| ==> now[j] == if to <= j < to + n then was[j - to + from] else was[j]
  }

  function Moved<T>(was: seq<Cell<T>>, to: nat, from: nat, n: nat): seq<Cell<T>>
    requires to + n <= |was| && from + n <= |was|
  {
    was[..to] + was[from..from + n] + was[to + n..]
  }

  lemma MovedPieces<T>(was: seq<Cell<T>>, now: seq<Cell<T>>, to: nat, from: nat, n: nat)
    requires to + n <= |was| && from + n <= |was| && IsMoved(was, now, to, from, n)
    ensures now == Moved(was, to, from, n)
  {
    var r := Moved(was, to, from, n);
    assert forall j {:trigger r[j]} :: 0 <= j < |r| ==> r[j] == now[j];
  }

  /** `memmove`: the two ranges may overlap. */
  method Move<T>(a: array<Cell<T>>, to: nat, from: nat, n: nat)
    requires to + n <= a.Length && from + n <= a.Length
    modifies a
    ensures a[..] == Moved(old(a[..]), to, from, n)
  {
    hide Moved;
    if to <= from { MoveDown(a, to, from, n); } else { MoveUp(a, to, from, n); }
    MovedPieces(old(a[..]), a[..], to, from, n);
  }

  method MoveDown<T>(a: array<Cell<T>>, to: nat, from: nat, n: nat)
    requires to <= from && from + n <= a.Length
    modifies a
    ensures IsMoved(old(a[..]), a[..], to, from, n)
  {
    var k := 0;
    ghost var was := a[..];
    while k < n
      invariant 0 <= k <= n
      invariant forall j {:trigger a[j]} :: to <= j < to + k ==> a[j] == was[j - to + from]
      invariant forall j {:trigger a[j]} :: 0 <= j < a.Length && !(to <= j < to + k) ==> a[j] == was[j]
    {
      a[to + k] := a[from + k];
      k := k + 1;
    }
  }

  method MoveUp<T>(a: array<Cell<T>>, to: nat, from: nat, n: nat)
    requires from <= to && to + n <= a.Length
    modifies a
    ensures IsMoved(old(a[..]), a[..], to, from, n)
  {
    var k := n;
    ghost var was := a[..];
    while k > 0
      invariant 0 <= k <= n
      invariant forall j {:trigger a[j]} :: to + k <= j < to + n ==> a[j] == was[j - to + from]
      invariant forall j {:trigger a[j]} :: 0 <= j < a.Length && !(to + k <= j < to + n) ==> a[j] == was[j]
    {
      k := k - 1;
      a[to + k] := a[from + k];
    }
  }

  method Write<T>(a: array<Cell<T>>, at: nat, items: seq<Cell<T>>)
    requires at + |items| <= a.Length
    modifies a
    ensures a[..] == old(a[..at]) + items + old(a[at + |items|..])
  {
    var i := 0;
    while i < |items|
      invariant 0 <= i <= |items|
      invariant forall k :: 0 <= k < i ==> a[at + k] == items[k]
      invariant forall k :: 0 <= k < a.Length && !(at <= k < at + i) ==> a[k] == old(a[k])
    {
      a[at + i] := items[i];
      i := i + 1;
    }
    assert a[..at] == old(a[..at]) && a[at..at + i] == items && a[at + i..] == old(a[at + i..]);
    assert a[..] == a[..at] + a[at..at + i] + a[at + i..];
  }

  /** A vacated cell is cleared: the collector reads the whole buffer. */
  method Clear<T>(a: array<Cell<T>>, lo: nat, hi: nat)
    requires hi <= a.Length
    modifies a
    ensures forall k :: 0 <= k < a.Length ==> a[k] == if lo <= k < hi then Undefined else old(a[k])
  {
    var i := lo;
    while i < hi
      invariant lo <= i <= if lo < hi then hi else lo
      invariant forall k :: 0 <= k < a.Length ==> a[k] == if lo <= k < i then Undefined else old(a[k])
    {
      a[i] := Undefined;
      i := i + 1;
    }
  }

  /** The tail slid from behind the removed span to behind the gap, and the items written into the gap. */
  lemma SlidAndWritten<T>(s: seq<Cell<T>>, from: nat, count: nat, items: seq<Cell<T>>, wide: seq<Cell<T>>, slid: seq<Cell<T>>, written: seq<Cell<T>>)
    requires from + count <= |s| <= |wide| && |s| - count + |items| <= |wide| && wide[..|s|] == s
    requires slid == Moved(wide, from + |items|, from + count, |s| - from - count)
    requires written == slid[..from] + items + slid[from + |items|..]
    ensures |written| == |wide| && written[..|s| - count + |items|] == Replaced(s, from, count, items)
    ensures written[|s| - count + |items|..] == wide[|s| - count + |items|..]
  {
    assert wide[..from] == s[..from] && wide[from + count..|s|] == s[from + count..];
  }

  lemma SlidDown<T>(s: seq<Cell<T>>, from: nat, count: nat, wide: seq<Cell<T>>, slid: seq<Cell<T>>)
    requires from + count <= |s| <= |wide| && wide[..|s|] == s && slid == Moved(wide, from, from + count, |s| - from - count)
    ensures |slid| == |wide| && slid[..|s| - count] == Replaced(s, from, count, []) && slid[|s|..] == wide[|s|..]
  {
    assert wide[..from] == s[..from] && wide[from + count..|s|] == s[from + count..];
  }

  lemma ToTheEnd<T>(s: seq<Cell<T>>, start: Position)
    ensures var e: Edit<T> := Splice(start, Finite(|s| - RelativeIndex(start, |s|)), []);
      Edited(s, SpliceFrom(start)) == Edited(s, e) && Removed(s, SpliceFrom(start)) == Removed(s, e)
  {
    hide Replaced, RelativeIndex;
  }

  class JSArray<T> {
    var elements: array<Cell<T>>
    var length: nat

    ghost predicate Valid()
      reads this, elements
    {
      && length <= elements.Length && 0 < elements.Length
      && forall i :: length <= i < elements.Length ==> elements[i] == Undefined
    }

    ghost function Contents(): seq<Cell<T>>
      reads this, elements
      requires length <= elements.Length
    {
      elements[..length]
    }

    constructor (items: seq<Cell<T>>)
      ensures Valid() && Contents() == items && fresh(elements)
    {
      var buf := new Cell<T>[if |items| > 0 then |items| else 1](i => if 0 <= i < |items| then items[i] else Undefined);
      elements, length := buf, |items|;
      new;
      assert elements[..length] == items;
    }

    /** The capacity doubles until `index` fits. */
    method Grow(index: nat)
      requires Valid()
      modifies this`elements
      ensures Valid() && fresh(elements) && index < elements.Length && Contents() == old(Contents())
    {
      var capacity := elements.Length;
      while capacity <= index
        invariant elements.Length <= capacity
        decreases index - capacity
      {
        capacity := capacity * 2;
      }
      var grown := new Cell<T>[capacity](i => Undefined);
      var i := 0;
      while i < length
        invariant 0 <= i <= length
        invariant elements == old(elements)
        invariant grown[..i] == elements[..i] && forall k :: i <= k < capacity ==> grown[k] == Undefined
      {
        grown[i] := elements[i];
        i := i + 1;
      }
      elements := grown;
    }

    method Append(x: Cell<T>)
      requires Valid()
      modifies this, elements
      ensures Valid() && (elements == old(elements) || fresh(elements)) && Contents() == old(Contents()) + [x]
    {
      if length >= elements.Length { Grow(length); }
      elements[length] := x;
      length := length + 1;
    }

    /** Room for more, before what goes there is known. */
    method Lengthen(to: nat)
      requires Valid()
      modifies this, elements
      ensures Valid() && (elements == old(elements) || fresh(elements))
      ensures length == if to <= old(length) then old(length) else to
      ensures Contents()[..old(length)] == old(Contents())
    {
      var i := length;
      while i < to
        invariant Valid() && (elements == old(elements) || fresh(elements))
        invariant length == i && old(length) <= i <= if to <= old(length) then old(length) else to
        invariant Contents()[..old(length)] == old(Contents())
      {
        Append(Undefined);
        i := i + 1;
      }
    }

    method PushItem(x: Cell<T>)
      requires Valid()
      modifies this, elements
      ensures Valid() && (elements == old(elements) || fresh(elements)) && Contents() == Edited(old(Contents()), Push(x))
    {
      Append(x);
    }

    /** The tail one place down. */
    method SlideFirst()
      requires Valid() && length > 0
      modifies elements
      ensures Valid() && elements[..length - 1] == old(Contents())[1..]
    {
      hide Replaced, Moved;
      ghost var s, wide := Contents(), elements[..];
      Move(elements, 0, 1, length - 1);
      SlidDown(s, 0, 1, wide, elements[..]);
      FirstTaken(s);
    }

    /** An element off either end, the vacated cell cleared. */
    method Take(fromFront: bool) returns (taken: bool, x: Cell<T>)
      requires Valid()
      modifies this, elements
      ensures Valid() && elements == old(elements) && taken == (old(length) > 0)
      ensures Contents() == Edited(old(Contents()), if fromFront then Shift else Pop)
      ensures (if taken then [x] else []) == Removed(old(Contents()), if fromFront then Shift else Pop)
    {
      hide Replaced, Moved, Edited, Removed;
      ghost var s := Contents();
      EndMeans(s);
      if length == 0 { return false, Undefined; }
      x := if fromFront then elements[0] else elements[length - 1];
      if fromFront {
        SlideFirst();
      }
      ghost var slid := elements[..];
      assert slid[..length - 1] == if fromFront then s[1..] else s[..length - 1];
      elements[length - 1] := Undefined;
      length := length - 1;
      assert elements[..length] == slid[..length];
      assert x == if fromFront then s[0] else s[|s| - 1];
      return true, x;
    }

    method UnshiftItems(items: seq<Cell<T>>)
      requires Valid()
      modifies this, elements
      ensures Valid() && (elements == old(elements) || fresh(elements))
      ensures Contents() == Edited(old(Contents()), Unshift(items))
    {
      if items == [] { return; }
      var n, len := |items|, length;
      Lengthen(len + n);
      SlideAndWrite(0, 0, items, len, old(Contents()));
    }

    method RemoveSpan(from: nat, count: nat)
      requires Valid() && from + count <= length
      modifies this, elements
      ensures Valid() && elements == old(elements)
      ensures Contents() == Replaced(old(Contents()), from, count, [])
    {
      hide Replaced, Moved;
      ghost var wide := elements[..];
      Move(elements, from, from + count, length - from - count);
      SlidDown(old(Contents()), from, count, wide, elements[..]);
      ghost var slid := elements[..];
      Clear(elements, length - count, length);
      assert elements[..length - count] == slid[..length - count];
      length := length - count;
    }

    method SpliceOut(start: Position, count: Position) returns (removed: JSArray<T>)
      requires Valid()
      modifies this, elements
      ensures Valid() && elements == old(elements)
      ensures Contents() == Edited(old(Contents()), Splice(start, count, []))
      ensures removed.Valid() && fresh(removed) && removed.Contents() == Removed(old(Contents()), Splice(start, count, []))
    {
      hide Replaced, RelativeIndex, DeleteCount;
      var from := RelativeIndex(start, length);
      var n := DeleteCount(count, length - from);
      ghost var e: Edit<T> := Splice(start, count, []);
      ghost var s := Contents();
      assert Span(e, length) == (from, n) && Inserted(e) == [];
      assert Edited(s, e) == Replaced(s, from, n, []) && Removed(s, e) == s[from..from + n] == elements[from..from + n];
      removed := new JSArray(elements[from..from + n]);
      RemoveSpan(from, n);
    }

    /** No count at all means to the end. */
    method SpliceToEnd(start: Position) returns (removed: JSArray<T>)
      requires Valid()
      modifies this, elements
      ensures Valid() && elements == old(elements)
      ensures Contents() == Edited(old(Contents()), SpliceFrom(start))
      ensures removed.Valid() && fresh(removed) && removed.Contents() == Removed(old(Contents()), SpliceFrom(start))
    {
      hide Edited, Removed, RelativeIndex;
      ToTheEnd(Contents(), start);
      removed := SpliceOut(start, Finite(length - RelativeIndex(start, length)));
    }

    /** The buffer is long enough: the tail slides and the items land in the gap. */
    method SlideAndWrite(from: nat, count: nat, items: seq<Cell<T>>, len: nat, ghost s: seq<Cell<T>>)
      requires from + count <= len == |s| && len <= elements.Length && len - count + |items| <= elements.Length && elements[..len] == s
      modifies elements
      ensures elements[..len - count + |items|] == Replaced(s, from, count, items)
      ensures elements[len - count + |items|..] == old(elements[len - count + |items|..])
    {
      hide Replaced, Moved;
      var n := |items|;
      ghost var wide := elements[..];
      Move(elements, from + n, from + count, len - from - count);
      ghost var slid := elements[..];
      Write(elements, from, items);
      SlidAndWritten(s, from, count, items, wide, slid, elements[..]);
    }

    method ReplaceSpan(from: nat, count: nat, items: seq<Cell<T>>)
      requires Valid() && from + count <= length
      modifies this, elements
      ensures Valid() && (elements == old(elements) || fresh(elements))
      ensures Contents() == Replaced(old(Contents()), from, count, items)
    {
      hide Replaced;
      var len := length;
      var newlen := len - count + |items|;
      Lengthen(newlen);
      SlideAndWrite(from, count, items, len, old(Contents()));
      assert forall k :: len <= k < elements.Length && newlen <= k ==> elements[k] == elements[newlen..][k - newlen];
      Clear(elements, newlen, len);
      length := newlen;
    }

    method SpliceInsert(start: Position, count: Position, items: seq<Cell<T>>) returns (removed: JSArray<T>)
      requires Valid()
      modifies this, elements
      ensures Valid() && (elements == old(elements) || fresh(elements))
      ensures Contents() == Edited(old(Contents()), Splice(start, count, items))
      ensures removed.Valid() && fresh(removed) && removed.Contents() == Removed(old(Contents()), Splice(start, count, items))
    {
      hide Replaced, RelativeIndex, DeleteCount;
      var from := RelativeIndex(start, length);
      var n := DeleteCount(count, length - from);
      assert Span(Splice(start, count, items), length) == (from, n);
      removed := new JSArray(elements[from..from + n]);
      ReplaceSpan(from, n, items);
    }
  }
}

/** Which keys are array indices, and the order in which own keys are listed (sections 6.1.7 and
    10.1.11.1 of ECMA-262; jsrt_shape.c, jsrt_shape.zig). */
module KeyOrder {
  /** The code units or bytes of a key. */
  type Key = seq<nat>

  const MAX_INDEX: nat := 0xFFFF_FFFE

  predicate IsDigit(c: nat) { 48 <= c <= 57 }

  predicate AllDigits(ds: seq<nat>) { forall i :: 0 <= i < |ds| ==> IsDigit(ds[i]) }

  /** The number a run of digits spells. */
  function NatOf(ds: seq<nat>): (n: nat)
    requires AllDigits(ds)
  {
    if ds == [] then 0 else NatOf(ds[..|ds| - 1]) * 10 + (ds[|ds| - 1] - 48)
  }

  /** The digits of a number, no leading zero. */
  function NatText(n: nat): (ds: seq<nat>)
    ensures AllDigits(ds) && |ds| >= 1
  {
    if n < 10 then [48 + n] else NatText(n / 10) + [48 + n % 10]
  }

  predicate Canonical(ds: seq<nat>) { AllDigits(ds) && ds != [] && (ds[0] == 48 ==> |ds| == 1) }

  lemma {:induction false} NatTextRoundTrip(n: nat)
    ensures Canonical(NatText(n)) && NatOf(NatText(n)) == n
    ensures n > 0 ==> NatText(n)[0] != 48
  {
    if n >= 10 {
      NatTextRoundTrip(n / 10);
      assert NatText(n)[..|NatText(n)| - 1] == NatText(n / 10);
    }
  }

  lemma {:induction false} CanonicalText(ds: seq<nat>)
    requires Canonical(ds)
    ensures NatText(NatOf(ds)) == ds
    ensures ds[0] != 48 ==> NatOf(ds) > 0
  {
    if |ds| > 1 {
      var front := ds[..|ds| - 1];
      CanonicalText(front);
      assert NatOf(ds) / 10 == NatOf(front) && NatOf(ds) % 10 == ds[|ds| - 1] - 48;
      assert ds == front + [ds[|ds| - 1]];
    } else {
      assert ds == [ds[0]] && NatOf(ds[..0]) == 0;
    }
  }

  /** More digits never make a number smaller. */
  lemma {:induction false} NatOfGrows(ds: seq<nat>, m: nat)
    requires AllDigits(ds) && m <= |ds|
    ensures NatOf(ds[..m]) <= NatOf(ds)
    decreases |ds|
  {
    if m == |ds| {
      assert ds[..m] == ds;
    } else {
      var front := ds[..|ds| - 1];
      NatOfGrows(front, m);
      assert front[..m] == ds[..m];
    }
  }

  datatype Index = NotIndex | IsIndex(value: nat)

  /** A canonical decimal spelling of a number below 2^32 - 1. */
  function ArrayIndex(key: Key): Index {
    if Canonical(key) && NatOf(key) <= MAX_INDEX then IsIndex(NatOf(key)) else NotIndex
  }

  /** The keys that are array indices are the decimal spellings of the numbers below 2^32 - 1. */
  lemma IndexMeans(key: Key, n: nat)
    ensures ArrayIndex(key) == IsIndex(n) <==> n < 0x1_0000_0000 - 1 && key == NatText(n)
  {
    NatTextRoundTrip(n);
    if Canonical(key) { CanonicalText(key); }
  }

  /** Two spellings never name one index. */
  lemma IndexSpelling(a: Key, b: Key)
    requires ArrayIndex(a).IsIndex? && ArrayIndex(a) == ArrayIndex(b)
    ensures a == b
  {
    CanonicalText(a);
    CanonicalText(b);
  }

  /** `jsrt_key_is_array_index`; the accumulator stays below 2^32 - 1. */
  method KeyIsArrayIndex(key: Key) returns (index: Index)
    ensures index == ArrayIndex(key)
  {
    if key == [] || (key[0] == 48 && |key| > 1) {
      return NotIndex;
    }
    var parsed := 0;
    for p := 0 to |key|
      invariant AllDigits(key[..p]) && parsed == NatOf(key[..p]) && parsed <= MAX_INDEX
    {
      if key[p] < 48 || key[p] > 57 {
        return NotIndex;
      }
      assert AllDigits(key[..p + 1]);
      assert key[..p + 1][..p] == key[..p];
      var digit := key[p] - 48;
      if parsed > (MAX_INDEX - digit) / 10 {
        if AllDigits(key) { NatOfGrows(key, p + 1); }
        return NotIndex;
      }
      parsed := parsed * 10 + digit;
    }
    assert key[..|key|] == key;
    index := IsIndex(parsed);
  }

  // ---------------------------------------------------------------- enumeration order

  /** Slot `a` is listed before slot `b`: indices first, ascending; the rest as they were added. */
  predicate Before(keys: seq<Key>, a: nat, b: nat)
    requires a < |keys| && b < |keys|
  {
    var x, y := ArrayIndex(keys[a]), ArrayIndex(keys[b]);
    if x.IsIndex? != y.IsIndex? then x.IsIndex?
    else if x.IsIndex? && x.value != y.value then x.value < y.value
    else a < b
  }

  /** A key that may be listed before another, were it added first. */
  predicate Precedes(x: Key, y: Key) {
    ArrayIndex(y).IsIndex? ==> ArrayIndex(x).IsIndex? && ArrayIndex(x).value <= ArrayIndex(y).value
  }

  lemma BeforePrecedes(keys: seq<Key>, a: nat, b: nat)
    requires a < |keys| && b < |keys|
    ensures Before(keys, a, b) ==> Precedes(keys[a], keys[b])
    ensures a < b && Precedes(keys[a], keys[b]) ==> Before(keys, a, b)
  {
  }

  predicate Slots(keys: seq<Key>, order: seq<nat>) {
    forall i :: 0 <= i < |order| ==> order[i] < |keys|
  }

  predicate Listed(keys: seq<Key>, order: seq<nat>)
    requires Slots(keys, order)
  {
    forall i, j :: 0 <= i < j < |order| ==> Before(keys, order[i], order[j])
  }

  function Insert(keys: seq<Key>, order: seq<nat>, x: nat): (r: seq<nat>)
    requires Slots(keys, order) && x < |keys|
    ensures Slots(keys, r) && |r| == |order| + 1
    ensures forall y :: y in r <==> y in order || y == x
  {
    if order == [] then [x]
    else
      var n := |order| - 1;
      if Before(keys, x, order[n]) then Insert(keys, order[..n], x) + [order[n]]
      else order + [x]
  }

  /** The first `m` slots in listing order. */
  function OrderOf(keys: seq<Key>, m: nat): (r: seq<nat>)
    requires m <= |keys|
    ensures Slots(keys, r) && |r| == m
    ensures forall y :: y in r <==> 0 <= y < m
  {
    if m == 0 then [] else Insert(keys, OrderOf(keys, m - 1), m - 1)
  }

  function Order(keys: seq<Key>): seq<nat> { OrderOf(keys, |keys|) }

  lemma BeforeIsOrder(keys: seq<Key>, a: nat, b: nat, c: nat)
    requires a < |keys| && b < |keys| && c < |keys|
    ensures Before(keys, a, b) && Before(keys, b, c) ==> Before(keys, a, c)
    ensures a == b || Before(keys, a, b) || Before(keys, b, a)
    ensures !(Before(keys, a, b) && Before(keys, b, a))
  {
  }

  lemma {:induction false} InsertListed(keys: seq<Key>, order: seq<nat>, x: nat)
    requires Slots(keys, order) && x < |keys| && Listed(keys, order) && x !in order
    ensures Listed(keys, Insert(keys, order, x))
  {
    var r := Insert(keys, order, x);
    if order != [] {
      var n := |order| - 1;
      if Before(keys, x, order[n]) {
        InsertListed(keys, order[..n], x);
        forall i | 0 <= i < n + 1 ensures Before(keys, r[i], order[n]) {
          assert r[i] in order[..n] || r[i] == x;
        }
      } else {
        BeforeIsOrder(keys, x, order[n], x);
        forall i | 0 <= i < |order| ensures Before(keys, order[i], x) {
          BeforeIsOrder(keys, order[i], order[n], x);
        }
      }
    }
  }

  /** The listing holds every slot once, in order. */
  lemma {:induction false} OrderListed(keys: seq<Key>, m: nat)
    requires m <= |keys|
    ensures Listed(keys, OrderOf(keys, m))
  {
    if m > 0 {
      OrderListed(keys, m - 1);
      InsertListed(keys, OrderOf(keys, m - 1), m - 1);
    }
  }

  /** Every slot is listed. */
  lemma EverySlot(keys: seq<Key>)
    ensures forall i :: 0 <= i < |keys| ==> i in Order(keys)
  {
    forall i | 0 <= i < |keys| ensures i in Order(keys) { SlotListed(keys, |keys|, i); }
  }

  lemma {:induction false} SlotListed(keys: seq<Key>, m: nat, i: nat)
    requires i < m <= |keys|
    ensures i in OrderOf(keys, m)
  {
    if i < m - 1 { SlotListed(keys, m - 1, i); }
  }

  /** Array indices first, ascending, and then the other keys as they were added. */
  lemma ListingMeans(keys: seq<Key>, i: nat, j: nat)
    requires i < j < |Order(keys)|
    ensures var a, b := Order(keys)[i], Order(keys)[j]; var x, y := ArrayIndex(keys[a]), ArrayIndex(keys[b]);
      && (y.IsIndex? ==> x.IsIndex? && x.value <= y.value)
      && (x.NotIndex? ==> a < b)
      && (x.IsIndex? && x == y ==> a < b)
  {
    OrderListed(keys, |keys|);
  }

  /** Keys already in listing order are listed as they stand. */
  lemma {:induction false} OrderOfListed(keys: seq<Key>, m: nat)
    requires m <= |keys| && forall a, b :: 0 <= a < b < |keys| ==> Precedes(keys[a], keys[b])
    ensures OrderOf(keys, m) == seq(m, i => i)
  {
    if m > 1 {
      OrderOfListed(keys, m - 1);
      BeforePrecedes(keys, m - 2, m - 1);
      BeforeIsOrder(keys, m - 2, m - 1, m - 2);
    }
  }

  /** The insertion sort of the chain's links, each named by its slot. */
  method PropertyOrder(keys: seq<Key>) returns (links: array<nat>)
    ensures fresh(links) && links[..] == Order(keys)
  {
    var n := |keys|;
    links := new nat[n](i => i);
    var i := 0;
    while i < n
      invariant i <= n && links[..i] == OrderOf(keys, i)
      invariant forall k :: i <= k < n ==> links[k] == k
    {
      Sink(keys, links, i);
      i := i + 1;
    }
    assert links[..] == links[..n];
  }

  /** The order with `x` standing before the entries from `j` on. */
  function Sinking(sorted: seq<nat>, x: nat, j: nat): seq<nat>
    requires j <= |sorted|
  {
    sorted[..j] + [x] + sorted[j..]
  }

  lemma InsertStep(keys: seq<Key>, sorted: seq<nat>, x: nat, j: nat)
    requires Slots(keys, sorted) && x < |keys| && j <= |sorted|
    requires Insert(keys, sorted[..j], x) + sorted[j..] == Insert(keys, sorted, x)
    ensures if j > 0 && Before(keys, x, sorted[j - 1])
            then Insert(keys, sorted[..j - 1], x) + sorted[j - 1..] == Insert(keys, sorted, x)
            else Sinking(sorted, x, j) == Insert(keys, sorted, x)
  {
    if j > 0 {
      assert sorted[..j][..j - 1] == sorted[..j - 1];
      assert [sorted[j - 1]] + sorted[j..] == sorted[j - 1..];
      if Before(keys, x, sorted[j - 1]) {
        assert Insert(keys, sorted[..j], x) == Insert(keys, sorted[..j - 1], x) + [sorted[j - 1]];
      }
    }
  }

  /** One round: the link at `i` sinks to its place. */
  method Sink(keys: seq<Key>, links: array<nat>, i: nat)
    requires i < links.Length == |keys| && links[i] == i && links[..i] == OrderOf(keys, i)
    modifies links
    ensures links[..i + 1] == OrderOf(keys, i + 1)
    ensures forall k :: i < k < links.Length ==> links[k] == old(links[k])
  {
    var j := i;
    ghost var sorted := links[..i];
    assert sorted[..i] == sorted;
    assert Insert(keys, sorted[..j], i) + sorted[j..] == Insert(keys, sorted, i);
    while j > 0 && Before(keys, links[j], links[j - 1])
      invariant 0 <= j <= i && links[j] == i && links[..i + 1] == Sinking(sorted, i, j)
      invariant j > 0 ==> links[j - 1] == sorted[j - 1]
      invariant Insert(keys, sorted[..j], i) + sorted[j..] == Insert(keys, sorted, i)
      invariant forall k :: i < k < links.Length ==> links[k] == old(links[k])
    {
      InsertStep(keys, sorted, i, j);
      SwapDown(links, sorted, i, j);
      j := j - 1;
    }
    InsertStep(keys, sorted, i, j);
  }

  method SwapDown(links: array<nat>, ghost sorted: seq<nat>, i: nat, j: nat)
    requires 0 < j <= i == |sorted| && i < links.Length && links[..i + 1] == Sinking(sorted, i, j)
    modifies links
    ensures links[..i + 1] == Sinking(sorted, i, j - 1)
    ensures links[j - 1] == i && (j > 1 ==> links[j - 2] == sorted[j - 2])
    ensures forall k :: i < k < links.Length ==> links[k] == old(links[k])
  {
    ghost var before: seq<nat> := links[..i + 1];
    SwapSinks(before, sorted, i, j);
    links[j], links[j - 1] := links[j - 1], links[j];
    assert links[..i + 1] == before[j := before[j - 1]][j - 1 := i];
  }

  lemma SwapSinks(before: seq<nat>, sorted: seq<nat>, i: nat, j: nat)
    requires 0 < j <= i == |sorted| && before == Sinking(sorted, i, j)
    ensures before[j] == i && before[j - 1] == sorted[j - 1] && (j > 1 ==> before[j - 2] == sorted[j - 2])
    ensures before[j := before[j - 1]][j - 1 := i] == Sinking(sorted, i, j - 1)
  {
  }
}

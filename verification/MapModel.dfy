/** SameValueZero keys, and the ordered association list a Map or Set stands for (jsrt_map.c). */
module MapModel {
  /** The value of a Number: every NaN is one key, and so are the two zeros. */
  datatype Number = NaN(payload: nat) | Zero(negative: bool) | Nonzero(bits: nat)

  datatype Value =
    | Undefined
    | Null
    | Boolean(b: bool)
    | Double(n: Number)
    | Int32(i: int)        // a second spelling of an integral Number
    | Str(units: seq<bv16>)
    | Object(address: nat)

  /** The bits of the double an integer other than zero converts to; one integer, one pattern. */
  function IntBits(i: int): nat {
    if i >= 0 then 2 * i else -2 * i - 1
  }

  function NumberOf(v: Value): Number
    requires v.Double? || v.Int32?
  {
    match v
    case Double(n) => n
    case Int32(i) => if i == 0 then Zero(false) else Nonzero(IntBits(i))
  }

  predicate IsNumber(v: Value) { v.Double? || v.Int32? }

  predicate IsObject(v: Value) { v.Object? }

  predicate SameValueZero(a: Value, b: Value) {
    if IsNumber(a) && IsNumber(b) then
      var x, y := NumberOf(a), NumberOf(b);
      (x.Zero? && y.Zero?) || (x.Nonzero? && x == y) || (x.NaN? && y.NaN?)
    else if a.Str? && b.Str? then a.units == b.units
    else a == b
  }

  /** What `hash_key` mixes: a number's bits once NaN and -0 are made canonical, a string's units, or the box. */
  datatype HashInput = NumberBits(n: Number) | Units(units: seq<bv16>) | Box(v: Value)

  function HashInputOf(v: Value): HashInput {
    if IsNumber(v) then
      var n := NumberOf(v);
      NumberBits(if n.NaN? then NaN(0) else if n.Zero? then Zero(false) else n)
    else if v.Str? then Units(v.units)
    else Box(v)
  }

  function Normalized(key: Value): Value {
    if IsNumber(key) && NumberOf(key).Zero? then Double(Zero(false)) else key
  }

  /** Equal keys hash equally, whatever the mixing function; and two keys that are not equal differ
      in what is hashed, so SameValueZero is equality of hash inputs. */
  lemma SameKeySameHash(a: Value, b: Value)
    ensures SameValueZero(a, b) <==> HashInputOf(a) == HashInputOf(b)
  {
  }

  lemma NormalizedIsSame(key: Value)
    ensures HashInputOf(Normalized(key)) == HashInputOf(key)
  {
  }

  // ---------------------------------------------------------------- the association list

  datatype Pair = Pair(key: Value, value: Value)

  function KeyOf(p: Pair): HashInput { HashInputOf(p.key) }

  function Keys(ps: seq<Pair>): (ks: seq<HashInput>)
    ensures |ks| == |ps|
  {
    seq(|ps|, i requires 0 <= i < |ps| => KeyOf(ps[i]))
  }

  /** By `SameKeySameHash`: some pair's key is SameValueZero to `key`. */
  predicate Has(ps: seq<Pair>, key: Value) { HashInputOf(key) in Keys(ps) }

  ghost predicate DistinctKeys(ps: seq<Pair>) {
    forall i, j :: 0 <= i < j < |ps| ==> Keys(ps)[i] != Keys(ps)[j]
  }

  function Get(ps: seq<Pair>, key: Value): Value {
    if ps == [] then Undefined
    else if KeyOf(ps[|ps| - 1]) == HashInputOf(key) then ps[|ps| - 1].value
    else Get(ps[..|ps| - 1], key)
  }

  /** A key already there keeps its place; a new one goes to the end, -0 stored as +0. */
  function Put(ps: seq<Pair>, key: Value, value: Value): seq<Pair> {
    if Has(ps, key) then Overwrite(ps, key, value) else ps + [Pair(Normalized(key), value)]
  }

  function Overwrite(ps: seq<Pair>, key: Value, value: Value): (qs: seq<Pair>)
    ensures |qs| == |ps|
  {
    seq(|ps|, i requires 0 <= i < |ps| => if KeyOf(ps[i]) == HashInputOf(key) then Pair(ps[i].key, value) else ps[i])
  }

  function Remove(ps: seq<Pair>, key: Value): seq<Pair> {
    if ps == [] then []
    else Remove(ps[..|ps| - 1], key) + (if KeyOf(ps[|ps| - 1]) == HashInputOf(key) then [] else [ps[|ps| - 1]])
  }

  lemma {:induction false} GetAt(ps: seq<Pair>, i: nat, key: Value)
    requires DistinctKeys(ps) && i < |ps| && Keys(ps)[i] == HashInputOf(key)
    ensures Get(ps, key) == ps[i].value
  {
    var n := |ps| - 1;
    if i < n {
      assert Keys(ps)[i] != Keys(ps)[n];
      assert Keys(ps[..n]) == Keys(ps)[..n];
      GetAt(ps[..n], i, key);
    }
  }

  lemma {:induction false} GetMissing(ps: seq<Pair>, key: Value)
    requires !Has(ps, key)
    ensures Get(ps, key) == Undefined && Remove(ps, key) == ps
  {
    if ps != [] {
      var n := |ps| - 1;
      assert Keys(ps) == Keys(ps[..n]) + [KeyOf(ps[n])];
      GetMissing(ps[..n], key);
      assert ps == ps[..n] + [ps[n]];
    }
  }

  lemma PutKeys(ps: seq<Pair>, key: Value, value: Value)
    ensures Keys(Put(ps, key, value)) == if Has(ps, key) then Keys(ps) else Keys(ps) + [HashInputOf(key)]
  {
    NormalizedIsSame(key);
  }

  /** What `set` changes: the value under its own key, and nothing else. */
  lemma GetAfterPut(ps: seq<Pair>, key: Value, value: Value, k: Value)
    requires DistinctKeys(ps)
    ensures DistinctKeys(Put(ps, key, value))
    ensures Get(Put(ps, key, value), k) == if SameValueZero(k, key) then value else Get(ps, k)
  {
    var qs := Put(ps, key, value);
    PutKeys(ps, key, value);
    SameKeySameHash(k, key);
    if HashInputOf(k) in Keys(qs) {
      var i :| 0 <= i < |qs| && Keys(qs)[i] == HashInputOf(k);
      GetAt(qs, i, k);
      if i < |ps| { GetAt(ps, i, k); }
      if i < |ps| && HashInputOf(k) != HashInputOf(key) { assert qs[i] == ps[i]; }
      if i == |ps| { GetMissing(ps, k); }
    } else {
      GetMissing(qs, k);
      GetMissing(ps, k);
    }
  }

  lemma HasMeans(ps: seq<Pair>, key: Value)
    ensures Has(ps, key) <==> exists p :: p in ps && KeyOf(p) == HashInputOf(key)
  {
    if Has(ps, key) {
      var i :| 0 <= i < |ps| && Keys(ps)[i] == HashInputOf(key);
      assert ps[i] in ps;
    }
    if p :| p in ps && KeyOf(p) == HashInputOf(key) {
      var i :| 0 <= i < |ps| && ps[i] == p;
      assert Keys(ps)[i] == HashInputOf(key);
    }
  }

  lemma {:induction false} RemoveKeys(ps: seq<Pair>, key: Value)
    requires DistinctKeys(ps)
    ensures DistinctKeys(Remove(ps, key))
    ensures forall p :: p in Remove(ps, key) <==> p in ps && KeyOf(p) != HashInputOf(key)
  {
    if ps != [] {
      var n := |ps| - 1;
      assert Keys(ps[..n]) == Keys(ps)[..n];
      RemoveKeys(ps[..n], key);
      assert ps == ps[..n] + [ps[n]];
      var before := Remove(ps[..n], key);
      forall j | 0 <= j < |before| ensures Keys(before)[j] != KeyOf(ps[n]) {
        assert before[j] in ps[..n];
        var i :| 0 <= i < n && ps[..n][i] == before[j];
        assert Keys(ps)[i] != Keys(ps)[n];
      }
      var after := Remove(ps, key);
      forall i, j | 0 <= i < j < |after| ensures Keys(after)[i] != Keys(after)[j] {
        assert Keys(after)[i] == Keys(before)[i];
        if j < |before| { assert Keys(before)[i] != Keys(before)[j]; }
      }
    }
  }

  /** `delete` removes its own key and nothing else; a `set` after it puts the key at the end. */
  lemma GetAfterRemove(ps: seq<Pair>, key: Value, value: Value, k: Value)
    requires DistinctKeys(ps)
    ensures Get(Remove(ps, key), k) == if SameValueZero(k, key) then Undefined else Get(ps, k)
    ensures Put(Remove(ps, key), key, value) == Remove(ps, key) + [Pair(Normalized(key), value)]
  {
    var qs := Remove(ps, key);
    RemoveKeys(ps, key);
    SameKeySameHash(k, key);
    HasMeans(qs, key);
    HasMeans(qs, k);
    HasMeans(ps, k);
    if Has(qs, k) {
      var i :| 0 <= i < |qs| && Keys(qs)[i] == HashInputOf(k);
      GetAt(qs, i, k);
      assert qs[i] in qs;
      var j :| 0 <= j < |ps| && ps[j] == qs[i];
      GetAt(ps, j, k);
    } else {
      GetMissing(qs, k);
      if HashInputOf(k) != HashInputOf(key) { GetMissing(ps, k); }
    }
  }

  // ---------------------------------------------------------------- order, and what is stored

  /** Some of the pairs, in their order: those at these places. */
  ghost predicate Picks(xs: seq<Pair>, ps: seq<Pair>, places: seq<nat>) {
    && |places| == |xs|
    && (forall k :: 0 <= k < |places| ==> places[k] < |ps| && xs[k] == ps[places[k]])
    && (forall i, j :: 0 <= i < j < |places| ==> places[i] < places[j])
  }

  ghost predicate InOrderOf(xs: seq<Pair>, ps: seq<Pair>) { exists places :: Picks(xs, ps, places) }

  lemma PicksNext(xs: seq<Pair>, ps: seq<Pair>, keep: bool)
    requires ps != [] && InOrderOf(xs, ps[..|ps| - 1])
    ensures InOrderOf(if keep then xs + [ps[|ps| - 1]] else xs, ps)
  {
    var n := |ps| - 1;
    var places :| Picks(xs, ps[..n], places);
    assert Picks(xs, ps, places);
    if keep { assert Picks(xs + [ps[n]], ps, places + [n]); }
  }

  /** `set` stores +0 for -0 and any other key as it is given; it leaves the key of an entry that is there, and
      every other entry. */
  lemma PutStores(ps: seq<Pair>, key: Value, value: Value)
    ensures var qs := Put(ps, key, value);
      if exists i :: 0 <= i < |ps| && SameValueZero(ps[i].key, key)
      then |qs| == |ps| && forall i :: 0 <= i < |ps| ==>
        qs[i] == Pair(ps[i].key, if SameValueZero(ps[i].key, key) then value else ps[i].value)
      else qs == ps + [Pair(if key == Double(Zero(true)) || key == Int32(0) then Double(Zero(false)) else key, value)]
  {
    forall i | 0 <= i < |ps| ensures SameValueZero(ps[i].key, key) <==> Keys(ps)[i] == HashInputOf(key) {
      SameKeySameHash(ps[i].key, key);
    }
  }

  /** `delete` keeps the order of what it leaves. */
  lemma {:induction false} RemoveInOrder(ps: seq<Pair>, key: Value)
    ensures InOrderOf(Remove(ps, key), ps)
  {
    if ps == [] {
      assert Picks([], [], []);
    } else {
      var n := |ps| - 1;
      RemoveInOrder(ps[..n], key);
      PicksNext(Remove(ps[..n], key), ps, KeyOf(ps[n]) != HashInputOf(key));
      assert Remove(ps[..n], key) + [] == Remove(ps[..n], key);
    }
  }
}

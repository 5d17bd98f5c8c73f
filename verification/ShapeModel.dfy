/** The shape table as values (jsrt_shape.zig, jsrt_value.h): nodes that are only ever added, each one
    key longer than its parent. */
module ShapeModel {
  import opened Options
  import opened KeyOrder


  /** A shape is named by its place in the table; place 0 is the root, the one shape without a key. */
  datatype Node = Node(parent: nat, key: Key, offset: nat)

  // ---------------------------------------------------------------- chains

  predicate Rooted(nodes: seq<Node>) {
    |nodes| > 0 && forall i :: 0 < i < |nodes| ==> nodes[i].parent < i
  }

  /** The keys of a shape in the order they were added. */
  function Chain(nodes: seq<Node>, i: nat): seq<Key>
    requires Rooted(nodes) && i < |nodes|
    decreases i
  {
    if i == 0 then [] else Chain(nodes, nodes[i].parent) + [nodes[i].key]
  }

  /** Each key's slot is the number of keys before it. */
  ghost predicate Offsets(nodes: seq<Node>)
    requires Rooted(nodes)
  {
    forall i :: 0 < i < |nodes| ==> nodes[i].offset == |Chain(nodes, nodes[i].parent)|
  }

  /** The transition lists hold every shape under its parent, and no two with one key. */
  ghost predicate Linked(nodes: seq<Node>, children: seq<seq<nat>>) {
    && |children| == |nodes|
    && (forall p, k :: 0 <= p < |nodes| && 0 <= k < |children[p]| ==>
          0 < children[p][k] < |nodes| && nodes[children[p][k]].parent == p)
    && (forall c :: 0 < c < |nodes| && nodes[c].parent < |nodes| ==> c in children[nodes[c].parent])
  }

  ghost predicate OneEach(nodes: seq<Node>) {
    forall c, d :: 0 < c < |nodes| && 0 < d < |nodes| && nodes[c].parent == nodes[d].parent && nodes[c].key == nodes[d].key ==> c == d
  }

  ghost predicate TableOk(nodes: seq<Node>, children: seq<seq<nat>>) {
    Rooted(nodes) && Offsets(nodes) && Linked(nodes, children) && OneEach(nodes)
  }

  lemma {:induction false} ChainGrows(nodes: seq<Node>, more: seq<Node>, i: nat)
    requires Rooted(nodes) && Rooted(more) && nodes <= more && i < |nodes|
    ensures Chain(more, i) == Chain(nodes, i)
    decreases i
  {
    if i > 0 { ChainGrows(nodes, more, nodes[i].parent); }
  }

  /** Objects that gained the same keys in the same order are on one shape. */
  lemma {:induction false} SameHistorySameShape(nodes: seq<Node>, children: seq<seq<nat>>, i: nat, j: nat)
    requires TableOk(nodes, children) && i < |nodes| && j < |nodes| && Chain(nodes, i) == Chain(nodes, j)
    ensures i == j
    decreases i
  {
    if i > 0 && j > 0 {
      var a, b := Chain(nodes, nodes[i].parent), Chain(nodes, nodes[j].parent);
      assert a == Chain(nodes, i)[..|a|] && b == Chain(nodes, j)[..|b|];
      SameHistorySameShape(nodes, children, nodes[i].parent, nodes[j].parent);
    }
  }

  /** `jsrt_shape_find`: the link of the chain that added the key. */
  function Find(nodes: seq<Node>, i: nat, key: Key): (r: Option<nat>)
    requires Rooted(nodes) && i < |nodes|
    ensures r.Some? ==> 0 < r.value <= i
    decreases i
  {
    if i == 0 then None else if nodes[i].key == key then Some(i) else Find(nodes, nodes[i].parent, key)
  }

  predicate DistinctKeys(ks: seq<Key>) { forall a, b :: 0 <= a < b < |ks| ==> ks[a] != ks[b] }

  /** A hit's offset is the key's place in the chain; a miss means no link has it. */
  lemma {:induction false} FindIs(nodes: seq<Node>, i: nat, key: Key)
    requires Rooted(nodes) && Offsets(nodes) && i < |nodes|
    ensures var r := Find(nodes, i, key);
      if r.Some? then nodes[r.value].offset < |Chain(nodes, i)| && Chain(nodes, i)[nodes[r.value].offset] == key
      else key !in Chain(nodes, i)
    decreases i
  {
    if i > 0 && nodes[i].key != key { FindIs(nodes, nodes[i].parent, key); }
  }

  // ---------------------------------------------------------------- growing

  lemma AppendKeeps(nodes: seq<Node>, children: seq<seq<nat>>, from: nat, key: Key)
    requires TableOk(nodes, children) && from < |nodes|
    requires forall k :: 0 <= k < |children[from]| ==> nodes[children[from][k]].key != key
    ensures var n := Node(from, key, |Chain(nodes, from)|);
      var nodes', children' := nodes + [n], children[from := [|nodes|] + children[from]] + [[]];
      && TableOk(nodes', children') && Chain(nodes', |nodes|) == Chain(nodes, from) + [key]
      && forall i :: 0 <= i < |nodes| ==> Chain(nodes', i) == Chain(nodes, i)
  {
    var n := Node(from, key, |Chain(nodes, from)|);
    var nodes' := nodes + [n];
    RootedAppend(nodes, n);
    forall i | 0 <= i < |nodes| ensures Chain(nodes', i) == Chain(nodes, i) { ChainGrows(nodes, nodes', i); }
    LinkedAppend(nodes, children, from, n);
    NoSuchChild(nodes, children, from, key);
    OneEachAppend(nodes, n);
    hide Linked, OneEach;
  }

  lemma RootedAppend(nodes: seq<Node>, n: Node)
    requires Rooted(nodes) && n.parent < |nodes|
    ensures Rooted(nodes + [n])
  {
  }

  lemma OneEachAppend(nodes: seq<Node>, n: Node)
    requires OneEach(nodes) && forall c :: 0 < c < |nodes| && nodes[c].parent == n.parent ==> nodes[c].key != n.key
    ensures OneEach(nodes + [n])
  {
  }

  lemma NoSuchChild(nodes: seq<Node>, children: seq<seq<nat>>, from: nat, key: Key)
    requires Linked(nodes, children) && from < |nodes|
    requires forall k :: 0 <= k < |children[from]| ==> nodes[children[from][k]].key != key
    ensures forall c :: 0 < c < |nodes| && nodes[c].parent == from ==> nodes[c].key != key
  {
    forall c | 0 < c < |nodes| && nodes[c].parent == from ensures nodes[c].key != key {
      assert c in children[nodes[c].parent];
    }
  }

  lemma LinkedAppend(nodes: seq<Node>, children: seq<seq<nat>>, from: nat, n: Node)
    requires Rooted(nodes) && Linked(nodes, children) && from < |nodes| && n.parent == from
    ensures Linked(nodes + [n], children[from := [|nodes|] + children[from]] + [[]])
  {
    var nodes', children' := nodes + [n], children[from := [|nodes|] + children[from]] + [[]];
    forall c | 0 < c < |nodes'| && nodes'[c].parent < |nodes'| ensures c in children'[nodes'[c].parent] {
      if c < |nodes| {
        assert c in children[nodes[c].parent];
      } else {
        assert children'[from][0] == c;
      }
    }
  }

  // ---------------------------------------------------------------- removal

  /** A chain without its `hit`-th key. */
  function Without<T>(ks: seq<T>, hit: nat): (r: seq<T>)
    requires hit < |ks|
    ensures |r| == |ks| - 1
  {
    ks[..hit] + ks[hit + 1..]
  }

  lemma WithoutDistinct(ks: seq<Key>, hit: nat)
    requires DistinctKeys(ks) && hit < |ks|
    ensures DistinctKeys(Without(ks, hit)) && ks[hit] !in Without(ks, hit)
  {
    var r := Without(ks, hit);
    forall i | 0 <= i < |r| ensures r[i] == ks[if i < hit then i else i + 1] { }
  }

  /** The first `n` entries without the `hit`-th. */
  function Replayed<T>(xs: seq<T>, hit: nat, n: nat): (r: seq<T>)
    requires hit < |xs| && n <= |xs|
    ensures |r| == if n <= hit then n else n - 1
  {
    if n <= hit then xs[..n] else xs[..hit] + xs[hit + 1..n]
  }

  lemma ReplayNext<T>(xs: seq<T>, hit: nat, n: nat)
    requires hit < |xs| && n < |xs|
    ensures Replayed(xs, hit, n + 1) == if n == hit then Replayed(xs, hit, n) else Replayed(xs, hit, n) + [xs[n]]
  {
  }

  lemma ReplayEnds<T>(xs: seq<T>, hit: nat)
    requires hit < |xs|
    ensures Replayed(xs, hit, |xs|) == Without(xs, hit) && Replayed(xs, hit, 0) == []
  {
  }

  /** The link of a chain that claimed slot `k`. */
  function Link(nodes: seq<Node>, i: nat, k: nat): (r: nat)
    requires Rooted(nodes) && i < |nodes|
    ensures r <= i
    decreases i
  {
    if i == 0 || nodes[i].offset == k then i else Link(nodes, nodes[i].parent, k)
  }

  lemma {:induction false} LinkIs(nodes: seq<Node>, i: nat, k: nat)
    requires Rooted(nodes) && Offsets(nodes) && i < |nodes| && k < |Chain(nodes, i)|
    ensures var n := Link(nodes, i, k); 0 < n && nodes[n].offset == k && nodes[n].key == Chain(nodes, i)[k]
    decreases i
  {
    if nodes[i].offset != k { LinkIs(nodes, nodes[i].parent, k); }
  }

  /** A hit is the link that claimed its slot. */
  lemma {:induction false} HitIsLink(nodes: seq<Node>, i: nat, key: Key)
    requires Rooted(nodes) && Offsets(nodes) && i < |nodes| && Find(nodes, i, key).Some?
    ensures var hit := Find(nodes, i, key).value; hit == Link(nodes, i, nodes[hit].offset)
    decreases i
  {
    if nodes[i].key != key {
      var up := nodes[i].parent;
      HitIsLink(nodes, up, key);
      FindIs(nodes, up, key);
    }
  }

  /** The links of a chain, told apart from the one at `at`. */
  ghost predicate LinksFor(links: seq<nat>, nodes: seq<Node>, keys: seq<Key>, hit: nat, at: nat) {
    |links| == |keys| && forall k :: 0 <= k < |links| ==>
      links[k] < |nodes| && nodes[links[k]].key == keys[k] && (links[k] == hit <==> k == at)
  }

  lemma LinksAre(nodes: seq<Node>, shape: nat, links: seq<nat>, hit: nat)
    requires Rooted(nodes) && Offsets(nodes) && shape < |nodes| && hit < |nodes|
    requires |links| == |Chain(nodes, shape)| && forall k :: 0 <= k < |links| ==> links[k] == Link(nodes, shape, k)
    requires nodes[hit].offset < |links| && hit == Link(nodes, shape, nodes[hit].offset)
    ensures LinksFor(links, nodes, Chain(nodes, shape), hit, nodes[hit].offset)
  {
    forall k | 0 <= k < |links| ensures links[k] < |nodes| && nodes[links[k]].key == Chain(nodes, shape)[k] && nodes[links[k]].offset == k {
      LinkIs(nodes, shape, k);
    }
  }

  /** One slot moves down over those already closed up. */
  lemma SlotMoves<T>(before: seq<T>, now: seq<T>, values: seq<T>, next: nat, i: nat)
    requires next <= i < |before| == |values| && before[i..] == values[i..] && now == before[next := before[i]]
    ensures now[..next + 1] == before[..next] + [values[i]] && now[i + 1..] == values[i + 1..]
  {
    assert before[i] == before[i..][0];
    assert values[i + 1..] == values[i..][1..];
  }

  // ---------------------------------------------------------------- properties

  /** What a slot holds: a value, or a pair of functions either of which may be missing. */
  datatype Slot<V> = Data(value: V) | Accessor(getter: Option<V>, setter: Option<V>)

  datatype Property<V> = Property(key: Key, slot: Slot<V>)

  /** An object's own properties, as any program sees them: keys in order, each with its slot. */
  function Own<V>(props: seq<Property<V>>, key: Key): Option<Slot<V>> {
    if props == [] then None
    else if props[|props| - 1].key == key then Some(props[|props| - 1].slot)
    else Own(props[..|props| - 1], key)
  }

  function KeysOf<V>(props: seq<Property<V>>): (ks: seq<Key>)
    ensures |ks| == |props|
  {
    seq(|props|, i requires 0 <= i < |props| => props[i].key)
  }

  lemma {:induction false} OwnAt<V>(props: seq<Property<V>>, key: Key, i: nat)
    requires DistinctKeys(KeysOf(props)) && i < |props| && props[i].key == key
    ensures Own(props, key) == Some(props[i].slot)
    decreases props
  {
    var n := |props| - 1;
    if i < n {
      assert KeysOf(props)[i] != KeysOf(props)[n];
      FrontDistinct(props);
      OwnAt(props[..n], key, i);
    }
  }

  lemma {:induction false} OwnMissing<V>(props: seq<Property<V>>, key: Key)
    requires key !in KeysOf(props)
    ensures Own(props, key) == None
    decreases props
  {
    if props != [] {
      var n := |props| - 1;
      assert KeysOf(props)[n] in KeysOf(props);
      forall k | k in KeysOf(props[..n]) ensures k in KeysOf(props) {
        var i :| 0 <= i < n && KeysOf(props[..n])[i] == k;
        assert KeysOf(props)[i] == k;
      }
      OwnMissing(props[..n], key);
    }
  }

  /** What the program is told, or which of its functions runs with the receiver. */
  datatype Outcome<V> =
    | Answer(value: V) | NoValue | Runs(f: V) | Stored | OnlyGetter | ReadOnly | Removed

  function Read<V>(slot: Slot<V>): Outcome<V> {
    match slot
    case Data(v) => Answer(v)
    case Accessor(getter, _) => if getter.Some? then Runs(getter.value) else NoValue
  }

  /** A read: the object's own slot, or what its prototypes answer. */
  function GetOutcome<V>(props: seq<Property<V>>, key: Key, inherited: Outcome<V>): Outcome<V> {
    var own := Own(props, key);
    if own.Some? then Read(own.value) else inherited
  }

  /** The slot of `key` replaced, its place kept, or a new property behind the others. */
  function Put<V>(props: seq<Property<V>>, key: Key, slot: Slot<V>): (r: seq<Property<V>>) {
    if props == [] then [Property(key, slot)]
    else
      var n := |props| - 1;
      if props[n].key == key then props[..n] + [Property(key, slot)]
      else if Own(props[..n], key).Some? then Put(props[..n], key, slot) + [props[n]]
      else props + [Property(key, slot)]
  }

  function Setter<V>(slot: Slot<V>): Outcome<V>
    requires slot.Accessor?
  {
    if slot.setter.Some? then Runs(slot.setter.value) else OnlyGetter
  }

  /** A write: refused when frozen, a call when the key has an accessor that counts, else stored.
      `interceptor` is the accessor an add meets on the prototypes. */
  function StoreOutcome<V>(props: seq<Property<V>>, frozen: bool, key: Key, slot: Slot<V>, honor: bool, interceptor: Option<Slot<V>>): Outcome<V> {
    var own := Own(props, key);
    if frozen then ReadOnly
    else if honor && own.Some? && own.value.Accessor? then Setter(own.value)
    else if honor && own.None? && interceptor.Some? && interceptor.value.Accessor? then Setter(interceptor.value)
    else Stored
  }

  function AfterStore<V>(props: seq<Property<V>>, frozen: bool, key: Key, slot: Slot<V>, honor: bool, interceptor: Option<Slot<V>>): seq<Property<V>> {
    if StoreOutcome(props, frozen, key, slot, honor, interceptor).Stored? then Put(props, key, slot) else props
  }

  /** A delete: the property gone, unless it is there and the object frozen. */
  function AfterDelete<V>(props: seq<Property<V>>, frozen: bool, key: Key): seq<Property<V>> {
    if frozen then props else Drop(props, key)
  }

  function Drop<V>(props: seq<Property<V>>, key: Key): seq<Property<V>> {
    if props == [] then []
    else
      var n := |props| - 1;
      if props[n].key == key then props[..n] else Drop(props[..n], key) + [props[n]]
  }

  lemma {:induction false} PutAt<V>(props: seq<Property<V>>, key: Key, slot: Slot<V>, i: nat)
    requires DistinctKeys(KeysOf(props)) && i < |props| && props[i].key == key
    ensures Put(props, key, slot) == props[i := Property(key, slot)]
    decreases props
  {
    var n := |props| - 1;
    if i < n {
      assert KeysOf(props)[i] != KeysOf(props)[n];
      FrontDistinct(props);
      OwnAt(props[..n], key, i);
      PutAt(props[..n], key, slot, i);
    }
  }

  lemma FrontDistinct<V>(props: seq<Property<V>>)
    requires DistinctKeys(KeysOf(props)) && props != []
    ensures DistinctKeys(KeysOf(props[..|props| - 1]))
  {
    var n := |props| - 1;
    forall a, b | 0 <= a < b < n ensures KeysOf(props[..n])[a] != KeysOf(props[..n])[b] {
      assert KeysOf(props)[a] != KeysOf(props)[b];
    }
  }

  lemma {:induction false} DropAt<V>(props: seq<Property<V>>, key: Key, i: nat)
    requires DistinctKeys(KeysOf(props)) && i < |props| && props[i].key == key
    ensures Drop(props, key) == Without(props, i)
    decreases props
  {
    var n := |props| - 1;
    if i < n {
      assert KeysOf(props)[i] != KeysOf(props)[n];
      FrontDistinct(props);
      DropAt(props[..n], key, i);
      assert Without(props, i) == Without(props[..n], i) + [props[n]];
    } else {
      assert Without(props, i) == props[..n];
    }
  }

  lemma {:induction false} DropMissing<V>(props: seq<Property<V>>, key: Key)
    requires Own(props, key).None?
    ensures Drop(props, key) == props
    decreases props
  {
    if props != [] {
      var n := |props| - 1;
      DropMissing(props[..n], key);
      assert props == props[..n] + [props[n]];
    }
  }

  /** A write changes the slot of its own key and no other. */
  lemma {:induction false} OwnAfterPut<V>(props: seq<Property<V>>, key: Key, slot: Slot<V>, other: Key)
    ensures Own(Put(props, key, slot), other) == if other == key then Some(slot) else Own(props, other)
    decreases props
  {
    if props != [] {
      var n := |props| - 1;
      OwnAfterPut(props[..n], key, slot, other);
      var r := Put(props, key, slot);
      if props[n].key == key {
        assert r[..n] == props[..n];
      } else if Own(props[..n], key).Some? {
        assert r[..|r| - 1] == Put(props[..n], key, slot);
      } else {
        assert r[..|r| - 1] == props;
      }
    }
  }

  /** A delete takes its own key away and no other. */
  lemma {:induction false} OwnAfterDrop<V>(props: seq<Property<V>>, key: Key, other: Key)
    requires DistinctKeys(KeysOf(props))
    ensures Own(Drop(props, key), other) == if other == key then None else Own(props, other)
    decreases props
  {
    if props != [] {
      var n := |props| - 1;
      FrontDistinct(props);
      OwnAfterDrop(props[..n], key, other);
      var r := Drop(props, key);
      if props[n].key == key {
        if other == key {
          forall k | k in KeysOf(props[..n]) ensures k != key {
            var i :| 0 <= i < n && KeysOf(props[..n])[i] == k;
            assert KeysOf(props)[i] != KeysOf(props)[n];
          }
          OwnMissing(props[..n], key);
        }
      } else {
        assert r[..|r| - 1] == Drop(props[..n], key);
      }
    }
  }
}

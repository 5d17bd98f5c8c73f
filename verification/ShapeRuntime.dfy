/** Shapes, slots and inline caches as they run: a table shared by every object, and per object a shape
    and a slot buffer (jsrt_shape.zig, jsrt_shape.c). */
module ShapeRuntime {
  import opened Options
  import opened KeyOrder
  import opened ShapeModel

  class Table {
    var nodes: seq<Node>
    var children: seq<seq<nat>>

    ghost predicate Valid()
      reads this
    {
      TableOk(nodes, children)
    }

    constructor ()
      ensures Valid() && |nodes| == 1
    {
      nodes := [Node(0, [], 0)];
      children := [[]];
    }

    /** The keys of a shape. */
    ghost function Keys(shape: nat): seq<Key>
      reads this
      requires Rooted(nodes) && shape < |nodes|
    {
      Chain(nodes, shape)
    }

    function SlotCount(shape: nat): nat
      reads this
      requires shape < |nodes|
    {
      if shape == 0 then 0 else nodes[shape].offset + 1
    }

    lemma SlotCountIs(shape: nat)
      requires Valid() && shape < |nodes|
      ensures SlotCount(shape) == |Keys(shape)|
    {
    }

    /** `jsrt_shape_find`: from the shape up to the root. */
    method FindKey(shape: nat, key: Key) returns (hit: Option<nat>)
      requires Valid() && shape < |nodes|
      ensures hit == Find(nodes, shape, key)
      ensures if hit.Some? then 0 < hit.value < |nodes| && nodes[hit.value].offset < |Keys(shape)| && Keys(shape)[nodes[hit.value].offset] == key
              else key !in Keys(shape)
    {
      FindIs(nodes, shape, key);
      var s: nat := shape;
      while s != 0
        invariant s <= shape && Find(nodes, s, key) == Find(nodes, shape, key)
        decreases s
      {
        if nodes[s].key == key {
          return Some(s);
        }
        s := nodes[s].parent;
      }
      hit := None;
    }

    /** The child of `from` that has `key`, if it was built before. */
    method Child(from: nat, key: Key) returns (child: Option<nat>)
      requires Valid() && from < |nodes|
      ensures if child.Some? then 0 < child.value < |nodes| && nodes[child.value].parent == from && nodes[child.value].key == key
              else forall k :: 0 <= k < |children[from]| ==> nodes[children[from][k]].key != key
    {
      hide Offsets, OneEach;
      for i := 0 to |children[from]|
        invariant forall k :: 0 <= k < i ==> nodes[children[from][k]].key != key
      {
        var s := children[from][i];
        if nodes[s].key == key {
          return Some(s);
        }
      }
      child := None;
    }

    /** `jsrt_shape_transition`: the child that adds `key`, built only when there is none. */
    method Transition(from: nat, key: Key) returns (next: nat)
      requires Valid() && from < |nodes|
      modifies this
      ensures Valid() && old(nodes) <= nodes && next < |nodes|
      ensures Keys(next) == old(Keys(from)) + [key]
    {
      var child := Child(from, key);
      if child.Some? {
        return child.value;
      }
      AppendKeeps(nodes, children, from, key);
      SlotCountIs(from);
      hide TableOk, Chain;
      next := |nodes|;
      nodes, children := nodes + [Node(from, key, SlotCount(from))], children[from := [next] + children[from]] + [[]];
    }

    /** `chainLinks`: the links of a chain, each at the slot it names. */
    method ChainLinks(shape: nat) returns (links: array<nat>)
      requires Valid() && shape < |nodes|
      ensures fresh(links) && links.Length == |Keys(shape)|
      ensures forall k :: 0 <= k < links.Length ==> links[k] == Link(nodes, shape, k)
    {
      hide Linked, OneEach;
      SlotCountIs(shape);
      links := new nat[SlotCount(shape)](_ => 0);
      var s: nat := shape;
      while s != 0
        invariant s <= shape && |Keys(s)| <= links.Length
        invariant forall k :: |Keys(s)| <= k < links.Length ==> links[k] == Link(nodes, shape, k)
        invariant forall k :: 0 <= k < |Keys(s)| ==> Link(nodes, s, k) == Link(nodes, shape, k)
        decreases s
      {
        var up := nodes[s].parent;
        assert Keys(s) == Keys(up) + [nodes[s].key];
        assert Link(nodes, s, |Keys(up)|) == s;
        links[nodes[s].offset] := s;
        s := up;
      }
    }

    /** After `i` links: the replayed shape and the slots so far, the rest of the slots unread. */
    ghost predicate Replaying<V>(start: seq<Node>, keys: seq<Key>, values: seq<Slot<V>>, at: nat, i: nat, replay: nat, next: nat, slots: seq<Slot<V>>)
      reads this
    {
      && Valid() && start <= nodes && replay < |nodes| && at < |keys| <= |values| == |slots| && i <= |keys|
      && next == (if i <= at then i else i - 1) && Keys(replay) == Replayed(keys, at, i)
      && slots[..next] == Replayed(values[..|keys|], at, i) && slots[i..] == values[i..]
    }

    /** `jsrt_shape_remove`: the chain replayed without one link, the slots closing over its own. The
        slots are read before they are written, the cursor never running ahead. */
    method Remove<V>(shape: nat, slots: array<Slot<V>>, hit: nat) returns (replay: nat)
      requires Valid() && shape < |nodes| && |Keys(shape)| <= slots.Length
      requires hit < |nodes| && nodes[hit].offset < |Keys(shape)| && hit == Link(nodes, shape, nodes[hit].offset)
      modifies this, slots
      ensures Valid() && old(nodes) <= nodes && replay < |nodes|
      ensures Keys(replay) == Without(old(Keys(shape)), old(nodes[hit].offset))
      ensures |Keys(replay)| <= slots.Length && slots[..|Keys(replay)|] == Without(old(slots[..|Keys(shape)|]), old(nodes[hit].offset))
    {
      var links := ChainLinks(shape);
      LinksAre(nodes, shape, links[..], hit);
      ghost var keys, values, at := Keys(shape), slots[..], nodes[hit].offset;
      ReplayEnds(keys, at);
      ReplayEnds(values[..|keys|], at);
      assert slots[..|keys|] == values[..|keys|];
      hide TableOk, Chain, Replayed, Without, Link, LinksFor;
      replay := ReplayLinks(links, slots, hit, keys, at);
    }

    method ReplayLinks<V>(links: array<nat>, slots: array<Slot<V>>, hit: nat, ghost keys: seq<Key>, ghost at: nat) returns (replay: nat)
      requires Valid() && at < |keys| <= slots.Length && LinksFor(links[..], nodes, keys, hit, at)
      modifies this, slots
      ensures Valid() && old(nodes) <= nodes && replay < |nodes| && Keys(replay) == Replayed(keys, at, |keys|)
      ensures slots[..|keys| - 1] == Replayed(old(slots[..|keys|]), at, |keys|)
    {
      hide TableOk, Chain, Replayed;
      ghost var start, values := nodes, slots[..];
      assert slots[..|keys|] == values[..|keys|];
      var next: nat := 0;
      replay := 0;
      ReplayStarts(keys, values, at);
      for i := 0 to links.Length
        invariant Replaying(start, keys, values, at, i, replay, next, slots[..])
        invariant LinksFor(links[..], start, keys, hit, at)
      {
        assert links[..][i] == links[i];
        if links[i] != hit {
          replay := ReplayOne(start, keys, values, at, i, replay, next, slots, nodes[links[i]].key);
          next := next + 1;
        } else {
          SkipOne(start, keys, values, at, i, replay, next, slots[..]);
        }
      }
      assert slots[..][..next] == slots[..next];
    }

    lemma ReplayStarts<V>(keys: seq<Key>, values: seq<Slot<V>>, at: nat)
      requires Valid() && at < |keys| <= |values|
      ensures Replaying(nodes, keys, values, at, 0, 0, 0, values)
    {
      RootEmpty();
      ReplayEnds(keys, at);
      ReplayEnds(values[..|keys|], at);
    }

    lemma SkipOne<V>(start: seq<Node>, keys: seq<Key>, values: seq<Slot<V>>, at: nat, i: nat, replay: nat, next: nat, slots: seq<Slot<V>>)
      requires Replaying(start, keys, values, at, i, replay, next, slots) && i < |keys| && i == at
      ensures Replaying(start, keys, values, at, i + 1, replay, next, slots)
    {
      hide TableOk, Chain, Replayed;
      ReplayNext(keys, at, i);
      ReplayNext(values[..|keys|], at, i);
      assert slots[i + 1..] == slots[i..][1..] && values[i + 1..] == values[i..][1..];
    }

    lemma RootEmpty()
      requires Valid()
      ensures |nodes| > 0 && Keys(0) == []
    {
    }

    method ReplayOne<V>(ghost start: seq<Node>, ghost keys: seq<Key>, ghost values: seq<Slot<V>>, ghost at: nat, i: nat, replay: nat, next: nat,
                        slots: array<Slot<V>>, key: Key) returns (replay': nat)
      requires Replaying(start, keys, values, at, i, replay, next, slots[..]) && i < |keys| && i != at && key == keys[i]
      modifies this, slots
      ensures Replaying(start, keys, values, at, i + 1, replay', next + 1, slots[..])
    {
      hide TableOk, Chain, Replayed;
      ReplayNext(keys, at, i);
      ReplayNext(values[..|keys|], at, i);
      ghost var before := slots[..];
      replay' := Transition(replay, key);
      slots[next] := slots[i];
      SlotMoves(before, slots[..], values, next, i);
      assert values[..|keys|][i] == values[i];
    }
  }
}

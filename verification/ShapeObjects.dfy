/** Objects over shared shapes, and the inline caches of property sites (jsrt_shape.c): every read, write,
    accessor definition and delete does to the ordered list of properties what it would without caches. */
module ShapeObjects {
  import opened Options
  import opened KeyOrder
  import opened ShapeModel
  import opened ShapeRuntime

  /** A boxed value. */
  type Word = nat
  type Slots = seq<Slot<Word>>
  type Props = seq<Property<Word>>

  function Paired(keys: seq<Key>, slots: Slots): (r: Props)
    requires |keys| <= |slots|
    ensures |r| == |keys| && KeysOf(r) == keys
  {
    seq(|keys|, i requires 0 <= i < |keys| => Property(keys[i], slots[i]))
  }

  /** The property table of a dynamic object, or the one an array keeps beside its elements. */
  class JSObject {
    const isArray: bool
    const proto: Option<nat>       // the prototype's number, of a dynamic object
    const ctor: Option<Word>       // the hidden `constructor` of a function's prototype object
    var shape: nat
    var slots: array<Slot<Word>>
    var frozen: bool

    constructor (isArray: bool, proto: Option<nat>, ctor: Option<Word>)
      ensures this.isArray == isArray && this.proto == proto && this.ctor == ctor && shape == 0 && !frozen && fresh(slots)
    {
      this.isArray, this.proto, this.ctor := isArray, proto, ctor;
      shape, frozen := 0, false;
      slots := new Slot<Word>[0];
    }

    ghost predicate Valid(t: Table)
      reads this, t
    {
      && t.Valid() && shape < |t.nodes| && |t.Keys(shape)| <= slots.Length && DistinctKeys(t.Keys(shape))
      && (isArray ==> !frozen)
    }

    /** The object's own properties in order. */
    ghost function Own(t: Table): Props
      reads this, slots, t
      requires Valid(t)
    {
      Paired(t.Keys(shape), slots[..])
    }
  }

  /** A property-access site: its key never changes, and its cache outlives every run of it. */
  class Site {
    const key: Key
    var shape: Option<nat>
    var offset: nat

    constructor (key: Key)
      ensures this.key == key && shape == None
    {
      this.key := key;
      shape, offset := None, 0;
    }

    /** A filled cache holds the key's offset in that shape. */
    ghost predicate Valid(t: Table)
      reads this, t
    {
      t.Valid() && (shape.Some? ==>
        shape.value < |t.nodes| && offset < |t.Keys(shape.value)| && t.Keys(shape.value)[offset] == key)
    }
  }

  ghost predicate SiteFor(ic: Site?, key: Key, t: Table)
    reads ic, t
  {
    ic != null ==> ic.key == key && ic.Valid(t)
  }

  /** Growing the table changes no shape, so no object and no cache. */
  lemma ShapesStay(before: seq<Node>, after: seq<Node>, shape: nat)
    requires Rooted(before) && Rooted(after) && before <= after && shape < |before|
    ensures Chain(after, shape) == Chain(before, shape)
  {
    ChainGrows(before, after, shape);
  }

  lemma HitReads(keys: seq<Key>, slots: Slots, key: Key, offset: nat)
    requires DistinctKeys(keys) && offset < |keys| <= |slots| && keys[offset] == key
    ensures Own(Paired(keys, slots), key) == Some(slots[offset])
    ensures forall s :: Put(Paired(keys, slots), key, s) == Paired(keys, slots[offset := s])
    ensures Drop(Paired(keys, slots), key) == Without(Paired(keys, slots), offset)
  {
    var ps := Paired(keys, slots);
    OwnAt(ps, key, offset);
    forall s ensures Put(ps, key, s) == Paired(keys, slots[offset := s]) {
      PutAt(ps, key, s, offset);
      assert Paired(keys, slots[offset := s]) == ps[offset := Property(key, s)];
    }
    DropAt(ps, key, offset);
  }

  lemma MissReads(keys: seq<Key>, slots: Slots, key: Key)
    requires |keys| <= |slots| && key !in keys
    ensures Own(Paired(keys, slots), key) == None
    ensures Drop(Paired(keys, slots), key) == Paired(keys, slots)
    ensures forall s :: Put(Paired(keys, slots), key, s) == Paired(keys, slots) + [Property(key, s)]
  {
    OwnMissing(Paired(keys, slots), key);
    DropMissing(Paired(keys, slots), key);
  }

  const LENGTH: Key := [108, 101, 110, 103, 116, 104]

  datatype Result = Length | Resized | Done(outcome: Outcome<Word>)

  /** A read of `key`: `inherited` is what the prototypes answer on a miss. */
  function ReadResult(isArray: bool, props: Props, key: Key, inherited: Outcome<Word>): Result {
    if isArray && key == LENGTH then Length else Done(GetOutcome(props, key, inherited))
  }

  /** The slot of an own property, found without a cache. */
  method OwnSlot(t: Table, o: JSObject, key: Key) returns (r: Option<Slot<Word>>)
    requires o.Valid(t)
    ensures r == Own(o.Own(t), key)
  {
    hide Offsets, Linked, OneEach, Chain, Paired, Own;
    var hit := t.FindKey(o.shape, key);
    if hit.None? {
      MissReads(t.Keys(o.shape), o.slots[..], key);
      return None;
    }
    HitReads(t.Keys(o.shape), o.slots[..], key, t.nodes[hit.value].offset);
    return Some(o.slots[t.nodes[hit.value].offset]);
  }

  /** `jsrt_get_prop`: with a cache or without, what the object's properties say. */
  method GetProp(t: Table, o: JSObject, key: Key, ic: Site?, inherited: Outcome<Word>) returns (r: Result)
    requires o.Valid(t) && SiteFor(ic, key, t)
    modifies ic
    ensures r == ReadResult(o.isArray, o.Own(t), key, inherited)
    ensures SiteFor(ic, key, t)
  {
    hide Offsets, Linked, OneEach, Chain, Paired, Own, GetOutcome;
    if o.isArray && key == LENGTH {
      return Length;
    }
    if ic != null && ic.shape == Some(o.shape) {
      HitOutcome(t.Keys(o.shape), o.slots[..], key, ic.offset, inherited);
      return Done(Read(o.slots[ic.offset]));
    }
    var hit := t.FindKey(o.shape, key);
    if hit.None? {
      MissOutcome(t.Keys(o.shape), o.slots[..], key, inherited);
      return Done(inherited);
    }
    var offset := t.nodes[hit.value].offset;
    HitOutcome(t.Keys(o.shape), o.slots[..], key, offset, inherited);
    if ic != null {
      ic.shape := Some(o.shape);
      ic.offset := offset;
    }
    r := Done(Read(o.slots[offset]));
  }

  lemma HitOutcome(keys: seq<Key>, slots: Slots, key: Key, offset: nat, inherited: Outcome<Word>)
    requires DistinctKeys(keys) && offset < |keys| <= |slots| && keys[offset] == key
    ensures GetOutcome(Paired(keys, slots), key, inherited) == Read(slots[offset])
  {
    HitReads(keys, slots, key, offset);
  }

  lemma MissOutcome(keys: seq<Key>, slots: Slots, key: Key, inherited: Outcome<Word>)
    requires |keys| <= |slots| && key !in keys
    ensures GetOutcome(Paired(keys, slots), key, inherited) == inherited
  {
    MissReads(keys, slots, key);
  }

  // ---------------------------------------------------------------- writes

  /** `write_own_slot`, on the slot at `offset`. */
  method WriteOwnSlot(slots: array<Slot<Word>>, offset: nat, slot: Slot<Word>, honor: bool) returns (r: Outcome<Word>)
    requires offset < slots.Length
    modifies slots
    ensures if honor && old(slots[offset]).Accessor? then r == Setter(old(slots[offset])) && slots[..] == old(slots[..])
            else r == Stored && slots[..] == old(slots[..])[offset := slot]
  {
    if honor && slots[offset].Accessor? {
      return Setter(slots[offset]);
    }
    slots[offset] := slot;
    r := Stored;
  }

  /** `jsrt_shape_reserve`: doubling from four until `offset` fits. */
  method Reserve(o: JSObject, offset: nat)
    modifies o
    ensures o.shape == old(o.shape) && o.frozen == old(o.frozen)
    ensures offset < o.slots.Length && old(o.slots.Length) <= o.slots.Length
    ensures o.slots == old(o.slots) || fresh(o.slots)
    ensures o.slots[..old(o.slots.Length)] == old(o.slots[..])
  {
    if offset < o.slots.Length {
      assert o.slots[..o.slots.Length] == o.slots[..];
      return;
    }
    var grown := if o.slots.Length == 0 then 4 else o.slots.Length * 2;
    while grown <= offset
      invariant grown > o.slots.Length && o.slots == old(o.slots)
      invariant o.shape == old(o.shape) && o.frozen == old(o.frozen) && o.slots[..] == old(o.slots[..])
      decreases offset - grown
    {
      grown := grown * 2;
    }
    var bigger := new Slot<Word>[grown];
    for i := 0 to o.slots.Length
      invariant o.slots == old(o.slots) && o.shape == old(o.shape) && o.frozen == old(o.frozen)
      invariant o.slots[..] == old(o.slots[..]) && bigger[..i] == o.slots[..i]
    {
      bigger[i] := o.slots[i];
    }
    o.slots := bigger;
  }

  /** The accessor an add meets on the prototypes; an array has none. */
  function Interceptor(isArray: bool, interceptor: Option<Slot<Word>>): Option<Slot<Word>> {
    if isArray then None else interceptor
  }

  /** What a store answers and what it leaves. */
  function StoreResult(isArray: bool, frozen: bool, props: Props, key: Key, slot: Slot<Word>, honor: bool, interceptor: Option<Slot<Word>>): (Result, Props) {
    if frozen then (Done(ReadOnly), props)
    else if isArray && key == LENGTH then (Resized, props)
    else
      var i := Interceptor(isArray, interceptor);
      (Done(StoreOutcome(props, frozen, key, slot, honor, i)), AfterStore(props, frozen, key, slot, honor, i))
  }

  /** A key the object has: through its setter, or into its slot. */
  lemma HitStores(keys: seq<Key>, slots: Slots, key: Key, offset: nat, slot: Slot<Word>, honor: bool, interceptor: Option<Slot<Word>>)
    requires DistinctKeys(keys) && offset < |keys| <= |slots| && keys[offset] == key
    ensures var ps := Paired(keys, slots);
      if honor && slots[offset].Accessor? then
        StoreOutcome(ps, false, key, slot, honor, interceptor) == Setter(slots[offset]) && AfterStore(ps, false, key, slot, honor, interceptor) == ps
      else
        && StoreOutcome(ps, false, key, slot, honor, interceptor) == Stored
        && AfterStore(ps, false, key, slot, honor, interceptor) == Paired(keys, slots[offset := slot])
  {
    HitReads(keys, slots, key, offset);
  }

  lemma MissStores(keys: seq<Key>, slots: Slots, key: Key, slot: Slot<Word>, honor: bool, interceptor: Option<Slot<Word>>)
    requires |keys| <= |slots| && key !in keys
    ensures var ps := Paired(keys, slots);
      if honor && interceptor.Some? && interceptor.value.Accessor? then
        && StoreOutcome(ps, false, key, slot, honor, interceptor) == Setter(interceptor.value)
        && AfterStore(ps, false, key, slot, honor, interceptor) == ps
      else
        && StoreOutcome(ps, false, key, slot, honor, interceptor) == Stored
        && AfterStore(ps, false, key, slot, honor, interceptor) == ps + [Property(key, slot)]
  {
    MissReads(keys, slots, key);
  }

  /** `store_prop`. */
  method StoreProp(t: Table, o: JSObject, key: Key, slot: Slot<Word>, ic: Site?, honor: bool, interceptor: Option<Slot<Word>>) returns (r: Result)
    requires o.Valid(t) && SiteFor(ic, key, t)
    modifies t, o, o.slots, ic
    ensures o.Valid(t) && SiteFor(ic, key, t) && old(t.nodes) <= t.nodes && o.frozen == old(o.frozen)
    ensures o.slots == old(o.slots) || fresh(o.slots)
    ensures (r, o.Own(t)) == StoreResult(o.isArray, o.frozen, old(o.Own(t)), key, slot, honor, interceptor)
  {
    hide Offsets, Linked, OneEach, Chain, Paired, Own, StoreOutcome, AfterStore;
    if o.frozen {
      return Done(ReadOnly);
    }
    if o.isArray && key == LENGTH {
      return Resized;
    }
    if ic != null && ic.shape == Some(o.shape) {
      r := StoreHit(t, o, key, ic.offset, slot, honor, Interceptor(o.isArray, interceptor));
      return;
    }
    var hit := t.FindKey(o.shape, key);
    if hit.Some? {
      var offset := t.nodes[hit.value].offset;
      if ic != null {
        ic.shape := Some(o.shape);
        ic.offset := offset;
      }
      r := StoreHit(t, o, key, offset, slot, honor, Interceptor(o.isArray, interceptor));
      return;
    }
    MissStores(t.Keys(o.shape), o.slots[..], key, slot, honor, Interceptor(o.isArray, interceptor));
    if !o.isArray && honor && interceptor.Some? && interceptor.value.Accessor? {
      return Done(Setter(interceptor.value));
    }
    AddProp(t, o, key, slot, ic);
    r := Done(Stored);
  }

  method StoreHit(t: Table, o: JSObject, key: Key, offset: nat, slot: Slot<Word>, honor: bool, ghost interceptor: Option<Slot<Word>>) returns (r: Result)
    requires o.Valid(t) && offset < |t.Keys(o.shape)| && t.Keys(o.shape)[offset] == key
    modifies o.slots
    ensures r == Done(StoreOutcome(old(o.Own(t)), false, key, slot, honor, interceptor))
    ensures o.Own(t) == AfterStore(old(o.Own(t)), false, key, slot, honor, interceptor)
  {
    hide Offsets, Linked, OneEach, Chain, Paired, StoreOutcome, AfterStore;
    HitStores(t.Keys(o.shape), o.slots[..], key, offset, slot, honor, interceptor);
    var outcome := WriteOwnSlot(o.slots, offset, slot, honor);
    r := Done(outcome);
  }

  /** A new property: the transition taken or built, its slot made writable. */
  method AddProp(t: Table, o: JSObject, key: Key, slot: Slot<Word>, ghost ic: Site?)
    requires o.Valid(t) && key !in t.Keys(o.shape) && SiteFor(ic, key, t)
    modifies t, o, o.slots
    ensures o.Valid(t) && SiteFor(ic, key, t) && old(t.nodes) <= t.nodes && o.frozen == old(o.frozen)
    ensures o.slots == old(o.slots) || fresh(o.slots)
    ensures o.Own(t) == old(o.Own(t)) + [Property(key, slot)]
  {
    hide Offsets, Linked, OneEach, Chain, Paired;
    ghost var keys, before := t.Keys(o.shape), o.slots[..];
    var next := t.Transition(o.shape, key);
    SiteStays(old(t.nodes), t, ic);
    LastSlot(t, next, |keys|);
    Reserve(o, t.nodes[next].offset);
    o.slots[t.nodes[next].offset] := slot;
    o.shape := next;
    PairedAdds(keys, before, o.slots[..], key, slot);
  }

  /** A shape's own key is at its own offset, the last. */
  lemma LastSlot(t: Table, shape: nat, n: nat)
    requires t.Valid() && shape < |t.nodes| && |t.Keys(shape)| == n + 1
    ensures t.nodes[shape].offset == n
  {
  }

  lemma SiteStays(before: seq<Node>, t: Table, ic: Site?)
    requires t.Valid() && Rooted(before) && before <= t.nodes
    requires ic != null && ic.shape.Some? ==>
      ic.shape.value < |before| && ic.offset < |Chain(before, ic.shape.value)| && Chain(before, ic.shape.value)[ic.offset] == ic.key
    ensures ic != null ==> ic.Valid(t)
  {
    if ic != null && ic.shape.Some? { ShapesStay(before, t.nodes, ic.shape.value); }
  }

  lemma PairedAdds(keys: seq<Key>, before: Slots, now: Slots, key: Key, slot: Slot<Word>)
    requires |keys| <= |before| <= |now| && |keys| < |now| && now[|keys|] == slot && key !in keys
    requires forall i :: 0 <= i < |keys| ==> now[i] == before[i]
    requires DistinctKeys(keys)
    ensures Paired(keys + [key], now) == Paired(keys, before) + [Property(key, slot)] && DistinctKeys(keys + [key])
  {
  }

  /** `jsrt_define_accessor`: the pair replaces whatever the key held; no setter runs. */
  method DefineAccessor(t: Table, o: JSObject, key: Key, getter: Option<Word>, setter: Option<Word>) returns (r: Result)
    requires o.Valid(t)
    modifies t, o, o.slots
    ensures o.Valid(t) && old(t.nodes) <= t.nodes && o.frozen == old(o.frozen)
    ensures o.slots == old(o.slots) || fresh(o.slots)
    ensures (r, o.Own(t)) == StoreResult(o.isArray, o.frozen, old(o.Own(t)), key, Accessor(getter, setter), false, None)
  {
    r := StoreProp(t, o, key, Accessor(getter, setter), null, false, None);
  }

  function DeleteResult(isArray: bool, frozen: bool, props: Props, key: Key): (Result, Props) {
    if isArray && key == LENGTH then (Done(ReadOnly), props)
    else if Own(props, key).Some? && frozen then (Done(ReadOnly), props) else (Done(Removed), AfterDelete(props, frozen, key))
  }

  /** `jsrt_delete` of a key that is no element of an array. */
  method DeleteProp(t: Table, o: JSObject, key: Key) returns (r: Result)
    requires o.Valid(t)
    modifies t, o, o.slots
    ensures o.Valid(t) && old(t.nodes) <= t.nodes && o.frozen == old(o.frozen) && o.slots == old(o.slots)
    ensures (r, o.Own(t)) == DeleteResult(o.isArray, o.frozen, old(o.Own(t)), key)
  {
    hide Chain, Paired, Own, Drop, Without;
    if o.isArray && key == LENGTH {
      return Done(ReadOnly);
    }
    ghost var keys, before := t.Keys(o.shape), o.slots[..];
    var hit := t.FindKey(o.shape, key);
    if hit.None? {
      MissReads(keys, before, key);
      return Done(Removed);
    }
    ghost var offset := t.nodes[hit.value].offset;
    HitReads(keys, before, key, offset);
    if o.frozen {
      return Done(ReadOnly);
    }
    HitIsLink(t.nodes, o.shape, key);
    var replay := t.Remove(o.shape, o.slots, hit.value);
    o.shape := replay;
    PairedDrops(keys, before, o.slots[..], t.Keys(replay), offset);
    r := Done(Removed);
  }

  lemma PairedDrops(keys: seq<Key>, before: Slots, now: Slots, rest: seq<Key>, offset: nat)
    requires DistinctKeys(keys) && offset < |keys| <= |before| == |now| && rest == Without(keys, offset)
    requires now[..|rest|] == Without(before[..|keys|], offset)
    ensures Paired(rest, now) == Without(Paired(keys, before), offset) && DistinctKeys(rest)
  {
    WithoutDistinct(keys, offset);
    forall i | 0 <= i < |rest| ensures now[i] == Without(before[..|keys|], offset)[i] { assert now[..|rest|][i] == now[i]; }
  }
}

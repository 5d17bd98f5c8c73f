/** Runs over any objects that share shapes, at any sites: caches change no answer and no property. */
module ShapeWorld {
  import opened Options
  import opened KeyOrder
  import opened ShapeModel
  import opened ShapeRuntime
  import opened ShapeObjects

  /** An object without shapes, slots or caches. */
  datatype Object = Object(isArray: bool, frozen: bool, props: Props, proto: Option<nat>, ctor: Option<Word>)

  /** `beyond` is what answers a read that runs off the chain: the methods of arrays, or a prototype that is no
      dynamic object. */
  datatype Event =
    | New(isArray: bool, proto: Option<nat>, ctor: Option<Word>)
    | Get(o: nat, key: Key, beyond: Outcome<Word>)
    | Set(o: nat, key: Key, value: Word)
    | Define(o: nat, key: Key, getter: Option<Word>, setter: Option<Word>)
    | Delete(o: nat, key: Key)
    | Freeze(o: nat)

  /** The objects an event is about exist; a prototype is set when the object is made, so it is older; an array is
      not frozen this way, and has no prototype among these. */
  predicate Fits(e: Event, objects: seq<Object>) {
    match e
    case New(isArray, proto, ctor) =>
      && (proto.Some? ==> proto.value < |objects| && !objects[proto.value].isArray)
      && (isArray ==> proto.None? && ctor.None?)
    case Get(o, _, _) => o < |objects|
    case Set(o, _, _) => o < |objects|
    case Define(o, _, _, _) => o < |objects|
    case Delete(o, _) => o < |objects|
    case Freeze(o) => o < |objects| && !objects[o].isArray
  }

  const CONSTRUCTOR: Key := [99, 111, 110, 115, 116, 114, 117, 99, 116, 111, 114]

  /** `inherited_get`: the hidden constructor, then each prototype in turn. */
  function Inherited(objects: seq<Object>, o: nat, key: Key, beyond: Outcome<Word>): Outcome<Word>
    requires o < |objects|
    decreases o
  {
    var x := objects[o];
    if x.ctor.Some? && key == CONSTRUCTOR then Answer(x.ctor.value)
    else if x.proto.None? || x.proto.value >= o then beyond
    else
      var own := Own(objects[x.proto.value].props, key);
      if own.Some? then Read(own.value) else Inherited(objects, x.proto.value, key, beyond)
  }

  /** `inherited_accessor`: the accessor that the first prototype with the key has, if it is one. */
  function Intercepting(objects: seq<Object>, o: nat, key: Key): Option<Slot<Word>>
    requires o < |objects|
    decreases o
  {
    var x := objects[o];
    if x.proto.None? || x.proto.value >= o then None
    else
      var own := Own(objects[x.proto.value].props, key);
      if own.None? then Intercepting(objects, x.proto.value, key)
      else if own.value.Accessor? then own
      else None
  }

  /** What an event answers and leaves when there are no caches at all. */
  function Step(objects: seq<Object>, e: Event): (seq<Object>, Result)
    requires Fits(e, objects)
  {
    match e
    case New(isArray, proto, ctor) => (objects + [Object(isArray, false, [], proto, ctor)], Done(Stored))
    case Get(o, key, beyond) =>
      (objects, ReadResult(objects[o].isArray, objects[o].props, key, Inherited(objects, o, key, beyond)))
    case Set(o, key, value) =>
      var x := objects[o];
      var (r, props) := StoreResult(x.isArray, x.frozen, x.props, key, Data(value), true, Intercepting(objects, o, key));
      (objects[o := x.(props := props)], r)
    case Define(o, key, getter, setter) =>
      var x := objects[o];
      var (r, props) := StoreResult(x.isArray, x.frozen, x.props, key, Accessor(getter, setter), false, None);
      (objects[o := x.(props := props)], r)
    case Delete(o, key) =>
      var x := objects[o];
      var (r, props) := DeleteResult(x.isArray, x.frozen, x.props, key);
      (objects[o := x.(props := props)], r)
    case Freeze(o) => (objects[o := objects[o].(frozen := true)], Done(Stored))
  }

  predicate AllFit(objects: seq<Object>, es: seq<Event>)
    decreases es
  {
    es != [] ==> Fits(es[0], objects) && AllFit(Step(objects, es[0]).0, es[1..])
  }

  /** The answers of a whole run without caches. */
  function Answers(objects: seq<Object>, es: seq<Event>): (r: seq<Result>)
    requires AllFit(objects, es)
    ensures |r| == |es|
    decreases es
  {
    if es == [] then [] else
    var (next, answer) := Step(objects, es[0]);
    [answer] + Answers(next, es[1..])
  }

  /** The objects a whole run without caches leaves. */
  function After(objects: seq<Object>, es: seq<Event>): seq<Object>
    requires AllFit(objects, es)
    decreases es
  {
    if es == [] then objects else After(Step(objects, es[0]).0, es[1..])
  }

  /** Objects that differ only from the `o`-th on give the same chain to what is no younger. */
  lemma {:induction false} SameChain(objects: seq<Object>, next: seq<Object>, o: nat, i: nat, key: Key, beyond: Outcome<Word>)
    requires |next| == |objects| && i <= o < |objects| && (forall k :: 0 <= k < o ==> next[k] == objects[k])
    requires next[o].proto == objects[o].proto && next[o].ctor == objects[o].ctor
    ensures Inherited(next, i, key, beyond) == Inherited(objects, i, key, beyond)
    decreases i
  {
    var x := objects[i];
    if x.proto.Some? && x.proto.value < i { SameChain(objects, next, o, x.proto.value, key, beyond); }
  }

  /** A stored value is what the next read of its key answers, and nothing else of the object is changed. */
  lemma ReadsWhatWasStored(objects: seq<Object>, o: nat, key: Key, value: Word)
    requires o < |objects|
    ensures var (next, r) := Step(objects, Set(o, key, value));
      && |next| == |objects| && (forall i :: 0 <= i < |next| && i != o ==> next[i] == objects[i])
      && (r != Done(Stored) ==> next == objects)
      && forall other, beyond :: Step(next, Get(o, other, beyond)).1 ==
           if other == key && r == Done(Stored) then Done(Answer(value)) else Step(objects, Get(o, other, beyond)).1
  {
    var (next, r) := Step(objects, Set(o, key, value));
    forall other, beyond
      ensures Step(next, Get(o, other, beyond)).1 ==
        if other == key && r == Done(Stored) then Done(Answer(value)) else Step(objects, Get(o, other, beyond)).1
    {
      OwnAfterPut(objects[o].props, key, Data(value), other);
      SameChain(objects, next, o, o, other, beyond);
    }
  }

  /** What is stored in a prototype is read through every object on it that does not shadow the key. */
  lemma InheritsWhatWasStored(objects: seq<Object>, o: nat, key: Key, value: Word, child: nat, beyond: Outcome<Word>)
    requires o < child < |objects| && objects[child].proto == Some(o) && !objects[child].isArray
    requires Own(objects[child].props, key).None? && !(objects[child].ctor.Some? && key == CONSTRUCTOR)
    requires Step(objects, Set(o, key, value)).1 == Done(Stored)
    ensures Step(Step(objects, Set(o, key, value)).0, Get(child, key, beyond)).1 == Done(Answer(value))
  {
    OwnAfterPut(objects[o].props, key, Data(value), key);
  }

  class World {
    const table: Table
    var objects: seq<JSObject>
    var sites: seq<Site>

    constructor ()
      ensures Valid() && State() == [] && sites == [] && fresh(table)
    {
      table := new Table();
      objects, sites := [], [];
    }

    ghost function Buffers(): set<object>
      reads this, objects
    {
      set o | o in objects :: o.slots
    }

    /** Everything that belongs to the world. */
    ghost function Footprint(): set<object>
      reads this, objects
    {
      {table} + (set o: JSObject | o in objects :: o as object) + Buffers() + (set ic: Site | ic in sites :: ic as object)
    }

    ghost predicate Valid()
      reads this, table, objects, Buffers(), sites
    {
      && table.Valid()
      && (forall i :: 0 <= i < |objects| ==> objects[i].Valid(table))
      && (forall i, j :: 0 <= i < j < |objects| ==> objects[i] != objects[j] && objects[i].slots != objects[j].slots)
      && (forall i :: 0 <= i < |objects| && objects[i].proto.Some? ==> objects[i].proto.value < i)
      && (forall k :: 0 <= k < |sites| ==> sites[k].Valid(table))
    }

    ghost function Abstract(o: JSObject): Object
      reads table, o, o.slots
      requires o.Valid(table)
    {
      Object(o.isArray, o.frozen, o.Own(table), o.proto, o.ctor)
    }

    /** The objects as a program sees them. */
    ghost function State(): (s: seq<Object>)
      reads this, table, objects, Buffers(), sites
      requires Valid()
      ensures |s| == |objects|
    {
      seq(|objects|, i requires 0 <= i < |objects| reads this, table, objects, Buffers() requires objects[i].Valid(table) =>
        Abstract(objects[i]))
    }

    /** An object that an operation did not touch is as it was, whatever was added to the table. */
    twostate lemma Untouched(o: JSObject)
      requires old(o.Valid(table)) && table.Valid() && old(table.nodes) <= table.nodes
      requires unchanged(o) && unchanged(o.slots)
      ensures o.Valid(table) && Abstract(o) == old(Abstract(o))
    {
      ShapesStay(old(table.nodes), table.nodes, o.shape);
    }

    twostate lemma SiteUntouched(ic: Site)
      requires old(ic.Valid(table)) && table.Valid() && old(table.nodes) <= table.nodes && unchanged(ic)
      ensures ic.Valid(table)
    {
      if ic.shape.Some? { ShapesStay(old(table.nodes), table.nodes, ic.shape.value); }
    }

    /** After an operation on one object: it and the others are valid, and the state differs only there. */
    twostate lemma OneChanged(o: nat)
      requires old(Valid()) && objects == old(objects) && sites == old(sites) && o < |objects|
      requires table.Valid() && old(table.nodes) <= table.nodes
      requires objects[o].Valid(table)
      requires forall i :: 0 <= i < |objects| && i != o ==> unchanged(objects[i]) && unchanged(objects[i].slots)
      requires forall i :: 0 <= i < |objects| && i != o ==> objects[i].slots != objects[o].slots
      requires forall k :: 0 <= k < |sites| ==> sites[k].Valid(table)
      ensures Valid() && State() == old(State())[o := Abstract(objects[o])]
    {
      forall i | 0 <= i < |objects| && i != o ensures objects[i].Valid(table) && Abstract(objects[i]) == old(Abstract(objects[i])) {
        Untouched(objects[i]);
      }
    }

    twostate lemma SitesStay(ic: Site?)
      requires old(Valid()) && sites == old(sites) && table.Valid() && old(table.nodes) <= table.nodes
      requires forall k :: 0 <= k < |sites| ==> if sites[k] == ic then sites[k].Valid(table) else unchanged(sites[k])
      ensures forall k :: 0 <= k < |sites| ==> sites[k].Valid(table)
    {
      forall k | 0 <= k < |sites| ensures sites[k].Valid(table) {
        if sites[k] != ic { SiteUntouched(sites[k]); }
      }
    }

    /** The cache a site brings to an access, if the access has a site. */
    ghost predicate SiteOf(ic: Site?, key: Key)
      reads this, sites
    {
      ic != null ==> ic in sites && ic.key == key
    }

    /** A read touches nothing but its own site's cache. */
    twostate lemma OnlyCache(ic: Site?)
      requires old(Valid()) && unchanged(this) && unchanged(table)
      requires forall i :: 0 <= i < |objects| ==> unchanged(objects[i]) && unchanged(objects[i].slots)
      requires forall k :: 0 <= k < |sites| ==> if sites[k] == ic then sites[k].Valid(table) else unchanged(sites[k])
      ensures Valid() && State() == old(State())
    {
      forall i | 0 <= i < |objects| ensures objects[i].Valid(table) && Abstract(objects[i]) == old(Abstract(objects[i])) {
        Untouched(objects[i]);
      }
      forall k | 0 <= k < |sites| ensures sites[k].Valid(table) {
        if sites[k] != ic { SiteUntouched(sites[k]); }
      }
    }

    method Get(o: nat, key: Key, ic: Site?, inherited: Outcome<Word>) returns (r: Result)
      requires Valid() && o < |objects| && SiteOf(ic, key)
      modifies ic
      ensures Valid() && State() == old(State())
      ensures r == ReadResult(old(State())[o].isArray, old(State())[o].props, key, inherited)
    {
      hide TableOk, ReadResult, Chain, Paired, DistinctKeys;
      r := GetProp(table, objects[o], key, ic, inherited);
      OnlyCache(ic);
    }

    method Store(o: nat, key: Key, slot: Slot<Word>, ic: Site?, honor: bool, interceptor: Option<Slot<Word>>) returns (r: Result)
      requires Valid() && o < |objects| && SiteOf(ic, key)
      modifies table, objects[o], objects[o].slots, ic
      ensures Valid() && Owned()
      ensures var x := old(State())[o]; var stored := StoreResult(x.isArray, x.frozen, x.props, key, slot, honor, interceptor);
        State() == old(State())[o := x.(props := stored.1)] && r == stored.0
    {
      hide TableOk, StoreResult, Chain, Paired, DistinctKeys;
      r := StoreProp(table, objects[o], key, slot, ic, honor, interceptor);
      SitesStay(ic);
      OneChanged(o);
      BuffersStay();
    }

    method Remove(o: nat, key: Key) returns (r: Result)
      requires Valid() && o < |objects|
      modifies table, objects[o], objects[o].slots
      ensures Valid() && Owned()
      ensures var x := old(State())[o]; var deleted := DeleteResult(x.isArray, x.frozen, x.props, key);
        State() == old(State())[o := x.(props := deleted.1)] && r == deleted.0
    {
      hide TableOk, DeleteResult, Chain, Paired, DistinctKeys;
      r := DeleteProp(table, objects[o], key);
      SitesStay(null);
      OneChanged(o);
      BuffersStay();
    }

    /** What belongs to the world belonged to it before, or is new. */
    twostate predicate Owned()
      reads this, objects
    {
      sites == old(sites) && fresh(Footprint() - old(Footprint()))
    }

    twostate lemma BuffersStay()
      requires objects == old(objects) && sites == old(sites)
      requires forall x <- objects :: x.slots == old(x.slots) || fresh(x.slots)
      ensures Owned()
    {
    }

    /** The loop of `inherited_get`: the chain is walked without caches. */
    method InheritedGet(o: nat, key: Key, beyond: Outcome<Word>) returns (r: Outcome<Word>)
      requires Valid() && o < |objects|
      ensures r == Inherited(State(), o, key, beyond)
    {
      hide TableOk, Chain, Paired, DistinctKeys, Own;
      ghost var s := State();
      var p: nat := o;
      while true
        invariant State() == s && p <= o && Inherited(s, p, key, beyond) == Inherited(s, o, key, beyond)
        decreases p
      {
        assert s[p] == Abstract(objects[p]);
        if objects[p].ctor.Some? && key == CONSTRUCTOR {
          return Answer(objects[p].ctor.value);
        }
        if objects[p].proto.None? {
          return beyond;
        }
        p := objects[p].proto.value;
        var own := OwnSlot(table, objects[p], key);
        assert State() == s;
        assert own == Own(s[p].props, key);
        if own.Some? {
          return Read(own.value);
        }
      }
    }

    /** The loop of `inherited_accessor`. */
    method InheritedAccessor(o: nat, key: Key) returns (r: Option<Slot<Word>>)
      requires Valid() && o < |objects|
      ensures r == Intercepting(State(), o, key)
    {
      hide TableOk, Chain, Paired, DistinctKeys, Own;
      ghost var s := State();
      var p: nat := o;
      while objects[p].proto.Some?
        invariant State() == s && p <= o && Intercepting(s, p, key) == Intercepting(s, o, key)
        decreases p
      {
        assert s[p] == Abstract(objects[p]);
        p := objects[p].proto.value;
        var own := OwnSlot(table, objects[p], key);
        assert State() == s;
        assert own == Own(s[p].props, key);
        if own.Some? {
          return if own.value.Accessor? then own else None;
        }
      }
      assert s[p] == Abstract(objects[p]);
      return None;
    }

    method Create(isArray: bool, proto: Option<nat>, ctor: Option<Word>)
      requires Valid() && Fits(New(isArray, proto, ctor), State())
      modifies this`objects
      ensures Valid() && Owned() && State() == old(State()) + [Object(isArray, false, [], proto, ctor)]
    {
      hide Offsets, Linked, OneEach;
      ghost var before := State();
      var x := new JSObject(isArray, proto, ctor);
      assert Chain(table.nodes, 0) == [];
      forall i | 0 <= i < |objects| ensures objects[i].Valid(table) && Abstract(objects[i]) == before[i] && objects[i].slots != x.slots {
        Untouched(objects[i]);
      }
      assert x.Own(table) == [];
      objects := objects + [x];
    }

    method Harden(o: nat)
      requires Valid() && o < |objects| && !objects[o].isArray
      modifies objects[o]
      ensures Valid() && Owned() && State() == old(State())[o := old(State())[o].(frozen := true)]
    {
      hide TableOk, Chain;
      objects[o].frozen := true;
      SitesStay(null);
      OneChanged(o);
    }

    lemma InFootprint(o: nat)
      requires o < |objects|
      ensures objects[o] in Footprint() && objects[o].slots in Footprint() && table in Footprint()
    {
      assert objects[o] in objects;
      assert objects[o].slots in Buffers();
    }

    /** A read: its own slot, or what the chain answers. */
    method ReadAt(o: nat, key: Key, ic: Site?, beyond: Outcome<Word>) returns (r: Result)
      requires Valid() && o < |objects| && SiteOf(ic, key)
      modifies ic
      ensures Valid() && Owned() && State() == old(State())
      ensures r == Step(old(State()), Event.Get(o, key, beyond)).1
    {
      hide TableOk, Chain, ReadResult, Inherited;
      var inherited := InheritedGet(o, key, beyond);
      r := Get(o, key, ic, inherited);
      BuffersStay();
    }

    /** A write: an accessor on the chain is met when the object has no such key. */
    method WriteAt(o: nat, key: Key, value: Word, ic: Site?) returns (r: Result)
      requires Valid() && o < |objects| && SiteOf(ic, key)
      modifies table, objects[o], objects[o].slots, ic
      ensures Valid() && Owned()
      ensures State() == Step(old(State()), Event.Set(o, key, value)).0 && r == Step(old(State()), Event.Set(o, key, value)).1
    {
      hide TableOk, Chain, StoreResult, Intercepting;
      var interceptor := InheritedAccessor(o, key);
      r := Store(o, key, Data(value), ic, true, interceptor);
    }

    /** One event, at a site or at none. */
    method Perform(e: Event, ic: Site?) returns (r: Result)
      requires Valid() && Fits(e, State()) && (e.Get? || e.Set? ==> SiteOf(ic, e.key))
      modifies this`objects, Footprint()
      ensures Valid() && Owned()
      ensures State() == Step(old(State()), e).0 && r == Step(old(State()), e).1
    {
      hide TableOk, Chain, StoreResult, ReadResult, DeleteResult, Inherited, Intercepting;
      match e {
        case New(isArray, proto, ctor) =>
          Create(isArray, proto, ctor);
          r := Done(Stored);
        case Get(o, key, beyond) =>
          r := ReadAt(o, key, ic, beyond);
        case Set(o, key, value) =>
          InFootprint(o);
          r := WriteAt(o, key, value, ic);
        case Define(o, key, getter, setter) =>
          InFootprint(o);
          r := Store(o, key, Accessor(getter, setter), null, false, None);
        case Delete(o, key) =>
          InFootprint(o);
          r := Remove(o, key);
        case Freeze(o) =>
          Harden(o);
          r := Done(Stored);
      }
    }

    /** A program compiled with one more access site, its cache empty. */
    method AddSite(key: Key)
      requires Valid()
      modifies this`sites
      ensures Valid() && State() == old(State())
      ensures |sites| == |old(sites)| + 1 && old(sites) <= sites && fresh(sites[|sites| - 1]) && sites[|sites| - 1].key == key
    {
      hide TableOk, Chain;
      var ic := new Site(key);
      sites := sites + [ic];
    }

    /** A site for an event's access, by number, if it brings one. */
    ghost predicate SitesFor(es: seq<Event>, at: seq<Option<nat>>)
      reads this, sites
    {
      |es| == |at| && forall k :: 0 <= k < |es| && (es[k].Get? || es[k].Set?) && at[k].Some? ==>
        at[k].value < |sites| && sites[at[k].value].key == es[k].key
    }

    /** A whole run with any caches anywhere answers what the run without them does, and leaves the same objects. */
    method RunAll(es: seq<Event>, at: seq<Option<nat>>) returns (answers: seq<Result>)
      requires Valid() && AllFit(State(), es) && SitesFor(es, at)
      modifies this`objects, Footprint()
      ensures Valid()
      ensures answers == Answers(old(State()), es) && State() == After(old(State()), es)
    {
      hide TableOk, Chain, Step, AllFit, Answers, After, Valid;
      answers := [];
      assert es[0..] == es;
      NoPrefix(Answers(State(), es));
      for k := 0 to |es|
        invariant Valid() && Owned() && AllFit(State(), es[k..])
        invariant answers + Answers(State(), es[k..]) == Answers(old(State()), es)
        invariant After(State(), es[k..]) == After(old(State()), es)
      {
        FirstStep(State(), es, k, answers);
        var ic: Site? := if (es[k].Get? || es[k].Set?) && at[k].Some? then sites[at[k].value] else null;
        var r := Perform(es[k], ic);
        answers := answers + [r];
      }
      RunEnds(State(), es, answers);
    }
  }

  lemma NoPrefix(rs: seq<Result>)
    ensures [] + rs == rs
  {
  }

  lemma FirstStep(objects: seq<Object>, es: seq<Event>, k: nat, answers: seq<Result>)
    requires k < |es| && AllFit(objects, es[k..])
    ensures Fits(es[k], objects)
    ensures var (next, r) := Step(objects, es[k]);
      && AllFit(next, es[k + 1..])
      && (answers + [r]) + Answers(next, es[k + 1..]) == answers + Answers(objects, es[k..])
      && After(next, es[k + 1..]) == After(objects, es[k..])
  {
    hide Step;
    assert es[k..][0] == es[k] && es[k..][1..] == es[k + 1..];
    var (next, r) := Step(objects, es[k]);
    assert (answers + [r]) + Answers(next, es[k + 1..]) == answers + ([r] + Answers(next, es[k + 1..]));
  }

  lemma RunEnds(objects: seq<Object>, es: seq<Event>, answers: seq<Result>)
    requires AllFit(objects, es[|es|..])
    ensures answers + Answers(objects, es[|es|..]) == answers && After(objects, es[|es|..]) == objects
  {
  }
}

/** What every access does, from the property that is nearest on the prototype chain (sections 10.1.8 to 10.1.10
    of ECMA-262). */
module ShapeAccess {
  import opened Options
  import opened KeyOrder
  import opened ShapeModel
  import opened ShapeObjects
  import opened ShapeWorld

  /** The slot of `key` on the object, or on the first of its prototypes that has one. */
  ghost function Nearest(objects: seq<Object>, o: nat, key: Key): Option<Slot<Word>>
    requires o < |objects|
    decreases o
  {
    var x := objects[o];
    var own := Own(x.props, key);
    if own.Some? || x.proto.None? || x.proto.value >= o then own else Nearest(objects, x.proto.value, key)
  }

  /** No object on the chain hides a constructor under this key. */
  ghost predicate NoneHidden(objects: seq<Object>, o: nat, key: Key)
    requires o < |objects|
    decreases o
  {
    var x := objects[o];
    && !(x.ctor.Some? && key == CONSTRUCTOR)
    && (x.proto.Some? && x.proto.value < o ==> NoneHidden(objects, x.proto.value, key))
  }

  /** The objects a program can make: prototypes are older, arrays have none among these. */
  ghost predicate Made(objects: seq<Object>) {
    forall i :: 0 <= i < |objects| ==>
      && (objects[i].proto.Some? ==> objects[i].proto.value < i && !objects[objects[i].proto.value].isArray)
      && (objects[i].isArray ==> objects[i].proto.None? && objects[i].ctor.None? && !objects[i].frozen)
      && DistinctKeys(KeysOf(objects[i].props))
  }

  lemma StaysMade(objects: seq<Object>, e: Event)
    requires Made(objects) && Fits(e, objects)
    ensures Made(Step(objects, e).0)
  {
    match e
    case Set(o, key, value) =>
      PutDistinct(objects[o].props, key, Data(value));
    case Define(o, key, g, s) =>
      PutDistinct(objects[o].props, key, Accessor(g, s));
    case Delete(o, key) =>
      DropDistinct(objects[o].props, key);
    case _ =>
  }

  lemma {:induction false} OwnIs(props: Props, key: Key)
    ensures Own(props, key).Some? <==> key in KeysOf(props)
    decreases props
  {
    if props != [] {
      var n := |props| - 1;
      OwnIs(props[..n], key);
      assert KeysOf(props) == KeysOf(props[..n]) + [props[n].key];
    }
  }

  lemma {:induction false} PutKeys(props: Props, key: Key, slot: Slot<Word>)
    ensures KeysOf(Put(props, key, slot)) == if Own(props, key).Some? then KeysOf(props) else KeysOf(props) + [key]
    decreases props
  {
    if props != [] {
      var n := |props| - 1;
      PutKeys(props[..n], key, slot);
      assert KeysOf(props) == KeysOf(props[..n]) + [props[n].key];
    }
  }

  lemma PutDistinct(props: Props, key: Key, slot: Slot<Word>)
    requires DistinctKeys(KeysOf(props))
    ensures DistinctKeys(KeysOf(Put(props, key, slot)))
  {
    PutKeys(props, key, slot);
    OwnIs(props, key);
  }

  /** The properties but for the one of `key`, in the order they had. */
  ghost function But(props: Props, key: Key): Props {
    if props == [] then []
    else But(props[..|props| - 1], key) + if props[|props| - 1].key == key then [] else [props[|props| - 1]]
  }

  lemma FrontMisses(props: Props)
    requires DistinctKeys(KeysOf(props)) && props != []
    ensures Own(props[..|props| - 1], props[|props| - 1].key).None?
  {
    var n := |props| - 1;
    OwnIs(props[..n], props[n].key);
    forall i | 0 <= i < n ensures KeysOf(props[..n])[i] != props[n].key { assert KeysOf(props)[i] != KeysOf(props)[n]; }
  }

  lemma {:induction false} DropIsBut(props: Props, key: Key)
    requires DistinctKeys(KeysOf(props))
    ensures Drop(props, key) == But(props, key)
    decreases props
  {
    if props != [] {
      var n := |props| - 1;
      FrontDistinct(props);
      DropIsBut(props[..n], key);
      if props[n].key == key {
        FrontMisses(props);
        DropMissing(props[..n], key);
      }
    }
  }

  lemma DropDistinct(props: Props, key: Key)
    requires DistinctKeys(KeysOf(props))
    ensures DistinctKeys(KeysOf(Drop(props, key)))
  {
    if Own(props, key).Some? {
      var i := WhereOwn(props, key);
      DropAt(props, key, i);
      forall a, b | 0 <= a < b < |props| - 1 ensures KeysOf(Without(props, i))[a] != KeysOf(Without(props, i))[b] {
        assert KeysOf(Without(props, i))[a] == KeysOf(props)[if a < i then a else a + 1];
        assert KeysOf(Without(props, i))[b] == KeysOf(props)[if b < i then b else b + 1];
      }
    } else {
      DropMissing(props, key);
    }
  }

  lemma WhereOwn(props: Props, key: Key) returns (i: nat)
    requires Own(props, key).Some?
    ensures i < |props| && props[i].key == key
  {
    OwnIs(props, key);
    var k :| 0 <= k < |props| && KeysOf(props)[k] == key;
    i := k;
  }

  // ---------------------------------------------------------------- what each event does

  lemma {:induction false} InheritedIsNearest(objects: seq<Object>, o: nat, key: Key, beyond: Outcome<Word>)
    requires o < |objects| && NoneHidden(objects, o, key) && Own(objects[o].props, key).None?
    ensures var slot := Nearest(objects, o, key);
      Inherited(objects, o, key, beyond) == if slot.Some? then Read(slot.value) else beyond
    decreases o
  {
    var x := objects[o];
    if x.proto.Some? && x.proto.value < o && Own(objects[x.proto.value].props, key).None? {
      InheritedIsNearest(objects, x.proto.value, key, beyond);
    }
  }

  lemma {:induction false} InterceptingIsNearest(objects: seq<Object>, o: nat, key: Key)
    requires o < |objects| && Own(objects[o].props, key).None?
    ensures var slot := Nearest(objects, o, key);
      Intercepting(objects, o, key) == if slot.Some? && slot.value.Accessor? then slot else None
    decreases o
  {
    var x := objects[o];
    if x.proto.Some? && x.proto.value < o && Own(objects[x.proto.value].props, key).None? {
      InterceptingIsNearest(objects, x.proto.value, key);
    }
  }

  /** A read answers the nearest slot: its value, or its getter's call, or undefined without one. */
  lemma GetMeans(objects: seq<Object>, o: nat, key: Key, beyond: Outcome<Word>)
    requires o < |objects| && NoneHidden(objects, o, key) && !(objects[o].isArray && key == LENGTH)
    ensures Step(objects, Get(o, key, beyond)) == (objects, Done(
      match Nearest(objects, o, key)
      case None => beyond
      case Some(Data(v)) => Answer(v)
      case Some(Accessor(Some(g), _)) => Runs(g)
      case Some(Accessor(None, _)) => NoValue))
  {
    if Own(objects[o].props, key).None? { InheritedIsNearest(objects, o, key, beyond); }
  }

  /** A hidden constructor stands behind the object's own properties and before its prototypes. */
  lemma HiddenMeans(objects: seq<Object>, o: nat, beyond: Outcome<Word>)
    requires o < |objects| && objects[o].ctor.Some? && Own(objects[o].props, CONSTRUCTOR).None? && !objects[o].isArray
    ensures Step(objects, Get(o, CONSTRUCTOR, beyond)) == (objects, Done(Answer(objects[o].ctor.value)))
  {
  }

  /** A write: refused by a frozen object; a call of the setter of the nearest slot, if that is an accessor, or a
      TypeError without one; else stored on the object itself. */
  lemma SetMeans(objects: seq<Object>, o: nat, key: Key, v: Word)
    requires Made(objects) && o < |objects| && !(objects[o].isArray && key == LENGTH)
    ensures var (next, r) := Step(objects, Set(o, key, v)); var x := objects[o];
      && r == Done(if x.frozen then ReadOnly else
           match Nearest(objects, o, key)
           case Some(Accessor(_, Some(s))) => Runs(s)
           case Some(Accessor(_, None)) => OnlyGetter
           case _ => Stored)
      && (r != Done(Stored) ==> next == objects)
      && (r == Done(Stored) ==> Wrote(objects, next, o, key, Data(v)))
  {
    if Own(objects[o].props, key).None? { InterceptingIsNearest(objects, o, key); }
    PutIsWrite(objects, o, key, Data(v));
  }

  /** `next` is `objects` with this slot under `key` of `o`: in its place, or behind the others. */
  ghost predicate Wrote(objects: seq<Object>, next: seq<Object>, o: nat, key: Key, slot: Slot<Word>) {
    && o < |objects| == |next| && next == objects[o := objects[o].(props := next[o].props)]
    && KeysOf(next[o].props) ==
         (if Own(objects[o].props, key).Some? then KeysOf(objects[o].props) else KeysOf(objects[o].props) + [key])
    && forall other :: Own(next[o].props, other) == if other == key then Some(slot) else Own(objects[o].props, other)
  }

  lemma PutIsWrite(objects: seq<Object>, o: nat, key: Key, slot: Slot<Word>)
    requires o < |objects|
    ensures Wrote(objects, objects[o := objects[o].(props := Put(objects[o].props, key, slot))], o, key, slot)
  {
    PutKeys(objects[o].props, key, slot);
    forall other ensures Own(Put(objects[o].props, key, slot), other) == if other == key then Some(slot) else Own(objects[o].props, other) {
      OwnAfterPut(objects[o].props, key, slot, other);
    }
  }

  /** Defining an accessor calls none: the pair stands under the key, whatever stood there or is inherited. */
  lemma DefineMeans(objects: seq<Object>, o: nat, key: Key, g: Option<Word>, s: Option<Word>)
    requires Made(objects) && o < |objects| && !(objects[o].isArray && key == LENGTH)
    ensures var (next, r) := Step(objects, Define(o, key, g, s));
      if objects[o].frozen then next == objects && r == Done(ReadOnly)
      else r == Done(Stored) && Wrote(objects, next, o, key, Accessor(g, s))
  {
    PutIsWrite(objects, o, key, Accessor(g, s));
  }

  /** A delete takes the property away and no other; of a frozen object only what is not there. */
  lemma DeleteMeans(objects: seq<Object>, o: nat, key: Key)
    requires Made(objects) && o < |objects|
    ensures var (next, r) := Step(objects, Delete(o, key)); var x := objects[o];
      if (x.isArray && key == LENGTH) || (x.frozen && Own(x.props, key).Some?) then next == objects && r == Done(ReadOnly)
      else r == Done(Removed) && next == objects[o := x.(props := But(x.props, key))] && Own(next[o].props, key).None?
  {
    var x := objects[o];
    DropIsBut(x.props, key);
    DropMissingIfAbsent(x.props, key);
    OwnAfterDrop(x.props, key, key);
  }

  lemma DropMissingIfAbsent(props: Props, key: Key)
    ensures Own(props, key).None? ==> Drop(props, key) == props
  {
    if Own(props, key).None? { DropMissing(props, key); }
  }

  /** A new object has nothing of its own; freezing changes no property. */
  lemma NewAndFreezeMean(objects: seq<Object>, isArray: bool, proto: Option<nat>, ctor: Option<Word>, o: nat)
    requires Fits(New(isArray, proto, ctor), objects) && Fits(Freeze(o), objects)
    ensures var next := Step(objects, New(isArray, proto, ctor)).0;
      |next| == |objects| + 1 && next[..|objects|] == objects && !next[|objects|].frozen
      && (forall key :: Own(next[|objects|].props, key).None?)
      && next[|objects|].isArray == isArray && next[|objects|].proto == proto && next[|objects|].ctor == ctor
    ensures var next := Step(objects, Freeze(o)).0; next == objects[o := objects[o].(frozen := true)]
  {
  }

  // ---------------------------------------------------------------- accessors

  /** `i` is `o`, or inherits from it with nothing nearer under the key. */
  ghost predicate Heir(objects: seq<Object>, i: nat, o: nat, key: Key)
    requires i < |objects|
    decreases i
  {
    i == o || (var x := objects[i];
      Own(x.props, key).None? && x.proto.Some? && x.proto.value < i && Heir(objects, x.proto.value, o, key))
  }

  lemma {:induction false} HeirSees(objects: seq<Object>, next: seq<Object>, i: nat, o: nat, key: Key, slot: Slot<Word>)
    requires Wrote(objects, next, o, key, slot) && i < |objects| && Heir(objects, i, o, key)
    ensures Nearest(next, i, key) == Some(slot)
    decreases i
  {
    if i != o { HeirSees(objects, next, objects[i].proto.value, o, key, slot); }
  }

  lemma {:induction false} StillNoneHidden(objects: seq<Object>, next: seq<Object>, o: nat, key: Key, slot: Slot<Word>, i: nat)
    requires Wrote(objects, next, o, key, slot) && i < |objects| && NoneHidden(objects, i, key)
    ensures NoneHidden(next, i, key)
    decreases i
  {
    var x := objects[i];
    if x.proto.Some? && x.proto.value < i { StillNoneHidden(objects, next, o, key, slot, x.proto.value); }
  }

  /** An accessor defined on an object: of it and of every heir, at any depth, a write runs the setter, or is a
      TypeError without one, and changes nothing; a read runs the getter, or answers undefined without one. */
  lemma AccessorRuns(objects: seq<Object>, o: nat, key: Key, g: Option<Word>, s: Option<Word>, i: nat, v: Word, beyond: Outcome<Word>)
    requires Made(objects) && o < |objects| && i < |objects| && Heir(objects, i, o, key) && NoneHidden(objects, i, key)
    requires !objects[o].frozen && !objects[i].frozen && !(objects[i].isArray && key == LENGTH) && !(objects[o].isArray && key == LENGTH)
    ensures var next := Step(objects, Define(o, key, g, s)).0;
      && Step(next, Set(i, key, v)) == (next, Done(if s.Some? then Runs(s.value) else OnlyGetter))
      && Step(next, Get(i, key, beyond)) == (next, Done(if g.Some? then Runs(g.value) else NoValue))
  {
    hide Step, Made;
    DefineMeans(objects, o, key, g, s);
    DefineFits(objects, o, key, g, s);
    var next := Step(objects, Define(o, key, g, s)).0;
    HeirSees(objects, next, i, o, key, Accessor(g, s));
    StillNoneHidden(objects, next, o, key, Accessor(g, s), i);
    SetMeans(next, i, key, v);
    GetMeans(next, i, key, beyond);
  }

  lemma DefineFits(objects: seq<Object>, o: nat, key: Key, g: Option<Word>, s: Option<Word>)
    requires Made(objects) && o < |objects|
    ensures Made(Step(objects, Define(o, key, g, s)).0)
  {
    StaysMade(objects, Define(o, key, g, s));
  }
}

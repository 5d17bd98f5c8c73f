/** Walks over a Map or Set whose body inserts and deletes (jsrt_map.c, forEach and for-of). While
    one is in progress the entries change exactly as `PutEntry` and `KillEntry` say
    (MapRuntime.JSMap.Put, Delete and IterStep), so a walk is a cursor over that history. */
module MapWalk {
  import opened MapModel
  import opened MapTable
  import opened MapRuntime

  /** What happens between two looks at the cursor, in any order and number: the body of this walk or
      of any other sets and deletes keys or clears, and this walk steps. */
  datatype Event = SetKey(key: Value, value: Value) | DeleteKey(key: Value) | ClearAll | Advance

  /** The entries, the cursor, the numbers of the entries seen and what they held when they were. */
  datatype Walk = Walk(es: seq<Entry>, at: nat, seen: seq<nat>, shown: seq<Pair>)

  function Step(w: Walk, e: Event): Walk {
    match e
    case SetKey(k, v) => w.(es := PutEntry(w.es, k, v))
    case DeleteKey(k) => w.(es := KillEntry(w.es, k))
    case ClearAll => w.(es := [])
    case Advance =>
      var (found, next) := Visit(w.es, w.at);
      if found then
        Walk(w.es, next, w.seen + [next - 1], w.shown + [Pair(w.es[next - 1].key, w.es[next - 1].value)])
      else w.(at := next)
  }

  function Run(w: Walk, events: seq<Event>): Walk {
    if events == [] then w else Step(Run(w, events[..|events| - 1]), events[|events| - 1])
  }

  function Start(es: seq<Entry>): Walk { Walk(es, 0, [], []) }

  predicate NoClear(events: seq<Event>) { ClearAll !in events }

  /** Where the cursor stood, and how many entries were seen, at the last clear, or to begin with. */
  function LastClear(w: Walk, events: seq<Event>): (nat, nat) {
    if events == [] then (w.at, |w.seen|)
    else
      var before := events[..|events| - 1];
      if events[|events| - 1].ClearAll? then (Run(w, before).at, |Run(w, before).seen|) else LastClear(w, before)
  }

  lemma {:induction false} NothingCleared(w: Walk, events: seq<Event>)
    requires NoClear(events)
    ensures LastClear(w, events) == (w.at, |w.seen|)
  {
    if events != [] { NothingCleared(w, events[..|events| - 1]); }
  }

  /** No entry is renumbered: it keeps its key while it lives, and a dead one stays dead. */
  ghost predicate Stable(before: seq<Entry>, after: seq<Entry>) {
    && |before| <= |after|
    && forall i :: 0 <= i < |before| && after[i].live ==> before[i].live && after[i].key == before[i].key
  }

  /** Of the entries numbered from `c`, every one passed is either among those seen after the first `s`, once
      and in order, or dead; an entry with a smaller number is not. */
  ghost predicate Exact(w: Walk, c: nat, s: nat) {
    && c <= w.at && w.at <= (if |w.es| < c then c else |w.es|) && s <= |w.seen|
    && (forall i, j :: s <= i < j < |w.seen| ==> w.seen[i] < w.seen[j])
    && (forall i :: s <= i < |w.seen| ==> c <= w.seen[i] < w.at)
    && (forall k :: c <= k < w.at && k < |w.es| && w.es[k].live ==> k in w.seen[s..])
  }

  /** Since the last clear a walk is exact from where it stood then; without one, from the beginning. */
  lemma {:induction false} WalkIsExact(w: Walk, events: seq<Event>)
    ensures var (c, s) := LastClear(w, events); Exact(Run(w, events), c, s)
    ensures NoClear(events) ==> LastClear(w, events) == (w.at, |w.seen|) && Stable(w.es, Run(w, events).es)
  {
    if events != [] {
      var before := events[..|events| - 1];
      var (c, s) := LastClear(w, before);
      WalkIsExact(w, before);
      if !events[|events| - 1].ClearAll? { StepExact(Run(w, before), c, s, events[|events| - 1]); }
      if NoClear(events) { NothingCleared(w, events); }
    }
  }

  lemma StepExact(w: Walk, c: nat, s: nat, e: Event)
    requires Exact(w, c, s) && !e.ClearAll?
    ensures Exact(Step(w, e), c, s) && Stable(w.es, Step(w, e).es)
  {
    var next := Step(w, e);
    if e.Advance? {
      var (found, at) := Visit(w.es, w.at);
      assert found ==> next.seen[s..] == w.seen[s..] + [at - 1];
      forall k | c <= k < next.at && k < |next.es| && next.es[k].live ensures k in next.seen[s..] {
        if k < w.at { assert k in w.seen[s..]; }
      }
    }
  }

  /** A step answers the first entry, at or after the cursor, that is live when it looks; with the
      lemma above, a walk sees exactly the entries that are live when the cursor reaches them,
      appended ones included. */
  lemma AdvanceSeesNextLive(w: Walk)
    ensures var next := Step(w, Advance);
      if exists k :: w.at <= k < |w.es| && w.es[k].live
      then
        var k := next.at - 1;
        && w.at <= k < |w.es| && w.es[k].live
        && next.seen == w.seen + [k] && next.shown == w.shown + [Pair(w.es[k].key, w.es[k].value)]
        && forall j :: w.at <= j < k ==> !w.es[j].live
      else next.seen == w.seen && next.shown == w.shown && next.at >= |w.es|
  {
  }

  /** The next step finds nothing. */
  predicate Over(w: Walk) { !Visit(w.es, w.at).0 }

  /** All that lives is among what was seen after the first `s`. */
  ghost predicate SawAll(w: Walk, s: nat)
    requires s <= |w.seen|
  {
    forall k :: 0 <= k < |w.es| && w.es[k].live ==> k in w.seen[s..]
  }

  /** Every live entry has been seen, in insertion order, when the walk is over. */
  lemma FinishedSawAll(es: seq<Entry>, events: seq<Event>)
    requires NoClear(events) && Over(Run(Start(es), events))
    ensures SawAll(Run(Start(es), events), 0)
  {
    WalkIsExact(Start(es), events);
  }

  /** `clear` restarts entry numbers at 0 and leaves the cursor where it is, at `c`. Whatever happens then,
      the walk ends without the entries numbered below `c`: it has missed something exactly when one of
      them lives. */
  lemma FinishedAfterClear(w: Walk, events: seq<Event>)
    requires Over(Run(w, events))
    ensures var (c, s) := LastClear(w, events); var u := Run(w, events);
      s <= |u.seen| && (SawAll(u, s) <==> forall k :: 0 <= k < c && k < |u.es| ==> !u.es[k].live)
  {
    var (c, s) := LastClear(w, events);
    var u := Run(w, events);
    WalkIsExact(w, events);
    if k :| 0 <= k < c && k < |u.es| && u.es[k].live {
      assert forall i :: s <= i < |u.seen| ==> u.seen[i] != k;
      assert k !in u.seen[s..];
    }
  }

  /** So a `clear` under a walk is harmless, whatever follows, exactly when the cursor has not moved. */
  lemma ClearIsSafe(w: Walk)
    ensures w.at == 0 <==> forall events :: NoClear(events) ==>
      var u := Run(Step(w, ClearAll), events); Over(u) ==> |w.seen| <= |u.seen| && SawAll(u, |w.seen|)
  {
    var cleared := Step(w, ClearAll);
    if w.at == 0 {
      forall events | NoClear(events) && Over(Run(cleared, events))
        ensures |w.seen| <= |Run(cleared, events).seen| && SawAll(Run(cleared, events), |w.seen|)
      {
        NothingCleared(cleared, events);
        FinishedAfterClear(cleared, events);
      }
    } else {
      ClearSkips(w, Undefined);
    }
  }

  /** One insertion after the clear is enough. */
  lemma ClearSkips(w: Walk, key: Value)
    requires w.at > 0
    ensures var events := [SetKey(key, key)]; var u := Run(Step(w, ClearAll), events);
      NoClear(events) && Over(u) && u.seen == w.seen && !SawAll(u, |w.seen|)
  {
    var cleared := Step(w, ClearAll);
    RunOne(cleared, SetKey(key, key));
    var u := Step(cleared, SetKey(key, key));
    assert u == w.(es := [Entry(Normalized(key), key, true)]);
    assert u.es[0].live;
  }

  // ---------------------------------------------------------------- forEach

  datatype Op = DoSet(key: Value, value: Value) | DoDelete(key: Value) | DoClear

  /** What one call of the callback does to the collection, and whether it then throws. */
  datatype Body = Body(ops: seq<Op>, threw: bool)

  /** What an operation changes; a weak collection refuses a key that is no object. */
  function EventsOf(kind: Kind, op: Op): seq<Event> {
    match op
    case DoSet(k, v) => if IsWeak(kind) && !IsObject(k) then [] else [SetKey(k, v)]
    case DoDelete(k) => [DeleteKey(k)]
    case DoClear => [ClearAll]
  }

  function EventsOfAll(kind: Kind, ops: seq<Op>): seq<Event> {
    if ops == [] then [] else EventsOfAll(kind, ops[..|ops| - 1]) + EventsOf(kind, ops[|ops| - 1])
  }

  /** Calls of the callback: a step before each, then what it does. */
  function EventsOfCalls(kind: Kind, bodies: seq<Body>): seq<Event> {
    if bodies == [] then []
    else EventsOfCalls(kind, bodies[..|bodies| - 1]) + ([Advance] + EventsOfAll(kind, bodies[|bodies| - 1].ops))
  }

  method Perform(m: JSMap, op: Op)
    requires m.Valid() && m.iterating > 0
    modifies m, m.entries, m.index
    ensures m.Valid() && m.iterating == old(m.iterating)
    ensures m.entries == old(m.entries) || fresh(m.entries)
    ensures m.index == old(m.index) || fresh(m.index)
    ensures forall w: Walk :: w.es == old(m.Es()) ==> Run(w, EventsOf(m.kind, op)) == w.(es := m.Es())
  {
    hide Indexed, DistinctLive, Live, Excess;
    match op
    case DoSet(k, v) =>
      var threw := m.Put(k, v);
      assert [SetKey(k, v)][..0] == [];
    case DoDelete(k) =>
      var _ := m.Delete(k);
      assert [DeleteKey(k)][..0] == [];
    case DoClear =>
      m.Clear();
      assert [ClearAll][..0] == [];
  }

  method PerformAll(m: JSMap, ops: seq<Op>)
    requires m.Valid() && m.iterating > 0
    modifies m, m.entries, m.index
    ensures m.Valid() && m.iterating == old(m.iterating)
    ensures m.entries == old(m.entries) || fresh(m.entries)
    ensures m.index == old(m.index) || fresh(m.index)
    ensures forall w: Walk :: w.es == old(m.Es()) ==> Run(w, EventsOfAll(m.kind, ops)) == w.(es := m.Es())
  {
    hide Indexed, DistinctLive, Live, Excess, EventsOf, Step;
    for i := 0 to |ops|
      invariant m.Valid() && m.iterating == old(m.iterating)
      invariant m.entries == old(m.entries) || fresh(m.entries)
      invariant m.index == old(m.index) || fresh(m.index)
      invariant forall w: Walk :: w.es == old(m.Es()) ==> Run(w, EventsOfAll(m.kind, ops[..i])) == w.(es := m.Es())
    {
      ghost var before := m.Es();
      Perform(m, ops[i]);
      assert ops[..i + 1][..i] == ops[..i];
      forall w: Walk | w.es == old(m.Es()) ensures Run(w, EventsOfAll(m.kind, ops[..i + 1])) == w.(es := m.Es()) {
        RunConcat(w, EventsOfAll(m.kind, ops[..i]), EventsOf(m.kind, ops[i]));
      }
    }
    assert ops[..|ops|] == ops;
  }

  lemma {:induction false} RunConcat(w: Walk, es: seq<Event>, fs: seq<Event>)
    ensures Run(w, es + fs) == Run(Run(w, es), fs)
  {
    if fs == [] {
      assert es + fs == es;
    } else {
      var n := |fs| - 1;
      assert (es + fs)[..|es + fs| - 1] == es + fs[..n];
      RunConcat(w, es, fs[..n]);
    }
  }

  lemma RunOne(w: Walk, e: Event)
    ensures Run(w, [e]) == Step(w, e)
  {
    hide Step;
    assert [e][..0] == [];
  }

  /** One more call: a step, then what the callback does. */
  lemma CallNext(kind: Kind, bodies: seq<Body>, i: nat, start: Walk, w: Walk, after: Walk)
    requires i < |bodies| && Run(start, EventsOfCalls(kind, bodies[..i])) == w
    requires Run(Step(w, Advance), EventsOfAll(kind, bodies[i].ops)) == after
    ensures Run(start, EventsOfCalls(kind, bodies[..i + 1])) == after
  {
    hide Step, EventsOfAll;
    assert bodies[..i + 1][..i] == bodies[..i];
    RunOne(w, Advance);
    RunConcat(w, [Advance], EventsOfAll(kind, bodies[i].ops));
    RunConcat(start, EventsOfCalls(kind, bodies[..i]), [Advance] + EventsOfAll(kind, bodies[i].ops));
  }

  /** What a walk of these calls comes to: `last` tells that a step found nothing after them. */
  function Walked(kind: Kind, es: seq<Entry>, bodies: seq<Body>, last: bool): Walk {
    Run(Start(es), EventsOfCalls(kind, bodies) + if last then [Advance] else [])
  }

  /** `forEach` over callbacks that do what `bodies` says, call by call; it ends early if one throws, or
      when `bodies` runs out (a callback that always inserts never lets the walk end). */
  method ForEach(m: JSMap, bodies: seq<Body>) returns (seen: seq<nat>, shown: seq<Pair>, calls: nat, finished: bool)
    requires m.Valid()
    modifies m, m.entries, m.index
    ensures m.Valid() && m.iterating == old(m.iterating)
    ensures calls <= |bodies| && calls == |seen| == |shown|
    ensures var w := Walked(m.kind, old(m.Es()), bodies[..calls], finished);
      w.es == m.Es() && w.seen == seen && w.shown == shown && (finished ==> Over(w))
    ensures finished || calls == |bodies| || (calls > 0 && bodies[calls - 1].threw)
    ensures forall i :: 0 <= i < calls && bodies[i].threw ==> i == calls - 1 && !finished
  {
    hide Indexed, DistinctLive, Live, Excess, Run, Step, EventsOfCalls, EventsOfAll;
    m.IterBegin();
    ghost var w := Start(m.Es());
    NoCalls(m.kind, bodies, w);
    seen, shown, calls, finished := [], [], 0, false;
    var at: nat, pending := 0, false;
    while !pending && !finished && calls < |bodies|
      invariant m.Valid() && m.iterating == old(m.iterating) + 1 && calls <= |bodies| && calls == |seen| == |shown|
      invariant m.entries == old(m.entries) || fresh(m.entries)
      invariant m.index == old(m.index) || fresh(m.index)
      invariant Run(Start(old(m.Es())), EventsOfCalls(m.kind, bodies[..calls])) == w
      invariant if finished then Over(w) && m.Es() == w.es && seen == w.seen && shown == w.shown
                else w == Walk(m.Es(), at, seen, shown)
      invariant pending ==> calls > 0 && bodies[calls - 1].threw && !finished
      invariant forall i :: 0 <= i < calls && bodies[i].threw ==> i == calls - 1 && pending
      decreases |bodies| - calls, !finished
    {
      var found, next, key, value := m.IterStep(at);
      Advanced(w);
      at := next;
      if found {
        ghost var stepped := Step(w, Advance);
        seen, shown := seen + [next - 1], shown + [Pair(key, value)];
        PerformAll(m, bodies[calls].ops);
        CallNext(m.kind, bodies, calls, Start(old(m.Es())), w, stepped.(es := m.Es()));
        w := stepped.(es := m.Es());
        pending := bodies[calls].threw;
        calls := calls + 1;
      } else {
        finished := true;
      }
    }
    m.IterEnd();
    LastStep(m.kind, old(m.Es()), bodies[..calls], w, finished);
  }

  lemma NoCalls(kind: Kind, bodies: seq<Body>, w: Walk)
    ensures Run(w, EventsOfCalls(kind, bodies[..0])) == w
  {
  }

  lemma Advanced(w: Walk)
    ensures var (found, next) := Visit(w.es, w.at);
      Step(w, Advance) ==
        if found then Walk(w.es, next, w.seen + [next - 1], w.shown + [Pair(w.es[next - 1].key, w.es[next - 1].value)])
        else w.(at := next)
  {
  }

  lemma LastStep(kind: Kind, es: seq<Entry>, bodies: seq<Body>, w: Walk, last: bool)
    requires Run(Start(es), EventsOfCalls(kind, bodies)) == w && (last ==> Over(w))
    ensures var u := Walked(kind, es, bodies, last);
      u.es == w.es && u.seen == w.seen && u.shown == w.shown && (last ==> Over(u))
  {
    hide EventsOfCalls;
    var events := EventsOfCalls(kind, bodies);
    if last {
      RunConcat(Start(es), events, [Advance]);
      RunOne(w, Advance);
    } else {
      assert events + [] == events;
    }
  }
}

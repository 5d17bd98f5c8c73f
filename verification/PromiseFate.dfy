/** Every promise that then, finally or Promise.all hands out is resolved by its own reaction, once, with
    what that reaction answered. */
module PromiseFate {
  import opened Options
  import opened PromiseModel
  import opened PromiseInvariant
  import opened PromiseSteps
  import opened PromiseRun
  import opened PromiseOutcome

  // ---------------------------------------------------------------- the invariant

  /** While a promise is unresolved, the reaction that is to resolve it is registered or queued, once;
      afterwards it is not. `open` holds the reactions now running, or not yet subscribed. */
  ghost predicate Pays(s: State, p: Id, open: set<Reaction>)
    requires p < |s.cells|
  {
    var c := s.cells[p];
    c.owner.Owed? ==>
      var on := c.owner.on;
      && Resolves(on) && on.derived == p
      && Outstanding(s, on) == (if c.resolved || on in open then 0 else 1)
      && (on in open ==> !c.resolved)
  }

  /** The first rejection among the deliveries to a Promise.all. */
  function FirstRejection(ts: seq<Task>, a: Id): Option<Value> {
    if ts == [] then None
    else
      var before := FirstRejection(ts[..|ts| - 1], a);
      var t := ts[|ts| - 1];
      if before.None? && t.on.AllElement? && t.on.all == a && t.rejected then Some(t.value) else before
  }

  /** A combined promise is rejected by the first rejection delivered, or fulfilled with the results by
      the last element, or not resolved yet. */
  ghost predicate AllFate(s: State, a: Id)
    requires a < |s.alls|
  {
    var all := s.alls[a];
    && all.promise < |s.cells| && s.cells[all.promise].owner == Combined(a)
    && match FirstRejection(s.log, a)
       case Some(v) => s.cells[all.promise].status == Rejected && s.cells[all.promise].value == v
       case None => AllUndecided(s, a)
  }

  ghost predicate Fated(s: State, open: set<Reaction>) {
    && (forall p :: 0 <= p < |s.cells| ==> Pays(s, p, open))
    && (forall a :: 0 <= a < |s.alls| ==> AllFate(s, a))
  }

  // ---------------------------------------------------------------- the primitives

  lemma MakeFated(s: State, io: set<Reaction>, open: set<Reaction>, owner: Owner)
    requires InvExcept(s, io) && Fated(s, open)
    requires owner.Owed? ==> Resolves(owner.on) && owner.on.derived == |s.cells|
    ensures Fated(NewPromise(s, owner), if owner.Owed? then open + {owner.on} else open)
  {
    var r := NewPromise(s, owner);
    var open' := if owner.Owed? then open + {owner.on} else open;
    forall p | 0 <= p < |r.cells| ensures Pays(r, p, open') {
      if r.cells[p].owner.Owed? {
        OutstandingMake(s, owner, r.cells[p].owner.on);
        if p < |s.cells| {
          assert Pays(s, p, open);
        } else if Outstanding(s, owner.on) > 0 {
          OutstandingNamed(s, io, owner.on);
        }
      }
    }
    forall a | 0 <= a < |s.alls| ensures AllFate(r, a) { assert AllFate(s, a); }
  }

  lemma SubscribeFated(s: State, io: set<Reaction>, open: set<Reaction>, q: Id, on: Reaction)
    requires InvExcept(s, io) && Fated(s, open) && q < |s.cells|
    requires Resolves(on) ==> on in open && on.derived < |s.cells| && s.cells[on.derived].owner == Owed(q, on)
    ensures Fated(Subscribe(s, q, on), open - {on})
  {
    var r := Subscribe(s, q, on);
    assert CellOk(s, q);
    forall p | 0 <= p < |r.cells| ensures Pays(r, p, open - {on}) {
      assert Pays(s, p, open);
      if r.cells[p].owner.Owed? { OutstandingSubscribe(s, q, on, r.cells[p].owner.on); }
    }
    forall a | 0 <= a < |s.alls| ensures AllFate(r, a) { assert AllFate(s, a); }
  }

  /** Settling never touches a reaction that is to resolve a promise. */
  lemma OutstandingSettle(s: State, io: set<Reaction>, p: Id, v: Value, rejected: bool, on: Reaction)
    requires InvExcept(s, io) && p < |s.cells| && Resolves(on)
    ensures Outstanding(Settle(s, p, v, rejected), on) == Outstanding(s, on)
  {
    if !s.cells[p].resolved {
      assert CellOk(s, p);
      var adopted := if !rejected && v.PromiseRef? && v.id != p then Some(v.id) else None;
      var s1 := MarkResolved(s, p, adopted);
      OutstandingMark(s, p, adopted, on);
      if adopted.Some? {
        OutstandingJob(s1, Task(AdoptSubscribe(p), v, false, None), on);
      } else {
        var w := if !rejected && v.PromiseRef? then CycleError else v;
        SettleNowShape(s1, p, w, rejected || v.PromiseRef?);
      }
    }
  }

  lemma OutstandingMark(s: State, p: Id, adopting: Option<Id>, on: Reaction)
    requires p < |s.cells|
    ensures Outstanding(MarkResolved(s, p, adopting), on) == Outstanding(s, on)
  {
    WaitingUpdate(on, s.cells, p, s.cells[p].(resolved := true, adopting := adopting));
  }

  lemma OutstandingJob(s: State, t: Task, on: Reaction)
    requires t.on != on
    ensures Outstanding(Enqueue(s, t), on) == Outstanding(s, on)
  {
    ReactionsConcat(on, s.queue, [t]);
    assert Reactions([t]) == [t.on];
  }

  ghost function Shut(s: State, p: Id, open: set<Reaction>): set<Reaction>
    requires p < |s.cells|
  {
    if s.cells[p].owner.Owed? then open - {s.cells[p].owner.on} else open
  }

  lemma SettleFated(s: State, io: set<Reaction>, open: set<Reaction>, p: Id, v: Value, rejected: bool)
    requires InvExcept(s, io) && Fated(s, open) && p < |s.cells| && !s.cells[p].owner.Combined?
    requires s.cells[p].owner.Owed? ==> s.cells[p].owner.on in open
    ensures Fated(Settle(s, p, v, rejected), Shut(s, p, open))
  {
    var r := Settle(s, p, v, rejected);
    OutsideSettle(s, p, v, rejected);
    forall q | 0 <= q < |r.cells| ensures Pays(r, q, Shut(s, p, open)) {
      assert Pays(s, q, open) && Pays(s, p, open);
      if r.cells[q].owner.Owed? { OutstandingSettle(s, io, p, v, rejected, r.cells[q].owner.on); }
      if q != p { assert Untouched(s.cells[q], r.cells[q]); }
    }
    forall a | 0 <= a < |s.alls| ensures AllFate(r, a) { assert AllFate(s, a); }
  }

  lemma ResolveFated(s: State, io: set<Reaction>, open: set<Reaction>, v: Value)
    requires InvExcept(s, io) && Fated(s, open) && ValidValue(s, v)
    ensures Fated(Resolve(s, v).0, open)
  {
    if !v.PromiseRef? {
      MakeKeeps(s, io, Program);
      MakeFated(s, io, open, Program);
      SettleFated(NewPromise(s, Program), io, open, |s.cells|, v, false);
    }
  }

  // ---------------------------------------------------------------- commands

  /** The program settles only a promise whose resolving functions it was given. */
  ghost predicate FairCommand(s: State, c: Command) {
    c.Put? && c.p < |s.cells| ==> s.cells[c.p].owner == Program
  }

  ghost predicate Fair(s: State, cs: seq<Command>)
    decreases cs
  {
    cs != [] ==> FairCommand(s, cs[0]) && Fair(Exec(s, cs[0]), cs[1..])
  }

  lemma HandOutFated(s: State, open: set<Reaction>, q: Id, on: Reaction)
    requires Inv(s) && Fated(s, open) && q < |s.cells| && Resolves(on) && on.derived == |s.cells| && on !in open
    ensures Fated(Subscribe(NewPromise(s, Owed(q, on)), q, on), open)
  {
    MakeKeeps(s, {}, Owed(q, on));
    MakeFated(s, {}, open, Owed(q, on));
    SubscribeFated(NewPromise(s, Owed(q, on)), {}, open + {on}, q, on);
    assert open + {on} - {on} == open;
  }

  /** The promises named in `open` exist. */
  ghost predicate OpenNamed(s: State, open: set<Reaction>) {
    forall on :: on in open ==> Resolves(on) && on.derived < |s.cells|
  }

  lemma AnswerFated(s: State, open: set<Reaction>, v: Value, on: Reaction)
    requires Inv(s) && Fated(s, open) && ValidValue(s, v)
    requires Resolves(on) ==> on in open && on.derived < |s.cells| && s.cells[on.derived].owner == Owed(Resolve(s, v).1, on)
    ensures var (s1, e) := Resolve(s, v); Fated(Subscribe(s1, e, on), open - {on})
  {
    var (s1, e) := Resolve(s, v);
    ResolveKeeps(s, {}, v);
    ResolveFated(s, {}, open, v);
    SubscribeFated(s1, {}, open, e, on);
  }

  lemma NoneRejected(s: State, ts: seq<Task>, a: Id)
    requires TasksOk(s, ts) && a >= |s.alls|
    ensures FirstRejection(ts, a) == None
  {
    if ts != [] {
      NoneRejected(s, ts[..|ts| - 1], a);
      assert TaskOk(s, ts[|ts| - 1]);
    }
  }

  lemma AllNewFated(s: State, open: set<Reaction>, n: nat)
    requires Inv(s) && Fated(s, open) && n > 0
    ensures Fated(AllNew(s, n), open)
  {
    var s1 := NewCombined(s);
    var r := AllNew(s, n);
    MakeFated(s, {}, open, Combined(|s.alls|));
    NoneLogged(s, |s.alls|);
    forall p | 0 <= p < |r.cells| ensures Pays(r, p, open) {
      assert Pays(s1, p, open);
      if r.cells[p].owner.Owed? { assert Outstanding(r, r.cells[p].owner.on) == Outstanding(s1, r.cells[p].owner.on); }
    }
    forall a | 0 <= a < |r.alls| ensures AllFate(r, a) {
      if a < |s.alls| { assert AllFate(s1, a); }
    }
  }

  lemma NoneLogged(s: State, a: Id)
    requires Inv(s) && a >= |s.alls|
    ensures FirstRejection(s.log, a) == None
  {
    assert forall i :: 0 <= i < |s.log| ==> s.log[i] == Tasks(s)[i];
    NoneRejected(s, s.log, a);
  }

  lemma EmptyAllFated(s: State, open: set<Reaction>)
    requires Inv(s) && Fated(s, open)
    ensures Fated(PromiseAll(s, []), open)
  {
    var s1 := NewCombined(s);
    var r := PromiseAll(s, []);
    AllNewKeeps(s, 0);
    MakeFated(s, {}, open, Combined(|s.alls|));
    NoneLogged(s, |s.alls|);
    forall p | 0 <= p < |r.cells| ensures Pays(r, p, open) {
      assert Pays(s1, p, open);
      if r.cells[p].owner.Owed? {
        var on := r.cells[p].owner.on;
        OutstandingSettle(AllNew(s, 0), Empty(s, 0), |s.cells|, Results(|s.alls|), false, on);
        assert Outstanding(AllNew(s, 0), on) == Outstanding(s1, on);
      }
    }
    forall a | 0 <= a < |r.alls| ensures AllFate(r, a) {
      if a < |s.alls| { assert AllFate(s1, a); }
    }
  }

  lemma NoteFated(s: State, open: set<Reaction>, a: Id, e: Id)
    requires Fated(s, open) && a < |s.alls|
    ensures Fated(NoteElement(s, a, e), open)
  {
    var r := NoteElement(s, a, e);
    forall p | 0 <= p < |r.cells| ensures Pays(r, p, open) {
      assert Pays(s, p, open);
      if r.cells[p].owner.Owed? { assert Outstanding(r, r.cells[p].owner.on) == Outstanding(s, r.cells[p].owner.on); }
    }
    forall b | 0 <= b < |r.alls| ensures AllFate(r, b) { assert AllFate(s, b); }
  }

  lemma {:induction false} ElementsFated(s: State, open: set<Reaction>, a: Id, values: seq<Value>, i: nat)
    requires Inv(s) && Fated(s, open) && OpenNamed(s, open)
    requires a < |s.alls| && i == |s.alls[a].elements| <= |values| == |s.alls[a].done| && ValidValues(s, values)
    ensures Fated(SubscribeElements(s, a, values, i), open)
    decreases |values| - i
  {
    hide InvExcept, Later, Fated;
    if i < |values| {
      var on := AllElement(a, i);
      var (s1, e) := Resolve(s, values[i]);
      ResolveKeeps(s, {}, values[i]);
      ResolveFated(s, {}, open, values[i]);
      NoteElementKeeps(s1, a, e, i);
      NoteFated(s1, open, a, e);
      var s2 := NoteElement(s1, a, e);
      SubscribeKeeps(s2, {on}, e, on);
      SubscribeFated(s2, {on}, open, e, on);
      assert {on} - {on} == {};
      assert open - {on} == open;
      ElementsFated(Subscribe(s2, e, on), open, a, values, i + 1);
    }
  }

  lemma AllFated(s: State, open: set<Reaction>, values: seq<Value>)
    requires Inv(s) && Fated(s, open) && OpenNamed(s, open) && ValidValues(s, values)
    ensures Fated(PromiseAll(s, values), open)
  {
    if values == [] {
      EmptyAllFated(s, open);
    } else {
      AllNewKeeps(s, |values|);
      AllNewFated(s, open, |values|);
      ElementsFated(AllNew(s, |values|), open, |s.alls|, values, 0);
    }
  }

  lemma ExecFated(s: State, open: set<Reaction>, c: Command)
    requires Inv(s) && Fated(s, open) && OpenNamed(s, open) && FairCommand(s, c)
    ensures Fated(Exec(s, c), open)
  {
    if Sensible(s, c) {
      match c
      case Make => MakeFated(s, {}, open, Program);
      case Put(p, v, rejected) => SettleFated(s, {}, open, p, v, rejected);
      case ResolveValue(v) => ResolveFated(s, {}, open, v);
      case RejectValue(v) =>
        MakeKeeps(s, {}, Program);
        MakeFated(s, {}, open, Program);
        SettleFated(NewPromise(s, Program), {}, open, |s.cells|, v, true);
      case CallThen(p, f, g) => HandOutFated(s, open, p, ThenReact(|s.cells|, f, g));
      case CallFinally(p, f) => HandOutFated(s, open, p, FinallyReact(|s.cells|, f));
      case CallAll(values) => AllFated(s, open, values);
      case CallAwait(frame, v) =>
        AnswerFated(s, open, v, AsyncResume(frame));
        assert open - {AsyncResume(frame)} == open;
    }
  }

  lemma {:induction false} ExecAllFated(s: State, open: set<Reaction>, cs: seq<Command>)
    requires Inv(s) && Fated(s, open) && OpenNamed(s, open) && Fair(s, cs)
    ensures Fated(ExecAll(s, cs), open)
    decreases cs
  {
    hide InvExcept, Later, Fated;
    if cs != [] {
      ExecFated(s, open, cs[0]);
      ExecKeeps(s, cs[0]);
      ExecAllFated(Exec(s, cs[0]), open, cs[1..]);
    }
  }

  // ---------------------------------------------------------------- reactions

  /** Does the task call a function of the program? */
  predicate Called(t: Task) {
    match t.on
    case ThenReact(_, f, g) => (if t.rejected then g else f).Callable?
    case FinallyReact(_, f) => f.Callable?
    case AsyncResume(_) => true
    case _ => false
  }

  ghost predicate FairTurn(s: State, turn: Turn)
    requires s.queue != []
  {
    Called(s.queue[0]) ==> Fair(Pop(s), turn.commands)
  }

  ghost function Owing(on: Reaction): set<Reaction> { if Resolves(on) then {on} else {} }

  lemma RejectionNext(ts: seq<Task>, t: Task, a: Id)
    ensures FirstRejection(ts + [t], a) ==
      if FirstRejection(ts, a).None? && t.on.AllElement? && t.on.all == a && t.rejected then Some(t.value) else FirstRejection(ts, a)
  {
    assert (ts + [t])[..|ts|] == ts;
  }

  /** The promise a running reaction is to resolve is still unresolved, and nobody else's. */
  lemma HeadOwes(s: State)
    requires Inv(s) && Fated(s, {}) && s.queue != [] && Resolves(s.queue[0].on)
    ensures var on := s.queue[0].on;
      && s.queue[0].source.Some? && on.derived < |s.cells| && !s.cells[on.derived].resolved
      && s.cells[on.derived].owner == Owed(s.queue[0].source.value, on)
  {
    HeadOk(s);
    assert Pays(s, s.queue[0].on.derived, {});
  }

  lemma PopPays(s: State, p: Id)
    requires Inv(s) && Fated(s, {}) && s.queue != [] && p < |s.cells|
    ensures Pays(Pop(s), p, Owing(s.queue[0].on))
  {
    assert Pays(s, p, {});
    if s.cells[p].owner.Owed? {
      OutstandingPop(s, s.cells[p].owner.on);
      if s.cells[p].owner.on == s.queue[0].on { HeadOwes(s); }
    }
  }

  lemma PopFated(s: State)
    requires Inv(s) && Fated(s, {}) && s.queue != [] && !s.queue[0].on.AllElement?
    ensures Fated(Pop(s), Owing(s.queue[0].on)) && OpenNamed(s, Owing(s.queue[0].on))
  {
    forall p | 0 <= p < |s.cells| ensures Pays(Pop(s), p, Owing(s.queue[0].on)) { PopPays(s, p); }
    forall a | 0 <= a < |s.alls| ensures AllFate(Pop(s), a) {
      assert AllFate(s, a);
      RejectionNext(s.log, s.queue[0], a);
    }
    if Resolves(s.queue[0].on) { HeadOwes(s); }
  }

  /** An element whose rejection was delivered is never recorded as done. */
  lemma RejectedStays(s: State, ts: seq<Task>, a: Id) returns (j: nat)
    requires CellsOk(s) && AllsOk(s, {}) && TasksOk(s, ts) && a < |s.alls| && FirstRejection(ts, a).Some?
    ensures j < |s.alls[a].elements| && j < |s.alls[a].done| && !s.alls[a].done[j]
    ensures SettledAs(s, s.alls[a].elements[j], Rejected)
  {
    var n := |ts| - 1;
    if FirstRejection(ts[..n], a).Some? {
      j := RejectedStays(s, ts[..n], a);
    } else {
      j := ts[n].on.index;
      assert TaskOk(s, ts[n]);
      assert AllOk(s, a, {}) && ElementOk(s, a, j, {});
    }
  }

  lemma AdoptFated(s: State)
    requires Inv(s) && Fated(s, {}) && s.queue != [] && s.queue[0].on.Adopt? && s.queue[0].on.outer < |s.cells|
    ensures var t := s.queue[0]; Fated(SettleNow(Pop(s), t.on.outer, t.value, t.rejected), {})
  {
    var t := s.queue[0];
    var s1 := Pop(s);
    var o := t.on.outer;
    HeadOk(s);
    assert TokenOk(s, o, {});
    PopFated(s);
    SettleNowShape(s1, o, t.value, t.rejected);
    var r := SettleNow(s1, o, t.value, t.rejected);
    forall p | 0 <= p < |r.cells| ensures Pays(r, p, {}) { assert Pays(s1, p, {}); }
    forall a | 0 <= a < |r.alls| ensures AllFate(r, a) { assert AllFate(s1, a); }
  }

  /** The state in which a delivery to Promise.all is about to be handled. */
  ghost predicate AtElement(s: State, a: Id, i: nat, q: Id) {
    && Inv(s) && Fated(s, {}) && s.queue != [] && s.queue[0].on == AllElement(a, i) && s.queue[0].source == Some(q)
    && ReactionFits(s, q, AllElement(a, i)) && Settled(s, q) && i < |s.alls[a].done| && !s.alls[a].done[i]
    && s.queue[0].value == s.cells[q].value && s.queue[0].rejected == (s.cells[q].status == Rejected)
  }

  ghost function AfterElement(s: State, a: Id, i: nat, q: Id): State
    requires AtElement(s, a, i, q)
  {
    AllElementReact(Pop(s), a, i, s.cells[q].value, s.cells[q].status == Rejected)
  }

  lemma ElementFated(s: State, turn: Turn)
    requires Inv(s) && Fated(s, {}) && s.queue != [] && s.queue[0].on.AllElement?
    ensures Fated(RunTask(s, turn), {})
  {
    var t := s.queue[0];
    HeadRunnable(s);
    HeadOk(s);
    var a, i, q := t.on.all, t.on.index, t.source.value;
    assert AtElement(s, a, i, q);
    var r := AfterElement(s, a, i, q);
    assert r == RunTask(s, turn);
    hide AtElement, AfterElement;
    ElementFrame(s, a, i, q);
    forall p | 0 <= p < |r.cells| ensures Pays(r, p, {}) { ElementPays(s, a, i, q, p); }
    forall b | 0 <= b < |r.alls| ensures AllFate(r, b) {
      if b == a { ElementFate(s, a, i, q); } else { OtherFate(s, a, i, q, b); }
    }
  }

  lemma ElementFrame(s: State, a: Id, i: nat, q: Id)
    requires AtElement(s, a, i, q)
    ensures var r := AfterElement(s, a, i, q); |r.cells| == |s.cells| && |r.alls| == |s.alls|
  {
  }

  lemma ElementPays(s: State, a: Id, i: nat, q: Id, p: Id)
    requires AtElement(s, a, i, q) && p < |s.cells|
    ensures Pays(AfterElement(s, a, i, q), p, {})
  {
    var all := s.alls[a];
    PopPays(s, p);
    assert AllFate(s, a);
    if s.cells[p].owner.Owed? { ElementCounts(s, a, i, q, s.cells[p].owner.on); }
  }

  lemma ElementCounts(s: State, a: Id, i: nat, q: Id, on: Reaction)
    requires AtElement(s, a, i, q) && Resolves(on)
    ensures Outstanding(AfterElement(s, a, i, q), on) == Outstanding(Pop(s), on)
  {
    hide Outstanding, Later, Settle, Fated;
    var s1 := Pop(s);
    PopKeeps(s);
    assert AllOk(s1, a, {s.queue[0].on});
    var p := s1.alls[a].promise;
    if s.cells[q].status == Rejected {
      OutstandingSettle(s1, {s.queue[0].on}, p, s.cells[q].value, true, on);
    } else {
      RecordKeeps(s1, a, i);
      var s2 := RecordElement(s1, a, i, s.cells[q].value);
      RecordCounts(s1, a, i, s.cells[q].value, on);
      OutstandingSettle(s2, {s.queue[0].on}, p, Results(a), false, on);
    }
  }

  lemma RecordCounts(s: State, a: Id, i: nat, v: Value, on: Reaction)
    requires a < |s.alls| && i < |s.alls[a].results| && i < |s.alls[a].done|
    ensures Outstanding(RecordElement(s, a, i, v), on) == Outstanding(s, on)
  {
  }

  lemma OtherFate(s: State, a: Id, i: nat, q: Id, b: Id)
    requires AtElement(s, a, i, q) && b < |s.alls| && b != a
    ensures AllFate(AfterElement(s, a, i, q), b)
  {
    assert AllFate(s, b) && AllFate(s, a);
    RejectionNext(s.log, s.queue[0], b);
  }

  lemma ElementFate(s: State, a: Id, i: nat, q: Id)
    requires AtElement(s, a, i, q)
    ensures AllFate(AfterElement(s, a, i, q), a)
  {
    var all := s.alls[a];
    assert AllFate(s, a) && AllOk(s, a, {}) && CellOk(s, all.promise) && CellOk(s, q);
    RejectionNext(s.log, s.queue[0], a);
    CountFalseZero(all.done);
    CountFalseUpdate(all.done, i);
    if FirstRejection(s.log, a).Some? && s.cells[q].status != Rejected {
      assert forall k :: 0 <= k < |s.log| ==> s.log[k] == Tasks(s)[k];
      var j := RejectedStays(s, s.log, a);
      CountFalseZero(all.done[i := true]);
    }
  }

  // ---------------------------------------------------------------- the other reactions

  lemma HandlerFated(s: State, on: Reaction, turn: Turn)
    requires Inv(s) && Resolves(on) && on.derived < |s.cells| && s.cells[on.derived].owner.Owed? && s.cells[on.derived].owner.on == on
    requires Fated(s, {on}) && Fair(s, turn.commands)
    ensures Fated(CallHandler(s, on.derived, turn), {})
  {
    hide InvExcept, ExecAll, Settle;
    var s1 := ExecAll(s, turn.commands);
    ExecAllKeeps(s, turn.commands);
    ExecAllFated(s, {on}, turn.commands);
    SettleFated(s1, {}, {on}, on.derived, Completion(s1, turn), turn.threw);
    assert {on} - {on} == {};
  }

  lemma PassThroughFated(s: State, on: Reaction, answer: Value, v: Value, rejected: bool)
    requires Inv(s) && Resolves(on) && on.derived < |s.cells| && s.cells[on.derived].owner.Owed? && s.cells[on.derived].owner.on == on
    requires Fated(s, {on}) && ValidValue(s, answer) && ValidValue(s, v)
    ensures Fated(PassThrough(s, on.derived, answer, v, rejected), {})
  {
    var inner := |s.cells|;
    var thunk := FinallyThunk(inner, v, rejected);
    var owner := Owed(Answerer(s, answer), thunk);
    var s1 := NewPromise(s, owner);
    MakeKeeps(s, {}, owner);
    MakeFated(s, {}, {on}, owner);
    SettleKeeps(s1, {}, on.derived, PromiseRef(inner), false);
    SettleFated(s1, {}, {on} + {thunk}, on.derived, PromiseRef(inner), false);
    var s2 := Settle(s1, on.derived, PromiseRef(inner), false);
    assert {on} + {thunk} - {on} == {thunk};
    AnswerFated(s2, {thunk}, answer, thunk);
    assert {thunk} - {thunk} == {};
  }

  lemma FinallyFated(s: State, on: Reaction, v: Value, rejected: bool, turn: Turn)
    requires Inv(s) && on.FinallyReact? && on.derived < |s.cells| && s.cells[on.derived].owner.Owed? && s.cells[on.derived].owner.on == on
    requires Fated(s, {on}) && (on.onFinally.Callable? ==> Fair(s, turn.commands)) && ValidValue(s, v)
    ensures Fated(FinallyReactStep(s, on.derived, on.onFinally, v, rejected, turn), {})
  {
    assert {on} - {on} == {};
    if on.onFinally.NotCallable? {
      SettleFated(s, {}, {on}, on.derived, v, rejected);
    } else {
      var s1 := ExecAll(s, turn.commands);
      ExecAllKeeps(s, turn.commands);
      ExecAllFated(s, {on}, turn.commands);
      if turn.threw {
        SettleFated(s1, {}, {on}, on.derived, Completion(s1, turn), true);
      } else {
        PassThroughFated(s1, on, Completion(s1, turn), v, rejected);
      }
    }
  }

  lemma TaskFated(s: State, turn: Turn)
    requires Inv(s) && Fated(s, {}) && s.queue != [] && FairTurn(s, turn)
    ensures Fated(RunTask(s, turn), {})
  {
    hide InvExcept, Fated, Outstanding, Later, Settle, Subscribe, SettleNow, Fair, ExecAll, CallHandler, FinallyReactStep;
    var t := s.queue[0];
    var s1 := Pop(s);
    HeadOk(s);
    HeadRunnable(s);
    if t.on.AllElement? {
      ElementFated(s, turn);
      return;
    }
    PopKeeps(s);
    PopFated(s);
    if Resolves(t.on) { HeadOwes(s); }
    assert {t.on} - {t.on} == {};
    match t.on {
      case Adopt(o) => AdoptFated(s);
      case AdoptSubscribe(o) =>
        SubscribeFated(s1, InHand(t.on), {}, t.value.id, Adopt(o));
        assert {} - {Adopt(o)} == {};
      case ThenReact(d, f, g) =>
        if Called(t) { HandlerFated(s1, t.on, turn); } else { SettleFated(s1, {}, {t.on}, d, t.value, t.rejected); }
      case FinallyReact(d, f) => FinallyFated(s1, t.on, t.value, t.rejected, turn);
      case FinallyThunk(d, v, r) =>
        if t.rejected { SettleFated(s1, {}, {t.on}, d, t.value, true); } else { SettleFated(s1, {}, {t.on}, d, v, r); }
      case AsyncResume(_) => ExecAllFated(s1, {}, turn.commands);
    }
  }
}

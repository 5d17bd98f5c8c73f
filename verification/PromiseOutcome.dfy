/** What code outside a reaction leaves alone, and the order in which tasks run. */
module PromiseOutcome {
  import opened PromiseModel
  import opened PromiseInvariant
  import opened PromiseSteps
  import opened PromiseRun

  // ---------------------------------------------------------------- code that runs no reaction

  ghost predicate Untouched(c: Cell, d: Cell) {
    && d.status == c.status && d.value == c.value && d.resolved == c.resolved && d.adopting == c.adopting
  }

  /** A combined promise made since: still to be resolved, or fulfilled at once with no elements. */
  ghost predicate NewAll(r: State, a: Id, named: set<Id>)
    requires a < |r.alls|
  {
    var all := r.alls[a];
    && all.promise < |r.cells| && r.cells[all.promise].owner == Combined(a)
    && all.remaining == |all.results|
    && (all.promise !in named ==> AllUndecided(r, a))
  }

  ghost predicate AllUndecided(r: State, a: Id)
    requires a < |r.alls| && r.alls[a].promise < |r.cells|
  {
    var c := r.cells[r.alls[a].promise];
    if r.alls[a].remaining == 0 then c.status == Fulfilled && c.value == Results(a) else !c.resolved
  }

  /** From `s` to `r` no reaction ran: nothing was delivered, nothing left the queue, and no promise was
      decided but those in `named` and new ones of the program's own. */
  ghost predicate Outside(s: State, r: State, named: set<Id>) {
    && Grows(s, r)
    && r.log == s.log && s.queue <= r.queue
    && (forall a :: 0 <= a < |s.alls| ==> r.alls[a] == s.alls[a])
    && (forall a :: |s.alls| <= a < |r.alls| ==> NewAll(r, a, named))
    && (forall p :: 0 <= p < |s.cells| ==> r.cells[p].owner == s.cells[p].owner)
    && (forall p :: 0 <= p < |s.cells| && p !in named ==> Untouched(s.cells[p], r.cells[p]))
    && (forall p :: |s.cells| <= p < |r.cells| && r.cells[p].owner.Owed? && p !in named ==> !r.cells[p].resolved)
  }

  lemma OutsideTransitive(s: State, t: State, u: State, named: set<Id>)
    requires Outside(s, t, named) && Outside(t, u, named)
    ensures Outside(s, u, named)
  {
    forall a | |s.alls| <= a < |u.alls| ensures NewAll(u, a, named) {
      if a < |t.alls| { assert NewAll(t, a, named); }
    }
  }

  lemma OutsideWider(s: State, r: State, named: set<Id>, more: set<Id>)
    requires Outside(s, r, named) && named <= more
    ensures Outside(s, r, more)
  {
    forall a | |s.alls| <= a < |r.alls| ensures NewAll(r, a, more) { assert NewAll(r, a, named); }
  }

  lemma OutsideSettle(s: State, p: Id, v: Value, rejected: bool)
    requires p < |s.cells|
    ensures Outside(s, Settle(s, p, v, rejected), {p})
  {
  }

  lemma OutsideResolve(s: State, v: Value)
    requires ValidValue(s, v)
    ensures Outside(s, Resolve(s, v).0, {})
  {
    if !v.PromiseRef? { OutsideSettle(NewPromise(s, Program), |s.cells|, v, false); }
  }

  lemma OutsideAnswer(s: State, v: Value, on: Reaction)
    requires ValidValue(s, v)
    ensures var (s1, e) := Resolve(s, v); Outside(s, Subscribe(s1, e, on), {})
  {
    var (s1, e) := Resolve(s, v);
    OutsideResolve(s, v);
    OutsideTransitive(s, s1, Subscribe(s1, e, on), {});
  }

  lemma {:induction false} OutsideElements(s0: State, s: State, values: seq<Value>, i: nat)
    requires |s0.alls| < |s.alls| && i <= |values| && ValidValues(s, values) && Outside(s0, s, {})
    ensures Outside(s0, SubscribeElements(s, |s0.alls|, values, i), {})
    decreases |values| - i
  {
    if i < |values| {
      hide Outside, Subscribe, Resolve, NoteElement;
      OutsideElement(s0, s, values, i);
      var (s1, e) := Resolve(s, values[i]);
      OutsideElements(s0, Subscribe(NoteElement(s1, |s0.alls|, e), e, AllElement(|s0.alls|, i)), values, i + 1);
    }
  }

  lemma OutsideElement(s0: State, s: State, values: seq<Value>, i: nat)
    requires |s0.alls| < |s.alls| && i < |values| && ValidValues(s, values) && Outside(s0, s, {})
    ensures var (s1, e) := Resolve(s, values[i]);
      var r := Subscribe(NoteElement(s1, |s0.alls|, e), e, AllElement(|s0.alls|, i));
      |s.alls| <= |r.alls| && ValidValues(r, values) && Outside(s0, r, {})
  {
    hide Resolve;
    var (s1, e) := Resolve(s, values[i]);
    OutsideResolve(s, values[i]);
    OutsideTransitive(s0, s, s1, {});
    var s2 := NoteElement(s1, |s0.alls|, e);
    OutsideNote(s0, s1, e);
    OutsideSubscribe(s2, e, AllElement(|s0.alls|, i));
    OutsideTransitive(s0, s2, Subscribe(s2, e, AllElement(|s0.alls|, i)), {});
  }

  lemma OutsideSubscribe(s: State, p: Id, on: Reaction)
    requires p < |s.cells|
    ensures Outside(s, Subscribe(s, p, on), {})
  {
  }

  lemma OutsideNote(s0: State, s: State, e: Id)
    requires Outside(s0, s, {}) && |s0.alls| < |s.alls|
    ensures Outside(s0, NoteElement(s, |s0.alls|, e), {})
  {
    var r := NoteElement(s, |s0.alls|, e);
    forall a | |s0.alls| <= a < |r.alls| ensures NewAll(r, a, {}) { assert NewAll(s, a, {}); }
  }

  lemma OutsideAll(s: State, values: seq<Value>)
    requires ValidValues(s, values)
    ensures Outside(s, PromiseAll(s, values), {})
  {
    var s1 := AllNew(s, |values|);
    if values == [] {
      var r := PromiseAll(s, values);
      assert NewAll(r, |s.alls|, {});
    } else {
      assert NewAll(s1, |s.alls|, {});
      OutsideElements(s, s1, values, 0);
    }
  }

  ghost function PutBy(c: Command): set<Id> { if c.Put? then {c.p} else {} }

  /** Every command a program can issue runs no reaction: it decides the promise a Put names, and no other
      that exists; a promise that then, finally or Promise.all hands out is not decided by making it. */
  lemma ExecOutside(s: State, c: Command)
    ensures Outside(s, Exec(s, c), PutBy(c))
  {
    if Sensible(s, c) {
      match c
      case Put(p, v, rejected) => OutsideSettle(s, p, v, rejected);
      case ResolveValue(v) => OutsideResolve(s, v);
      case CallAll(values) => OutsideAll(s, values);
      case CallAwait(frame, v) => OutsideAnswer(s, v, AsyncResume(frame));
      case _ =>
    }
  }

  ghost function Puts(cs: seq<Command>): set<Id>
    decreases cs
  {
    if cs == [] then {} else PutBy(cs[0]) + Puts(cs[1..])
  }

  lemma {:induction false} ExecAllOutside(s: State, cs: seq<Command>)
    ensures Outside(s, ExecAll(s, cs), Puts(cs))
    decreases cs
  {
    if cs != [] {
      var s1 := Exec(s, cs[0]);
      ExecOutside(s, cs[0]);
      ExecAllOutside(s1, cs[1..]);
      OutsideWider(s, s1, PutBy(cs[0]), Puts(cs));
      OutsideWider(s1, ExecAll(s1, cs[1..]), Puts(cs[1..]), Puts(cs));
      OutsideTransitive(s, s1, ExecAll(s, cs), Puts(cs));
    }
  }

  /** No reaction runs inline: what a program does outside a microtask puts no reaction on record,
      delivers no element, decides no promise but those its Puts name, and every reaction it subscribes
      is behind the tasks that were waiting, or registered. */
  lemma NeverInline(s: State, cs: seq<Command>)
    requires Inv(s)
    ensures var r := ExecAll(s, cs);
      && Outside(s, r, Puts(cs))
      && forall p :: 0 <= p < |r.cells| ==>
           r.cells[p].history == From(p, Tasks(s)) + From(p, r.queue[|s.queue|..]) + r.cells[p].waiting
  {
    var r := ExecAll(s, cs);
    ExecAllOutside(s, cs);
    ExecAllKeeps(s, cs);
    hide From, Later, ExecAll;
    forall p | 0 <= p < |r.cells|
      ensures r.cells[p].history == From(p, Tasks(s)) + From(p, r.queue[|s.queue|..]) + r.cells[p].waiting
    {
      assert HistoryOk(r, p);
      Behind(s, r, p);
    }
  }

  lemma Behind(s: State, r: State, p: Id)
    requires p < |r.cells| && HistoryOk(r, p) && r.log == s.log && s.queue <= r.queue
    ensures r.cells[p].history == From(p, Tasks(s)) + From(p, r.queue[|s.queue|..]) + r.cells[p].waiting
  {
    hide From;
    var tail := r.queue[|s.queue|..];
    assert Tasks(r) == Tasks(s) + tail;
    FromConcat(p, Tasks(s), tail);
  }

  // ---------------------------------------------------------------- code inside a reaction

  /** Nothing ran from `s` to `r`: no reaction went on record and no task left the queue. */
  ghost predicate Quiet(s: State, r: State) { r.log == s.log && s.queue <= r.queue }

  lemma QuietExec(s: State, cs: seq<Command>)
    ensures Quiet(s, ExecAll(s, cs))
  {
    ExecAllOutside(s, cs);
  }

  lemma QuietAnswer(s: State, v: Value, on: Reaction)
    requires ValidValue(s, v)
    ensures var (s1, e) := Resolve(s, v); Quiet(s, Subscribe(s1, e, on))
  {
    OutsideAnswer(s, v, on);
  }

  lemma QuietFinally(s: State, d: Id, f: Handler, v: Value, rejected: bool, turn: Turn)
    requires d < |s.cells|
    ensures Quiet(s, FinallyReactStep(s, d, f, v, rejected, turn))
  {
    hide ExecAll;
    if f.Callable? {
      var s1 := ExecAll(s, turn.commands);
      QuietExec(s, turn.commands);
      if !turn.threw {
        var answer := Completion(s1, turn);
        var on := FinallyThunk(|s1.cells|, v, rejected);
        var s2 := Settle(NewPromise(s1, Owed(Answerer(s1, answer), on)), d, PromiseRef(|s1.cells|), false);
        QuietAnswer(s2, answer, on);
      }
    }
  }

  /** A reaction puts itself on record and runs no other, whatever the program does in it. */
  lemma ReactRunsOne(s: State, t: Task, turn: Turn)
    requires Runnable(s, t.on, t.value)
    ensures var r := React(s, t, turn); r.log == s.log + [t] && s.queue <= r.queue
  {
    hide ExecAll, FinallyReactStep;
    var s1 := Record(s, t);
    QuietExec(s1, turn.commands);
    match t.on
    case FinallyReact(d, f) => QuietFinally(s1, d, f, t.value, t.rejected, turn);
    case _ =>
  }

  /** A microtask runs the task at the head of the queue and no other; a command runs none. */
  lemma StepRunsOne(s: State, e: Event)
    requires Inv(s)
    ensures var r := Step(s, e);
      if e.Microtask? && s.queue != [] then r.log == s.log + [s.queue[0]] && s.queue[1..] <= r.queue else Quiet(s, r)
  {
    hide InvExcept, Later;
    match e
    case Script(c) => ExecOutside(s, c);
    case Microtask(turn) =>
      if s.queue != [] {
        HeadRunnable(s);
        ReactRunsOne(Drop(s), s.queue[0], turn);
      }
  }

  /** How many microtasks of a run had a task to run. */
  ghost function Turns(es: seq<Event>): nat {
    if es == [] then 0
    else
      var n := |es| - 1;
      Turns(es[..n]) + if es[n].Microtask? && Reached(es[..n]).queue != [] then 1 else 0
  }

  /** First come, first served: the tasks run are, one a microtask, the first ones ever queued, and what happens
      later puts none before those that wait. */
  lemma FirstComeFirstServed(es: seq<Event>, more: seq<Event>)
    ensures |Reached(es).log| == Turns(es)
    ensures var tasks, log := Tasks(Reached(es)), Reached(es + more).log;
      |log| == Turns(es + more) && forall k :: 0 <= k < |log| && k < |tasks| ==> log[k] == tasks[k]
  {
    hide InvExcept, Later, Run, Step, Turns;
    InitialInv();
    RunConcat(INITIAL, es, more);
    var s, r := Reached(es), Reached(es + more);
    assert Inv(s) && r == Run(s, more) && Later(s, r);
    LaterTasks(s, r);
    TurnsAre(es);
    TurnsAre(es + more);
    assert forall k :: 0 <= k < |r.log| ==> r.log[k] == Tasks(r)[k];
  }

  lemma LaterTasks(s: State, r: State)
    requires Later(s, r)
    ensures Tasks(s) <= Tasks(r)
  {
  }

  lemma {:induction false} TurnsAre(es: seq<Event>)
    ensures |Reached(es).log| == Turns(es)
  {
    hide InvExcept, Later, Step;
    InitialInv();
    if es != [] {
      var n := |es| - 1;
      TurnsAre(es[..n]);
      LastStep(es);
      StepRunsOne(Reached(es[..n]), es[n]);
    }
  }
}

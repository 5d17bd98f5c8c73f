/** jsrt_promise.c in its own form: promise objects whose fields are written in place, one microtask
    queue and one counter of unhandled rejections. Every method is tied to the function of
    PromiseModel it implements; PromiseRun proves what holds of those. */
module PromiseRuntime {
  import opened Options
  import opened PromiseModel
  import opened PromiseInvariant
  import opened PromiseRun

  class Promise {
    var status: Status
    var resolved: bool
    var value: Value
    var waiting: seq<Reaction>
    var unhandled: bool
    ghost var adopting: Option<Id>
    ghost var history: seq<Reaction>
    ghost const owner: Owner

    constructor (ghost owner: Owner)
      ensures Contents() == Fresh(owner)
    {
      this.owner := owner;
      status, resolved, value, waiting, unhandled := Pending, false, Undefined, [], false;
      adopting, history := None, [];
    }

    ghost function Contents(): Cell
      reads this
    {
      Cell(status, resolved, value, waiting, unhandled, adopting, history, owner)
    }
  }

  class AllRecord {
    const promise: Id
    var results: seq<Value>
    var remaining: int
    ghost var elements: seq<Id>
    ghost var done: seq<bool>

    constructor (promise: Id, n: nat)
      ensures Contents() == AllState(promise, [], seq(n, _ => Undefined), seq(n, _ => false), n)
    {
      this.promise := promise;
      results, remaining := seq(n, _ => Undefined), n;
      elements, done := [], seq(n, _ => false);
    }

    ghost function Contents(): AllState
      reads this
    {
      AllState(promise, elements, results, done, remaining)
    }
  }

  lemma DeliverNext(p: Id, waiting: seq<Reaction>, value: Value, rejected: bool, i: nat)
    requires i < |waiting|
    ensures var ts := Deliveries(p, waiting, value, rejected);
      ts[..i + 1] == ts[..i] + [Task(waiting[i], value, rejected, Some(p))]
  {
  }

  class Runtime {
    var promises: seq<Promise>
    var alls: seq<AllRecord>
    var queue: seq<Task>
    var unhandledRejections: int
    ghost var log: seq<Task>

    constructor ()
      ensures Valid() && Model() == INITIAL
    {
      promises, alls, queue, unhandledRejections, log := [], [], [], 0, [];
    }

    /** Two addresses never name one object. */
    ghost predicate Valid()
      reads this
    {
      && (forall i, j :: 0 <= i < j < |promises| ==> promises[i] != promises[j])
      && (forall i, j :: 0 <= i < j < |alls| ==> alls[i] != alls[j])
    }

    /** Objects are added to the two tables, never replaced. */
    twostate predicate Grown()
      reads this
    {
      && old(promises) <= promises
      && old(alls) <= alls
      && (forall i :: |old(promises)| <= i < |promises| ==> fresh(promises[i]))
      && (forall i :: |old(alls)| <= i < |alls| ==> fresh(alls[i]))
    }

    ghost function Model(): (s: State)
      reads this, promises, alls
      ensures |s.cells| == |promises| && |s.alls| == |alls|
    {
      State(seq(|promises|, i requires 0 <= i < |promises| reads this, promises => promises[i].Contents()),
            seq(|alls|, i requires 0 <= i < |alls| reads this, alls => alls[i].Contents()),
            queue, log, unhandledRejections)
    }

    method NewPromise(ghost owner: Owner) returns (p: Id)
      requires Valid()
      modifies this, promises, alls
      ensures Valid() && Grown()
      ensures Model() == PromiseModel.NewPromise(old(Model()), owner) && p == |old(Model()).cells|
    {
      var fresh' := new Promise(owner);
      p := |promises|;
      promises := promises + [fresh'];
      assert Model().cells == old(Model()).cells + [Fresh(owner)];
      assert Model().alls == old(Model()).alls;
    }

    method Enqueue(t: Task)
      requires Valid()
      modifies this, promises, alls
      ensures Valid() && Grown()
      ensures Model() == PromiseModel.Enqueue(old(Model()), t)
    {
      queue := queue + [t];
      assert Model().cells == old(Model()).cells;
      assert Model().alls == old(Model()).alls;
    }

    method Subscribe(p: Id, r: Reaction)
      requires Valid() && p < |promises|
      modifies this, promises, alls
      ensures Valid() && Grown()
      ensures Model() == PromiseModel.Subscribe(old(Model()), p, r)
    {
      var c := promises[p];
      c.history := c.history + [r];
      if c.status != Pending {
        if c.unhandled {
          c.unhandled := false;
          unhandledRejections := unhandledRejections - 1;
        }
        queue := queue + [Task(r, c.value, c.status == Rejected, Some(p))];
      } else {
        c.waiting := c.waiting + [r];
      }
      assert Model().cells == old(Model()).cells[p := c.Contents()];
      assert Model().alls == old(Model()).alls;
    }

    method SettleNow(p: Id, value: Value, rejected: bool)
      requires Valid() && p < |promises|
      modifies this, promises, alls
      ensures Valid() && Grown()
      ensures Model() == PromiseModel.SettleNow(old(Model()), p, value, rejected)
    {
      hide Deliveries;
      var c := promises[p];
      c.status := if rejected then Rejected else Fulfilled;
      c.value := value;
      if rejected && c.waiting == [] {
        c.unhandled := true;
        unhandledRejections := unhandledRejections + 1;
      }
      var i := 0;
      while i < |c.waiting|
        invariant 0 <= i <= |c.waiting|
        invariant queue == old(queue) + Deliveries(p, c.waiting, value, rejected)[..i]
        modifies `queue
      {
        DeliverNext(p, c.waiting, value, rejected, i);
        queue := queue + [Task(c.waiting[i], value, rejected, Some(p))];
        i := i + 1;
      }
      assert Deliveries(p, c.waiting, value, rejected)[..i] == Deliveries(p, c.waiting, value, rejected);
      c.waiting := [];
      assert Model().cells == old(Model()).cells[p := c.Contents()];
      assert Model().alls == old(Model()).alls;
    }

    /** The C code's `p->resolved = true`; `adopting` is recorded, not stored. */
    method MarkResolved(p: Id, ghost adopting: Option<Id>)
      requires Valid() && p < |promises|
      modifies this, promises, alls
      ensures Valid() && Grown()
      ensures Model() == PromiseModel.MarkResolved(old(Model()), p, adopting)
    {
      promises[p].resolved := true;
      promises[p].adopting := adopting;
      assert Model().cells == old(Model()).cells[p := promises[p].Contents()];
      assert Model().alls == old(Model()).alls;
    }

    method Settle(p: Id, value: Value, rejected: bool)
      requires Valid() && p < |promises|
      modifies this, promises, alls
      ensures Valid() && Grown()
      ensures Model() == PromiseModel.Settle(old(Model()), p, value, rejected)
    {
      if promises[p].resolved {
        return;
      }
      if !rejected && value.PromiseRef? {
        if value.id == p {
          MarkResolved(p, None);
          SettleNow(p, CycleError, true);
          return;
        }
        MarkResolved(p, Some(value.id));
        Enqueue(Task(AdoptSubscribe(p), value, false, None));
        return;
      }
      MarkResolved(p, None);
      SettleNow(p, value, rejected);
    }

    method Resolve(v: Value) returns (p: Id)
      requires Valid() && ValidValue(Model(), v)
      modifies this, promises, alls
      ensures Valid() && Grown()
      ensures (Model(), p) == PromiseModel.Resolve(old(Model()), v)
    {
      if v.PromiseRef? {
        return v.id;
      }
      p := NewPromise(Program);
      Settle(p, v, false);
    }

    method Reject(reason: Value) returns (p: Id)
      requires Valid() && ValidValue(Model(), reason)
      modifies this, promises, alls
      ensures Valid() && Grown()
      ensures Model() == PromiseModel.Exec(old(Model()), RejectValue(reason)) && p == |old(Model()).cells|
    {
      p := NewPromise(Program);
      Settle(p, reason, true);
    }

    // -------------------------------------------------------------- Promise.all

    method AllElementReact(a: Id, i: nat, v: Value, rejected: bool)
      requires Valid() && a < |alls| && i < |alls[a].results| && i < |alls[a].done| && alls[a].promise < |promises|
      modifies this, promises, alls
      ensures Valid() && Grown()
      ensures Model() == PromiseModel.AllElementReact(old(Model()), a, i, v, rejected)
    {
      var all := alls[a];
      if rejected {
        Settle(all.promise, v, true);
        return;
      }
      all.results := all.results[i := v];
      all.done := all.done[i := true];
      all.remaining := all.remaining - 1;
      assert Model().cells == old(Model()).cells;
      assert Model().alls == old(Model()).alls[a := all.Contents()];
      assert Model() == RecordElement(old(Model()), a, i, v);
      if all.remaining == 0 {
        Settle(all.promise, Results(a), false);
      }
    }

    method NewAll(n: nat) returns (p: Id, a: Id)
      requires Valid()
      modifies this, promises, alls
      ensures Valid() && Grown()
      ensures Model() == AllNew(old(Model()), n) && p == |old(Model()).cells| && a == |old(Model()).alls|
    {
      p := NewPromise(Combined(|alls|));
      ghost var s1 := Model();
      a := |alls|;
      var all := new AllRecord(p, n);
      alls := alls + [all];
      assert Model().cells == s1.cells;
      assert Model().alls == s1.alls + [all.Contents()];
    }

    /** The element a reaction is about to be registered for; recorded, not stored. */
    ghost method NoteElement(a: Id, e: Id)
      requires Valid() && a < |alls|
      modifies this, promises, alls
      ensures Valid() && Grown()
      ensures Model() == PromiseModel.NoteElement(old(Model()), a, e)
    {
      alls[a].elements := alls[a].elements + [e];
      assert Model().cells == old(Model()).cells;
      assert Model().alls == old(Model()).alls[a := alls[a].Contents()];
    }

    method SubscribeElement(a: Id, i: nat, v: Value)
      requires Valid() && a < |alls| && ValidValue(Model(), v)
      modifies this, promises, alls
      ensures Valid() && Grown()
      ensures var (s1, e) := PromiseModel.Resolve(old(Model()), v);
        Model() == PromiseModel.Subscribe(PromiseModel.NoteElement(s1, a, e), e, AllElement(a, i))
    {
      var e := Resolve(v);
      NoteElement(a, e);
      Subscribe(e, AllElement(a, i));
    }

    method SubscribeElements(a: Id, values: seq<Value>)
      requires Valid() && a < |alls| && ValidValues(Model(), values)
      modifies this, promises, alls
      ensures Valid() && Grown()
      ensures Model() == PromiseModel.SubscribeElements(old(Model()), a, values, 0)
    {
      hide PromiseModel.Resolve, PromiseModel.Subscribe, PromiseModel.NoteElement;
      var i := 0;
      while i < |values|
        invariant 0 <= i <= |values|
        invariant Valid() && Grown()
        invariant ValidValues(Model(), values)
        invariant PromiseModel.SubscribeElements(Model(), a, values, i)
               == PromiseModel.SubscribeElements(old(Model()), a, values, 0)
      {
        SubscribeElement(a, i, values[i]);
        i := i + 1;
      }
    }

    method PromiseAll(values: seq<Value>) returns (p: Id)
      requires Valid() && ValidValues(Model(), values)
      modifies this, promises, alls
      ensures Valid() && Grown()
      ensures Model() == PromiseModel.PromiseAll(old(Model()), values) && p == |old(Model()).cells|
    {
      var a: Id;
      p, a := NewAll(|values|);
      if values == [] {
        Settle(p, Results(a), false);
        return;
      }
      SubscribeElements(a, values);
    }

    // -------------------------------------------------------------- then, finally, await

    method Then(p: Id, onFulfilled: Handler, onRejected: Handler) returns (derived: Id)
      requires Valid() && p < |promises|
      modifies this, promises, alls
      ensures Valid() && Grown()
      ensures Model() == PromiseModel.Then(old(Model()), p, onFulfilled, onRejected) && derived == |old(Model()).cells|
    {
      derived := NewPromise(Owed(p, ThenReact(|promises|, onFulfilled, onRejected)));
      Subscribe(p, ThenReact(derived, onFulfilled, onRejected));
    }

    method Finally(p: Id, onFinally: Handler) returns (derived: Id)
      requires Valid() && p < |promises|
      modifies this, promises, alls
      ensures Valid() && Grown()
      ensures Model() == PromiseModel.Finally(old(Model()), p, onFinally) && derived == |old(Model()).cells|
    {
      derived := NewPromise(Owed(p, FinallyReact(|promises|, onFinally)));
      Subscribe(p, FinallyReact(derived, onFinally));
    }

    /** `jsrt_promise_subscribe(jsrt_promise_resolve(v), ...)`. */
    method SubscribeAnswer(v: Value, on: Reaction)
      requires Valid() && ValidValue(Model(), v)
      modifies this, promises, alls
      ensures Valid() && Grown()
      ensures var (s1, e) := PromiseModel.Resolve(old(Model()), v); Model() == PromiseModel.Subscribe(s1, e, on)
    {
      var e := Resolve(v);
      Subscribe(e, on);
    }

    method Await(frame: Id, v: Value)
      requires Valid() && frame < |promises| && ValidValue(Model(), v)
      modifies this, promises, alls
      ensures Valid() && Grown()
      ensures Model() == PromiseModel.Await(old(Model()), frame, v)
    {
      SubscribeAnswer(v, AsyncResume(frame));
    }

    predicate Exists(v: Value)
      reads this
    {
      (v.PromiseRef? ==> v.id < |promises|) && (v.Results? ==> v.all < |alls|)
    }

    /** One thing the program's own code does. */
    method Exec(c: Command)
      requires Valid()
      modifies this, promises, alls
      ensures Valid() && Grown()
      ensures Model() == PromiseModel.Exec(old(Model()), c)
    {
      match c
      case Make => var _ := NewPromise(Program);
      case Put(p, v, rejected) => if p < |promises| && Exists(v) { Settle(p, v, rejected); }
      case ResolveValue(v) => if Exists(v) { var _ := Resolve(v); }
      case RejectValue(v) => if Exists(v) { var _ := Reject(v); }
      case CallThen(p, f, g) => if p < |promises| { var _ := Then(p, f, g); }
      case CallFinally(p, f) => if p < |promises| { var _ := Finally(p, f); }
      case CallAll(values) =>
        if forall i :: 0 <= i < |values| ==> Exists(values[i]) { var _ := PromiseAll(values); }
      case CallAwait(frame, v) => if frame < |promises| && Exists(v) { Await(frame, v); }
    }

    method ExecAll(cs: seq<Command>)
      requires Valid()
      modifies this, promises, alls
      ensures Valid() && Grown()
      ensures Model() == PromiseModel.ExecAll(old(Model()), cs)
    {
      var i := 0;
      while i < |cs|
        invariant 0 <= i <= |cs|
        invariant Valid() && Grown()
        invariant PromiseModel.ExecAll(Model(), cs[i..]) == PromiseModel.ExecAll(old(Model()), cs)
      {
        assert cs[i..][0] == cs[i] && cs[i..][1..] == cs[i + 1..];
        Exec(cs[i]);
        i := i + 1;
      }
    }

    // -------------------------------------------------------------- the drain

    method CallHandler(derived: Id, turn: Turn)
      requires Valid() && derived < |promises|
      modifies this, promises, alls
      ensures Valid() && Grown()
      ensures Model() == PromiseModel.CallHandler(old(Model()), derived, turn)
    {
      ExecAll(turn.commands);
      Settle(derived, if Exists(turn.value) then turn.value else Undefined, turn.threw);
    }

    method PassThrough(derived: Id, answer: Value, v: Value, rejected: bool)
      requires Valid() && derived < |promises| && ValidValue(Model(), answer)
      modifies this, promises, alls
      ensures Valid() && Grown()
      ensures Model() == PromiseModel.PassThrough(old(Model()), derived, answer, v, rejected)
    {
      var inner := NewPromise(Owed(Answerer(Model(), answer), FinallyThunk(|promises|, v, rejected)));
      Settle(derived, PromiseRef(inner), false);
      SubscribeAnswer(answer, FinallyThunk(inner, v, rejected));
    }

    method FinallyReactStep(derived: Id, onFinally: Handler, v: Value, rejected: bool, turn: Turn)
      requires Valid() && derived < |promises|
      modifies this, promises, alls
      ensures Valid() && Grown()
      ensures Model() == PromiseModel.FinallyReactStep(old(Model()), derived, onFinally, v, rejected, turn)
    {
      if onFinally.NotCallable? {
        Settle(derived, v, rejected);
        return;
      }
      ExecAll(turn.commands);
      var answer := if Exists(turn.value) then turn.value else Undefined;
      if turn.threw {
        Settle(derived, answer, true);
        return;
      }
      PassThrough(derived, answer, v, rejected);
    }

    method React(t: Task, turn: Turn)
      requires Valid() && Runnable(Model(), t.on, t.value)
      modifies this, promises, alls
      ensures Valid() && Grown()
      ensures Model() == PromiseModel.React(old(Model()), t, turn)
    {
      Record(t);
      var v, rejected := t.value, t.rejected;
      match t.on
      case Adopt(o) => SettleNow(o, v, rejected);
      case AdoptSubscribe(o) => Subscribe(v.id, Adopt(o));
      case AllElement(a, i) => AllElementReact(a, i, v, rejected);
      case ThenReact(d, f, g) =>
        var handler := if rejected then g else f;
        if handler.NotCallable? {
          Settle(d, v, rejected);
        } else {
          CallHandler(d, turn);
        }
      case FinallyReact(d, f) => FinallyReactStep(d, f, v, rejected, turn);
      case FinallyThunk(d, v0, r0) =>
        if rejected {
          Settle(d, v, true);
        } else {
          Settle(d, v0, r0);
        }
      case AsyncResume(_) => ExecAll(turn.commands);
    }

    ghost method Record(t: Task)
      requires Valid()
      modifies this, promises, alls
      ensures Valid() && Grown()
      ensures Model() == PromiseModel.Record(old(Model()), t)
    {
      log := log + [t];
      assert Model().cells == old(Model()).cells;
      assert Model().alls == old(Model()).alls;
    }

    method TakeTask() returns (task: Task)
      requires Valid() && queue != []
      modifies this, promises, alls
      ensures Valid() && Grown()
      ensures task == old(queue)[0] && Model() == Drop(old(Model()))
    {
      task := queue[0];
      queue := queue[1..];
      assert Model().cells == old(Model()).cells;
      assert Model().alls == old(Model()).alls;
    }

    /** Dropped from the queue before it runs, so what it queues goes behind the tasks waiting. */
    method RunTask(turn: Turn)
      requires Valid() && Inv(Model()) && queue != []
      modifies this, promises, alls
      ensures Valid() && Grown()
      ensures Model() == PromiseRun.RunTask(old(Model()), turn)
    {
      HeadRunnable(Model());
      var task := TakeTask();
      React(task, turn);
    }

    /** The drain, over what the program will do in each turn. It stops when the queue is empty, or
        after the last turn given: a program that always queues more work never empties it. `panics`
        is the report of a rejection nobody awaits. */
    method RunMicrotasks(turns: seq<Turn>) returns (ran: nat, panics: bool)
      requires Valid() && Inv(Model())
      modifies this, promises, alls
      ensures Valid() && Grown() && ran <= |turns|
      ensures Model() == Run(old(Model()), Microtasks(turns[..ran]))
      ensures Inv(Model())
      ensures ran < |turns| ==> queue == []
      ensures panics <==> queue == [] && unhandledRejections > 0
    {
      hide Inv, Run, Step, PromiseRun.RunTask;
      ran := 0;
      RunNone(Model());
      assert turns[..0] == [];
      while queue != [] && ran < |turns|
        invariant ran <= |turns|
        invariant Valid() && Grown()
        invariant Inv(Model()) && Model() == Run(old(Model()), Microtasks(turns[..ran]))
        decreases |turns| - ran
      {
        StepRuns(Model(), turns[ran]);
        RunTask(turns[ran]);
        RunOneMore(old(Model()), turns, ran);
        ran := ran + 1;
      }
      panics := queue == [] && unhandledRejections > 0;
    }
  }

  ghost function Microtasks(turns: seq<Turn>): seq<Event> {
    seq(|turns|, i requires 0 <= i < |turns| => Microtask(turns[i]))
  }

  lemma RunOneMore(s: State, turns: seq<Turn>, i: nat)
    requires Inv(s) && i < |turns|
    ensures Run(s, Microtasks(turns[..i + 1])) == Step(Run(s, Microtasks(turns[..i])), Microtask(turns[i]))
  {
    hide Run, Step, Inv;
    RunConcat(s, Microtasks(turns[..i]), [Microtask(turns[i])]);
    assert Microtasks(turns[..i + 1]) == Microtasks(turns[..i]) + [Microtask(turns[i])];
    RunSingle(Run(s, Microtasks(turns[..i])), Microtask(turns[i]));
  }

  lemma RunSingle(s: State, e: Event)
    requires Inv(s)
    ensures Run(s, [e]) == Step(s, e)
  {
    hide Step, Inv;
    assert [e][1..] == [];
  }

  lemma RunNone(s: State)
    requires Inv(s)
    ensures Run(s, Microtasks([])) == s
  {
  }

  lemma StepRuns(s: State, turn: Turn)
    requires Inv(s) && s.queue != []
    ensures Step(s, Microtask(turn)) == PromiseRun.RunTask(s, turn)
  {
    hide PromiseRun.RunTask;
  }
}

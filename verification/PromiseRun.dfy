/** Whole runs of the promise machine, and what holds in every state they reach. */
module PromiseRun {
  import opened Options
  import opened PromiseModel
  import opened PromiseInvariant
  import opened PromiseSteps

  // ---------------------------------------------------------------- taking a task off the queue

  /** The delivery a task's reaction performs once it has left the queue. */
  ghost function InHand(on: Reaction): set<Reaction> {
    match on
    case Adopt(o) => {on}
    case AdoptSubscribe(o) => {Adopt(o)}
    case AllElement(_, _) => {on}
    case _ => {}
  }

  lemma OutstandingPop(s: State, on: Reaction)
    requires s.queue != []
    ensures Outstanding(Pop(s), on) == Outstanding(s, on) - (if on == s.queue[0].on then 1 else 0)
  {
    assert s.queue == s.queue[..1] + s.queue[1..];
    ReactionsConcat(on, s.queue[..1], s.queue[1..]);
    assert Reactions(s.queue[..1]) == [s.queue[0].on];
  }

  lemma TasksPop(s: State)
    requires s.queue != []
    ensures Tasks(Pop(s)) == Tasks(s) && Later(s, Pop(s))
  {
    assert s.queue == [s.queue[0]] + s.queue[1..];
  }

  lemma HeadOk(s: State)
    requires Inv(s) && s.queue != []
    ensures TaskOk(s, s.queue[0])
    ensures Outstanding(s, s.queue[0].on) > 0
  {
    assert Tasks(s)[|s.log|] == s.queue[0];
    assert Reactions(s.queue)[0] == s.queue[0].on;
  }

  lemma PopTokens(s: State, p: Id)
    requires Inv(s) && s.queue != [] && p < |s.cells|
    ensures TokenOk(Pop(s), p, InHand(s.queue[0].on))
    ensures Adopt(p) in InHand(s.queue[0].on) ==> s.cells[p].resolved && s.cells[p].status == Pending
    ensures Adopt(p) in InHand(s.queue[0].on) ==> Outstanding(Pop(s), Adopt(p)) == 0
  {
    HeadOk(s);
    assert TokenOk(s, p, {});
    OutstandingPop(s, Adopt(p));
    OutstandingPop(s, AdoptSubscribe(p));
  }

  lemma PopAlls(s: State, a: Id)
    requires Inv(s) && s.queue != [] && a < |s.alls|
    ensures AllOk(Pop(s), a, InHand(s.queue[0].on))
  {
    var r := Pop(s);
    HeadOk(s);
    assert AllOk(s, a, {});
    forall i | 0 <= i < |r.alls[a].done| ensures ElementOk(r, a, i, InHand(s.queue[0].on)) {
      assert ElementOk(s, a, i, {});
      OutstandingPop(s, AllElement(a, i));
    }
  }

  lemma PopKeeps(s: State)
    requires Inv(s) && s.queue != []
    ensures InvExcept(Pop(s), InHand(s.queue[0].on)) && Later(s, Pop(s))
  {
    var r := Pop(s);
    var on := s.queue[0].on;
    HeadOk(s);
    TasksPop(s);
    TasksLater(s, r, {});
    forall p | 0 <= p < |s.cells|
      ensures CellOk(r, p) && HistoryOk(r, p) && TokenOk(r, p, InHand(on)) && FitAll(r, p, r.cells[p].waiting)
    {
      assert HistoryOk(s, p);
      CellLater(s, r, p);
      PopTokens(s, p);
      WaitersLater(s, r, {}, p);
    }
    forall a | 0 <= a < |s.alls| ensures AllOk(r, a, InHand(on)) { PopAlls(s, a); }
    assert OpenOk(r, InHand(on)) by {
      if on.AllElement? {
        assert AllOk(s, on.all, {}) && ElementOk(s, on.all, on.index, {});
        OutstandingPop(s, on);
      } else if on.Adopt? || on.AdoptSubscribe? {
        PopTokens(s, on.outer);
      }
    }
  }

  // ---------------------------------------------------------------- Promise.all

  lemma AllsChanged(s: State, r: State, a: Id, open: set<Reaction>, open': set<Reaction>)
    requires InvExcept(s, open) && a < |s.alls| && |r.alls| == |s.alls| && r == s.(alls := r.alls)
    requires Later(s, r) && AllOk(r, a, open') && OpenOk(r, open')
    requires forall b :: 0 <= b < |s.alls| && b != a ==> r.alls[b] == s.alls[b]
    requires forall on: Reaction :: !(on.AllElement? && on.all == a) ==> (on in open <==> on in open')
    ensures InvExcept(r, open')
  {
    TasksLater(s, r, open);
    forall p | 0 <= p < |s.cells|
      ensures CellOk(r, p) && HistoryOk(r, p) && TokenOk(r, p, open') && FitAll(r, p, r.cells[p].waiting)
    {
      assert CellOk(s, p) && HistoryOk(s, p) && TokenOk(s, p, open);
      WaitersLater(s, r, open, p);
    }
    forall b | 0 <= b < |s.alls| ensures AllOk(r, b, open') {
      if b != a {
        assert AllOk(s, b, open);
        AllFrame(s, r, b, open, open');
      }
    }
  }

  lemma NoteElementKeeps(s: State, a: Id, e: Id, i: nat)
    requires Inv(s) && a < |s.alls| && i == |s.alls[a].elements| < |s.alls[a].done| && e < |s.cells|
    ensures var r := NoteElement(s, a, e);
      InvExcept(r, {AllElement(a, i)}) && Later(s, r) && MaySubscribe(r, {AllElement(a, i)}, e, AllElement(a, i))
  {
    var r := NoteElement(s, a, e);
    var open := {AllElement(a, i)};
    assert AllOk(s, a, {}) && ElementOk(s, a, i, {});
    assert Outstanding(r, AllElement(a, i)) == Outstanding(s, AllElement(a, i));
    forall j | 0 <= j < |r.alls[a].done| ensures ElementOk(r, a, j, open) {
      assert ElementOk(s, a, j, {});
      assert Outstanding(r, AllElement(a, j)) == Outstanding(s, AllElement(a, j));
    }
    AllsChanged(s, r, a, {}, open);
  }

  lemma {:induction false} SubscribeElementsKeeps(s: State, a: Id, values: seq<Value>, i: nat)
    requires Inv(s) && a < |s.alls| && i == |s.alls[a].elements| <= |values| == |s.alls[a].done|
    requires ValidValues(s, values)
    ensures Inv(SubscribeElements(s, a, values, i)) && Later(s, SubscribeElements(s, a, values, i))
    decreases |values| - i
  {
    if i < |values| {
      var (s1, e) := Resolve(s, values[i]);
      ResolveKeeps(s, {}, values[i]);
      var s2 := NoteElement(s1, a, e);
      NoteElementKeeps(s1, a, e, i);
      SubscribeKeeps(s2, {AllElement(a, i)}, e, AllElement(a, i));
      var s3 := Subscribe(s2, e, AllElement(a, i));
      assert {AllElement(a, i)} - {AllElement(a, i)} == {};
      LaterTransitive(s, s1, s2);
      LaterTransitive(s, s2, s3);
      SubscribeElementsKeeps(s3, a, values, i + 1);
      LaterTransitive(s, s3, SubscribeElements(s3, a, values, i + 1));
    }
  }

  ghost function Empty(s: State, n: nat): set<Reaction> {
    if n == 0 then {AllElement(|s.alls|, 0)} else {}
  }

  ghost function NewCombined(s: State): State { NewPromise(s, Combined(|s.alls|)) }

  lemma AllNewOutstanding(s: State, n: nat, on: Reaction)
    requires Inv(NewCombined(s))
    ensures Outstanding(AllNew(s, n), on) == Outstanding(NewCombined(s), on)
    ensures on.AllElement? && on.all == |s.alls| ==> Outstanding(AllNew(s, n), on) == 0
  {
    if on.AllElement? && on.all == |s.alls| && Outstanding(NewCombined(s), on) > 0 {
      OutstandingNamed(NewCombined(s), {}, on);
    }
  }

  lemma AllNewAll(s: State, n: nat, b: Id)
    requires Inv(NewCombined(s)) && Later(NewCombined(s), AllNew(s, n)) && b <= |s.alls|
    ensures AllOk(AllNew(s, n), b, Empty(s, n))
  {
    var s1 := NewCombined(s);
    var r := AllNew(s, n);
    forall i: nat ensures Outstanding(r, AllElement(b, i)) == (if b == |s.alls| then 0 else Outstanding(s1, AllElement(b, i))) {
      AllNewOutstanding(s, n, AllElement(b, i));
    }
    if b < |s.alls| {
      assert AllOk(s1, b, {});
      AllFrame(s1, r, b, {}, Empty(s, n));
    } else {
      CountFalseFresh(n);
      if n == 0 { assert AllElement(b, 0) in Empty(s, n); }
    }
  }

  lemma AllNewKeeps(s: State, n: nat)
    requires Inv(s)
    ensures InvExcept(AllNew(s, n), Empty(s, n)) && Later(s, AllNew(s, n))
  {
    var s1 := NewCombined(s);
    var r := AllNew(s, n);
    MakeKeeps(s, {}, Combined(|s.alls|));
    assert Later(s1, r);
    LaterTransitive(s, s1, r);
    TasksLater(s1, r, {});
    forall p | 0 <= p < |r.cells|
      ensures CellOk(r, p) && HistoryOk(r, p) && TokenOk(r, p, Empty(s, n)) && FitAll(r, p, r.cells[p].waiting)
    {
      assert CellOk(s1, p) && HistoryOk(s1, p) && TokenOk(s1, p, {});
      WaitersLater(s1, r, {}, p);
    }
    forall b | 0 <= b < |r.alls| ensures AllOk(r, b, Empty(s, n)) { AllNewAll(s, n, b); }
    AllNewOutstanding(s, n, AllElement(|s.alls|, 0));
  }

  ghost predicate SettledAs(s: State, p: Id, status: Status) {
    p < |s.cells| && s.cells[p].status == status
  }

  /** A delivery that has been carried out, or never had a place, is no longer in hand. */
  lemma PutDown(s: State, a: Id, i: nat)
    requires InvExcept(s, {AllElement(a, i)}) && a < |s.alls| && AllOk(s, a, {AllElement(a, i)})
    requires i < |s.alls[a].elements| ==> s.alls[a].done[i] || SettledAs(s, s.alls[a].elements[i], Rejected)
    requires s.alls[a].remaining == 0 ==> s.cells[s.alls[a].promise].resolved
    ensures Inv(s)
  {
    var open := {AllElement(a, i)};
    assert AllOk(s, a, open);
    forall j | 0 <= j < |s.alls[a].done| ensures ElementOk(s, a, j, {}) { assert ElementOk(s, a, j, open); }
    assert Later(s, s);
    AllsChanged(s, s, a, open, {});
  }

  lemma PromiseAllKeeps(s: State, values: seq<Value>)
    requires Inv(s) && ValidValues(s, values)
    ensures Inv(PromiseAll(s, values)) && Later(s, PromiseAll(s, values))
  {
    var s1 := AllNew(s, |values|);
    AllNewKeeps(s, |values|);
    if values == [] {
      SettleKeeps(s1, Empty(s, 0), |s.cells|, Results(|s.alls|), false);
      LaterTransitive(s, s1, PromiseAll(s, values));
      assert AllOk(PromiseAll(s, values), |s.alls|, Empty(s, 0));
      PutDown(PromiseAll(s, values), |s.alls|, 0);
    } else {
      SubscribeElementsKeeps(s1, |s.alls|, values, 0);
      LaterTransitive(s, s1, PromiseAll(s, values));
    }
  }

  lemma RecordKeeps(s: State, a: Id, i: nat)
    requires InvExcept(s, {AllElement(a, i)}) && ReactionNames(s, AllElement(a, i))
    requires SettledAs(s, s.alls[a].elements[i], Fulfilled) && !s.alls[a].done[i]
    ensures var r := RecordElement(s, a, i, s.cells[s.alls[a].elements[i]].value);
      InvExcept(r, {AllElement(a, i)}) && Later(s, r)
  {
    var open := {AllElement(a, i)};
    var r := RecordElement(s, a, i, s.cells[s.alls[a].elements[i]].value);
    assert AllOk(s, a, open) && ElementOk(s, a, i, open);
    CountFalseUpdate(s.alls[a].done, i);
    forall on ensures Outstanding(r, on) == Outstanding(s, on) {}
    forall j | 0 <= j < |r.alls[a].done| ensures ElementOk(r, a, j, open) { assert ElementOk(s, a, j, open); }
    assert AllElement(a, i) in open;
    AllsChanged(s, r, a, open, open);
  }

  lemma AllElementReactKeeps(s: State, a: Id, i: nat, q: Id)
    requires InvExcept(s, {AllElement(a, i)}) && ReactionFits(s, q, AllElement(a, i))
    requires Settled(s, q) && !s.alls[a].done[i]
    ensures var r := AllElementReact(s, a, i, s.cells[q].value, s.cells[q].status == Rejected);
      Inv(r) && Later(s, r)
  {
    var open := {AllElement(a, i)};
    var v := s.cells[q].value;
    assert CellOk(s, q) && AllOk(s, a, open);
    var s1 := if s.cells[q].status == Rejected then s else RecordElement(s, a, i, v);
    if s.cells[q].status != Rejected { RecordKeeps(s, a, i); }
    var r := AllElementReact(s, a, i, v, s.cells[q].status == Rejected);
    if s.cells[q].status == Rejected {
      SettleKeeps(s1, open, s.alls[a].promise, v, true);
    } else if s1.alls[a].remaining == 0 {
      SettleKeeps(s1, open, s.alls[a].promise, Results(a), false);
    }
    LaterTransitive(s, s1, r);
    assert AllOk(r, a, open);
    PutDown(r, a, i);
  }

  // ---------------------------------------------------------------- then, finally, await

  lemma ThenKeeps(s: State, p: Id, onFulfilled: Handler, onRejected: Handler)
    requires Inv(s) && p < |s.cells|
    ensures Inv(Then(s, p, onFulfilled, onRejected)) && Later(s, Then(s, p, onFulfilled, onRejected))
  {
    var on := ThenReact(|s.cells|, onFulfilled, onRejected);
    MakeKeeps(s, {}, Owed(p, on));
    PlainSubscribeKeeps(NewPromise(s, Owed(p, on)), p, on);
    LaterTransitive(s, NewPromise(s, Owed(p, on)), Then(s, p, onFulfilled, onRejected));
  }

  lemma FinallyKeeps(s: State, p: Id, onFinally: Handler)
    requires Inv(s) && p < |s.cells|
    ensures Inv(Finally(s, p, onFinally)) && Later(s, Finally(s, p, onFinally))
  {
    var on := FinallyReact(|s.cells|, onFinally);
    MakeKeeps(s, {}, Owed(p, on));
    PlainSubscribeKeeps(NewPromise(s, Owed(p, on)), p, on);
    LaterTransitive(s, NewPromise(s, Owed(p, on)), Finally(s, p, onFinally));
  }

  /** Subscribing a reaction that carries no settlement token. */
  lemma PlainSubscribeKeeps(s: State, q: Id, on: Reaction)
    requires Inv(s) && q < |s.cells| && ReactionFits(s, q, on) && (Resolves(on) || on.AsyncResume?)
    ensures Inv(Subscribe(s, q, on)) && Later(s, Subscribe(s, q, on))
  {
    assert StillOpen({}, on) == {};
    SubscribeKeeps(s, {}, q, on);
  }

  lemma SubscribeAnswerKeeps(s: State, v: Value, on: Reaction)
    requires Inv(s) && ValidValue(s, v) && ReactionNames(s, on)
    requires on.AsyncResume? || (on.FinallyThunk? && s.cells[on.derived].owner == Owed(Resolve(s, v).1, on))
    ensures var (s1, e) := Resolve(s, v); Inv(Subscribe(s1, e, on)) && Later(s, Subscribe(s1, e, on))
  {
    var (s1, e) := Resolve(s, v);
    ResolveKeeps(s, {}, v);
    PlainSubscribeKeeps(s1, e, on);
    LaterTransitive(s, s1, Subscribe(s1, e, on));
  }

  lemma ExecKeeps(s: State, c: Command)
    requires Inv(s)
    ensures Inv(Exec(s, c)) && Later(s, Exec(s, c))
  {
    if Sensible(s, c) {
      match c
      case Make => MakeKeeps(s, {}, Program);
      case Put(p, v, rejected) => SettleKeeps(s, {}, p, v, rejected);
      case ResolveValue(v) => ResolveKeeps(s, {}, v);
      case RejectValue(v) =>
        MakeKeeps(s, {}, Program);
        SettleKeeps(NewPromise(s, Program), {}, |s.cells|, v, true);
        LaterTransitive(s, NewPromise(s, Program), Exec(s, c));
      case CallThen(p, f, g) => ThenKeeps(s, p, f, g);
      case CallFinally(p, f) => FinallyKeeps(s, p, f);
      case CallAll(values) => PromiseAllKeeps(s, values);
      case CallAwait(frame, v) => SubscribeAnswerKeeps(s, v, AsyncResume(frame));
    }
  }

  lemma {:induction false} ExecAllKeeps(s: State, cs: seq<Command>)
    requires Inv(s)
    ensures Inv(ExecAll(s, cs)) && Later(s, ExecAll(s, cs))
    decreases cs
  {
    if cs != [] {
      ExecKeeps(s, cs[0]);
      ExecAllKeeps(Exec(s, cs[0]), cs[1..]);
      LaterTransitive(s, Exec(s, cs[0]), ExecAll(s, cs));
    }
  }

  // ---------------------------------------------------------------- reactions

  lemma CallHandlerKeeps(s: State, derived: Id, turn: Turn)
    requires Inv(s) && derived < |s.cells|
    ensures Inv(CallHandler(s, derived, turn)) && Later(s, CallHandler(s, derived, turn))
  {
    var s1 := ExecAll(s, turn.commands);
    ExecAllKeeps(s, turn.commands);
    SettleKeeps(s1, {}, derived, Completion(s1, turn), turn.threw);
    LaterTransitive(s, s1, CallHandler(s, derived, turn));
  }

  lemma PassThroughKeeps(s: State, d: Id, answer: Value, v: Value, rejected: bool)
    requires Inv(s) && d < |s.cells| && ValidValue(s, answer) && ValidValue(s, v)
    ensures var r := PassThrough(s, d, answer, v, rejected); Inv(r) && Later(s, r)
  {
    var inner := |s.cells|;
    var on := FinallyThunk(inner, v, rejected);
    var s1 := NewPromise(s, Owed(Answerer(s, answer), on));
    var s2 := Settle(s1, d, PromiseRef(inner), false);
    MakeKeeps(s, {}, Owed(Answerer(s, answer), on));
    SettleKeeps(s1, {}, d, PromiseRef(inner), false);
    LaterTransitive(s, s1, s2);
    SubscribeAnswerKeeps(s2, answer, on);
    LaterTransitive(s, s2, PassThrough(s, d, answer, v, rejected));
  }

  lemma FinallyReactKeeps(s: State, d: Id, f: Handler, v: Value, rejected: bool, turn: Turn)
    requires Inv(s) && d < |s.cells| && ValidValue(s, v)
    ensures var r := FinallyReactStep(s, d, f, v, rejected, turn); Inv(r) && Later(s, r)
  {
    var r := FinallyReactStep(s, d, f, v, rejected, turn);
    if f.NotCallable? {
      SettleKeeps(s, {}, d, v, rejected);
    } else {
      var s1 := ExecAll(s, turn.commands);
      ExecAllKeeps(s, turn.commands);
      var answer := Completion(s1, turn);
      if turn.threw {
        SettleKeeps(s1, {}, d, answer, true);
        LaterTransitive(s, s1, r);
      } else {
        PassThroughKeeps(s1, d, answer, v, rejected);
        LaterTransitive(s, s1, r);
      }
    }
  }

  /** What the invariant tells the code that runs the next task. */
  lemma HeadRunnable(s: State)
    requires Inv(s) && s.queue != []
    ensures var t := s.queue[0]; Runnable(Drop(s), t.on, t.value)
    ensures var t := s.queue[0]; t.on.AllElement? ==> !s.alls[t.on.all].done[t.on.index]
  {
    HeadOk(s);
    TasksPop(s);
    var on := s.queue[0].on;
    if on.AllElement? {
      assert AllOk(s, on.all, {}) && ElementOk(s, on.all, on.index, {});
    }
  }

  /** The next task, run by its reaction. */
  function RunTask(s: State, turn: Turn): (r: State)
    requires Inv(s) && s.queue != []
    ensures Inv(r) && Later(s, r)
  {
    HeadRunnable(s);
    RunTaskKeeps(s, turn);
    React(Drop(s), s.queue[0], turn)
  }

  lemma AdoptKeeps(s: State)
    requires Inv(s) && s.queue != [] && s.queue[0].on.Adopt? && s.queue[0].on.outer < |s.cells|
    ensures var t := s.queue[0]; var r := SettleNow(Pop(s), t.on.outer, t.value, t.rejected);
      Inv(r) && Later(Pop(s), r)
  {
    var t := s.queue[0];
    HeadOk(s);
    PopKeeps(s);
    assert CellOk(s, t.source.value);
    assert {t.on} - {t.on} == {};
    SettleNowKeeps(Pop(s), {t.on}, t.on.outer, t.value, t.rejected);
  }

  lemma AdoptSubscribeKeeps(s: State)
    requires Inv(s) && s.queue != [] && s.queue[0].on.AdoptSubscribe?
    requires s.queue[0].value.PromiseRef? && s.queue[0].value.id < |s.cells|
    ensures var t := s.queue[0]; var r := Subscribe(Pop(s), t.value.id, Adopt(t.on.outer));
      Inv(r) && Later(Pop(s), r)
  {
    var t := s.queue[0];
    HeadOk(s);
    PopKeeps(s);
    assert {Adopt(t.on.outer)} - {Adopt(t.on.outer)} == {};
    SubscribeKeeps(Pop(s), {Adopt(t.on.outer)}, t.value.id, Adopt(t.on.outer));
  }

  lemma RunTaskKeeps(s: State, turn: Turn)
    requires Inv(s) && s.queue != [] && Runnable(Drop(s), s.queue[0].on, s.queue[0].value)
    ensures var r := React(Drop(s), s.queue[0], turn); Inv(r) && Later(s, r)
  {
    hide InvExcept, Later, Outstanding, Settle, ExecAll, FinallyReactStep, AllElementReact;
    var t := s.queue[0];
    var s1 := Pop(s);
    HeadOk(s);
    HeadRunnable(s);
    PopKeeps(s);
    match t.on {
      case Adopt(_) => AdoptKeeps(s);
      case AdoptSubscribe(_) => AdoptSubscribeKeeps(s);
      case AllElement(a, i) => AllElementReactKeeps(s1, a, i, t.source.value);
      case ThenReact(d, f, g) =>
        SettleKeeps(s1, {}, d, t.value, t.rejected);
        CallHandlerKeeps(s1, d, turn);
      case FinallyReact(d, f) => FinallyReactKeeps(s1, d, f, t.value, t.rejected, turn);
      case FinallyThunk(d, v, r) =>
        SettleKeeps(s1, {}, d, t.value, true);
        SettleKeeps(s1, {}, d, v, r);
      case AsyncResume(_) => ExecAllKeeps(s1, turn.commands);
    }
    LaterTransitive(s, s1, React(Drop(s), t, turn));
  }

  // ---------------------------------------------------------------- runs

  /** A run: commands of the program, and microtasks with what the program does in each. */
  datatype Event = Script(command: Command) | Microtask(turn: Turn)

  function Step(s: State, e: Event): (r: State)
    requires Inv(s)
    ensures Inv(r) && Later(s, r)
  {
    match e
    case Script(c) => ExecKeeps(s, c); Exec(s, c)
    case Microtask(turn) => if s.queue == [] then s else RunTask(s, turn)
  }

  function Run(s: State, es: seq<Event>): (r: State)
    requires Inv(s)
    ensures Inv(r) && Later(s, r)
    decreases es
  {
    if es == [] then s
    else
      var s1 := Step(s, es[0]);
      var r := Run(s1, es[1..]);
      LaterTransitive(s, s1, r);
      r
  }

  lemma InitialInv()
    ensures Inv(INITIAL)
  {
  }

  ghost function Reached(es: seq<Event>): State {
    InitialInv();
    Run(INITIAL, es)
  }

  lemma {:induction false} RunConcat(s: State, es: seq<Event>, fs: seq<Event>)
    requires Inv(s)
    ensures Run(s, es + fs) == Run(Run(s, es), fs)
    decreases es
  {
    if es == [] {
      assert es + fs == fs;
    } else {
      assert (es + fs)[0] == es[0] && (es + fs)[1..] == es[1..] + fs;
      RunConcat(Step(s, es[0]), es[1..], fs);
    }
  }

  lemma LastStep(es: seq<Event>)
    requires es != []
    ensures var n := |es| - 1; Inv(Reached(es[..n])) && Reached(es) == Step(Reached(es[..n]), es[n])
  {
    var n := |es| - 1;
    InitialInv();
    assert es == es[..n] + [es[n]];
    RunConcat(INITIAL, es[..n], [es[n]]);
    assert Run(Reached(es[..n]), [es[n]]) == Step(Reached(es[..n]), es[n]) by { assert [es[n]][1..] == []; }
  }

  // ---------------------------------------------------------------- laws of every run

  /** A promise settles at most once: no continuation of any run changes its state or its value,
      adoption chains, adoption cycles and self-resolution included. */
  lemma SettledForever(es: seq<Event>, fs: seq<Event>, p: Id)
    requires Settled(Reached(es), p)
    ensures Settled(Reached(es + fs), p)
    ensures Reached(es + fs).cells[p].status == Reached(es).cells[p].status
    ensures Reached(es + fs).cells[p].value == Reached(es).cells[p].value
  {
    InitialInv();
    RunConcat(INITIAL, es, fs);
    assert Later(Reached(es), Reached(es + fs));
  }

  /** Unresolved with no settlement token, settled with none, or resolved and pending with exactly one. */
  lemma ExactlyOneToken(es: seq<Event>, p: Id)
    requires p < |Reached(es).cells|
    ensures var c := Reached(es).cells[p]; var n := Tokens(Reached(es), p);
      || (!c.resolved && c.status == Pending && n == 0)
      || (c.resolved && c.status != Pending && n == 0)
      || (c.resolved && c.status == Pending && n == 1)
  {
    InitialInv();
    assert CellOk(Reached(es), p) && TokenOk(Reached(es), p, {});
  }

  /** `adopt` calls the unguarded state change; the promise it is about to settle is always pending. */
  lemma AdoptFindsPending(es: seq<Event>)
    requires var s := Reached(es); s.queue != [] && s.queue[0].on.Adopt?
    ensures var s := Reached(es); var o := s.queue[0].on.outer;
      o < |s.cells| && s.cells[o].resolved && s.cells[o].status == Pending
  {
    InitialInv();
    HeadOk(Reached(es));
    assert TokenOk(Reached(es), Reached(es).queue[0].on.outer, {});
  }

  /** Subscriptions to `p` = delivered + queued + still registered, each in its place: delivery is
      in subscription order and at most once. */
  lemma DeliveredInOrder(es: seq<Event>, p: Id)
    requires p < |Reached(es).cells|
    ensures var s := Reached(es);
      s.cells[p].history == From(p, s.log) + From(p, s.queue) + s.cells[p].waiting
  {
    InitialInv();
    assert HistoryOk(Reached(es), p);
    FromConcat(p, Reached(es).log, Reached(es).queue);
  }

  /** Every reaction that was or will be run for a promise is handed that promise's own settlement. */
  lemma DeliveredValue(es: seq<Event>, i: nat)
    requires i < |Tasks(Reached(es))| && Tasks(Reached(es))[i].source.Some?
    ensures var s := Reached(es); var t := Tasks(s)[i]; var p := t.source.value;
      Settled(s, p) && t.value == s.cells[p].value && t.rejected == (s.cells[p].status == Rejected)
  {
    InitialInv();
    assert TaskOk(Reached(es), Tasks(Reached(es))[i]);
  }

  /** The rejected promises nobody ever subscribed to. */
  ghost function Orphans(s: State): set<Id> {
    set p | 0 <= p < |s.cells| && s.cells[p].status == Rejected && s.cells[p].history == []
  }

  /** The counter is exactly their number, so it never underflows, and the drain, which reports when
      the queue is empty and the counter is not zero, reports exactly when one remains. */
  lemma UnhandledCountsOrphans(es: seq<Event>)
    ensures Reached(es).unhandled == |Orphans(Reached(es))|
    ensures Reached(es).unhandled > 0 <==>
      exists p :: 0 <= p < |Reached(es).cells| && Reached(es).cells[p].status == Rejected && Reached(es).cells[p].history == []
  {
    InitialInv();
    var s := Reached(es);
    CountOrphans(s, |s.cells|);
    assert s.cells[..|s.cells|] == s.cells;
    assert Orphans(s) == set p | 0 <= p < |s.cells| && s.cells[p].unhandled by {
      forall p | 0 <= p < |s.cells|
        ensures s.cells[p].unhandled <==> s.cells[p].status == Rejected && s.cells[p].history == []
      {
        assert CellOk(s, p);
      }
    }
    if p :| 0 <= p < |s.cells| && s.cells[p].status == Rejected && s.cells[p].history == [] {
      assert p in Orphans(s);
    }
    if |Orphans(s)| > 0 { var p :| p in Orphans(s); }
  }

  lemma {:induction false} CountOrphans(s: State, n: nat)
    requires n <= |s.cells|
    ensures CountUnhandled(s.cells[..n]) == |set p | 0 <= p < n && s.cells[p].unhandled|
  {
    if n > 0 {
      CountOrphans(s, n - 1);
      assert s.cells[..n][..n - 1] == s.cells[..n - 1];
      var before := set p | 0 <= p < n - 1 && s.cells[p].unhandled;
      var now := set p | 0 <= p < n && s.cells[p].unhandled;
      assert now == if s.cells[n - 1].unhandled then before + {n - 1} else before;
      assert CountUnhandled(s.cells[..n]) == CountUnhandled(s.cells[..n - 1]) + if s.cells[n - 1].unhandled then 1 else 0;
    }
  }

  /** A settled promise that adopted another has exactly that promise's state and value; and once the
      queue is empty it has settled if the other one has. */
  lemma AdoptionAgrees(es: seq<Event>, p: Id)
    requires p < |Reached(es).cells| && Reached(es).cells[p].adopting.Some?
    ensures var s := Reached(es); var q := s.cells[p].adopting.value;
      && (Settled(s, p) ==> SameSettlement(s, p, q))
      && (s.queue == [] && Settled(s, q) ==> Settled(s, p))
  {
    InitialInv();
    var s := Reached(es);
    var q := s.cells[p].adopting.value;
    assert CellOk(s, p) && TokenOk(s, p, {});
    if s.queue == [] && !Settled(s, p) {
      var q' := OutstandingWaits(s, if Outstanding(s, Adopt(p)) > 0 then Adopt(p) else AdoptSubscribe(p));
    }
  }

  /** With an empty queue, what is outstanding is registered on a pending promise. */
  lemma OutstandingWaits(s: State, on: Reaction) returns (q: Id)
    requires Inv(s) && s.queue == [] && Outstanding(s, on) > 0
    ensures q < |s.cells| && s.cells[q].status == Pending && ReactionFits(s, q, on)
  {
    q := WaitingMember(on, s.cells);
    assert FitAll(s, q, s.cells[q].waiting) && CellOk(s, q);
    var k :| 0 <= k < |s.cells[q].waiting| && s.cells[q].waiting[k] == on;
  }

  /** Promise.all answers by index: when its counter is at zero every element is fulfilled and the
      results hold their values in input order; and the counter is at zero, and the combined promise
      resolved, once the queue is empty and every element is fulfilled. */
  lemma AllByIndex(es: seq<Event>, a: Id)
    requires a < |Reached(es).alls|
    ensures var s := Reached(es); var all := s.alls[a];
      && |all.elements| <= |all.results|
      && all.promise < |s.cells|
      && (all.remaining == 0 ==>
            && s.cells[all.promise].resolved
            && |all.elements| == |all.results|
            && forall i :: 0 <= i < |all.elements| ==>
                 SettledAs(s, all.elements[i], Fulfilled) && all.results[i] == s.cells[all.elements[i]].value)
      && (s.queue == [] && |all.elements| == |all.results|
            && (forall i :: 0 <= i < |all.elements| ==> SettledAs(s, all.elements[i], Fulfilled)) ==>
            all.remaining == 0)
  {
    InitialInv();
    var s := Reached(es);
    var all := s.alls[a];
    assert AllOk(s, a, {});
    CountFalseZero(all.done);
    forall i | 0 <= i < |all.elements|
      ensures all.done[i] ==> SettledAs(s, all.elements[i], Fulfilled) && all.results[i] == s.cells[all.elements[i]].value
      ensures s.queue == [] && SettledAs(s, all.elements[i], Fulfilled) ==> all.done[i]
    {
      assert ElementOk(s, a, i, {});
      if s.queue == [] && SettledAs(s, all.elements[i], Fulfilled) && !all.done[i] {
        FulfilledElementDelivered(s, a, i);
      }
    }
    if |all.elements| < |all.results| { assert ElementOk(s, a, |all.elements|, {}); }
  }

  lemma FulfilledElementDelivered(s: State, a: Id, i: nat)
    requires Inv(s) && s.queue == [] && a < |s.alls| && i < |s.alls[a].elements|
    requires SettledAs(s, s.alls[a].elements[i], Fulfilled)
    ensures i < |s.alls[a].done| && s.alls[a].done[i]
  {
    assert AllOk(s, a, {}) && ElementOk(s, a, i, {});
    if Outstanding(s, AllElement(a, i)) > 0 { var q := OutstandingWaits(s, AllElement(a, i)); }
  }
}

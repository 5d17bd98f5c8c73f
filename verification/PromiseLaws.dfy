/** The outcome of every promise that then, finally and Promise.all hand out, over whole runs. */
module PromiseLaws {
  import opened Options
  import opened PromiseModel
  import opened PromiseInvariant
  import opened PromiseSteps
  import opened PromiseRun
  import opened PromiseOutcome
  import opened PromiseFate

  // ---------------------------------------------------------------- fair runs

  ghost predicate FairEvent(s: State, e: Event) {
    match e
    case Script(c) => FairCommand(s, c)
    case Microtask(turn) => s.queue != [] ==> FairTurn(s, turn)
  }

  /** Runs in which the program settles only promises whose resolving functions it was given. */
  ghost predicate FairRun(es: seq<Event>) {
    forall k :: 0 <= k < |es| ==> FairEvent(Reached(es[..k]), es[k])
  }

  lemma Shorter(es: seq<Event>, n: nat)
    requires FairRun(es) && n <= |es|
    ensures FairRun(es[..n])
  {
    forall k | 0 <= k < n ensures FairEvent(Reached(es[..n][..k]), es[..n][k]) { assert es[..n][..k] == es[..k]; }
  }

  lemma StepFated(s: State, e: Event)
    requires Inv(s) && Fated(s, {}) && FairEvent(s, e)
    ensures Fated(Step(s, e), {})
  {
    match e
    case Script(c) => ExecFated(s, {}, c);
    case Microtask(turn) => if s.queue != [] { TaskFated(s, turn); }
  }

  lemma {:induction false} ReachedFated(es: seq<Event>)
    requires FairRun(es)
    ensures Inv(Reached(es)) && Fated(Reached(es), {})
  {
    InitialInv();
    if es != [] {
      var n := |es| - 1;
      Shorter(es, n);
      ReachedFated(es[..n]);
      LastStep(es);
      StepFated(Reached(es[..n]), es[n]);
    }
  }

  // ---------------------------------------------------------------- what a promise was resolved with

  /** What becomes of a promise whose resolving functions were first called with this. */
  ghost predicate DecidedAs(s: State, p: Id, v: Value, rejected: bool) {
    && p < |s.cells| && s.cells[p].resolved
    && if rejected || !v.PromiseRef? then s.cells[p].status == StatusOf(rejected) && s.cells[p].value == v
       else if v.id == p then s.cells[p].status == Rejected && s.cells[p].value == CycleError
       else s.cells[p].adopting == Some(v.id)
  }

  lemma DecidedLater(s: State, r: State, p: Id, v: Value, rejected: bool)
    requires DecidedAs(s, p, v, rejected) && Later(s, r)
    ensures DecidedAs(r, p, v, rejected)
  {
  }

  /** What the reaction of the next task calls the resolving functions of its promise with. */
  ghost function Answer(s: State, turn: Turn): (Value, bool)
    requires s.queue != [] && Resolves(s.queue[0].on)
  {
    var t := s.queue[0];
    var s1 := ExecAll(Pop(s), turn.commands);
    match t.on
    case FinallyThunk(_, v, r) => if t.rejected then (t.value, true) else (v, r)
    case FinallyReact(_, _) =>
      if !Called(t) then (t.value, t.rejected)
      else if turn.threw then (Completion(s1, turn), true)
      else (PromiseRef(|s1.cells|), false)
    case _ => if !Called(t) then (t.value, t.rejected) else (Completion(s1, turn), turn.threw)
  }

  lemma SettleDecides(s: State, p: Id, v: Value, rejected: bool)
    requires p < |s.cells| && !s.cells[p].resolved
    ensures DecidedAs(Settle(s, p, v, rejected), p, v, rejected)
  {
  }

  /** A promise whose reaction is running is still unresolved when the program's own code is done. */
  lemma StillOwed(s: State, on: Reaction, cs: seq<Command>)
    requires Inv(s) && Resolves(on) && on.derived < |s.cells| && s.cells[on.derived].owner.Owed? && s.cells[on.derived].owner.on == on
    requires Fated(s, {on}) && Fair(s, cs)
    ensures var r := ExecAll(s, cs);
      Inv(r) && Later(s, r) && Fated(r, {on}) && on.derived < |r.cells| && !r.cells[on.derived].resolved
  {
    ExecAllKeeps(s, cs);
    ExecAllFated(s, {on}, cs);
    assert Pays(ExecAll(s, cs), on.derived, {on});
  }

  lemma PassThroughDecides(s: State, d: Id, answer: Value, v: Value, rejected: bool)
    requires Inv(s) && d < |s.cells| && !s.cells[d].resolved && ValidValue(s, answer) && ValidValue(s, v)
    ensures var r := PassThrough(s, d, answer, v, rejected); var inner := |s.cells|;
      && DecidedAs(r, d, PromiseRef(inner), false)
      && inner < |r.cells| && r.cells[inner].owner == Owed(Answerer(s, answer), FinallyThunk(inner, v, rejected))
      && (!answer.PromiseRef? ==> SettledAs(r, Answerer(s, answer), Fulfilled))
  {
    hide InvExcept;
    var inner := |s.cells|;
    var on := FinallyThunk(inner, v, rejected);
    var s1 := NewPromise(s, Owed(Answerer(s, answer), on));
    var s2 := Settle(s1, d, PromiseRef(inner), false);
    MakeKeeps(s, {}, Owed(Answerer(s, answer), on));
    SettleKeeps(s1, {}, d, PromiseRef(inner), false);
    SettleDecides(s1, d, PromiseRef(inner), false);
    SubscribeAnswerKeeps(s2, answer, on);
    DecidedLater(s2, PassThrough(s, d, answer, v, rejected), d, PromiseRef(inner), false);
  }

  /** A reaction that is to resolve a promise resolves it with its answer. */
  lemma TaskDecides(s: State, turn: Turn)
    requires Inv(s) && Fated(s, {}) && s.queue != [] && FairTurn(s, turn) && Resolves(s.queue[0].on)
    ensures var (v, rejected) := Answer(s, turn); DecidedAs(RunTask(s, turn), s.queue[0].on.derived, v, rejected)
  {
    hide InvExcept, Fated, Later, Settle, Subscribe, Fair, ExecAll, PassThrough, DecidedAs;
    var t := s.queue[0];
    var s1 := Pop(s);
    HeadOk(s);
    HeadRunnable(s);
    HeadOwes(s);
    PopKeeps(s);
    PopFated(s);
    if Called(t) {
      StillOwed(s1, t.on, turn.commands);
      var s2 := ExecAll(s1, turn.commands);
      if t.on.ThenReact? || turn.threw {
        SettleDecides(s2, t.on.derived, Completion(s2, turn), turn.threw);
      } else {
        ValueLater(s1, s2, t.value);
        PassThroughDecides(s2, t.on.derived, Completion(s2, turn), t.value, t.rejected);
      }
    } else {
      var (v, rejected) := Answer(s, turn);
      SettleDecides(s1, t.on.derived, v, rejected);
    }
  }

  lemma ValueLater(s: State, r: State, v: Value)
    requires Later(s, r) && ValidValue(s, v)
    ensures ValidValue(r, v)
  {
  }

  // ---------------------------------------------------------------- nobody else resolves it

  /** From `s` to `r` no owed promise was resolved, but perhaps `d`. */
  ghost predicate NonePaid(s: State, r: State, d: set<Id>) {
    && |s.cells| <= |r.cells|
    && (forall p :: 0 <= p < |s.cells| ==> r.cells[p].owner == s.cells[p].owner)
    && (forall p :: 0 <= p < |r.cells| && p !in d && r.cells[p].owner.Owed? && r.cells[p].resolved ==>
          p < |s.cells| && s.cells[p].resolved)
  }

  lemma NonePaidTransitive(s: State, t: State, u: State, d: set<Id>)
    requires NonePaid(s, t, d) && NonePaid(t, u, d)
    ensures NonePaid(s, u, d)
  {
  }

  lemma ExecNonePaid(s: State, c: Command)
    requires FairCommand(s, c)
    ensures NonePaid(s, Exec(s, c), {})
  {
    ExecOutside(s, c);
  }

  lemma {:induction false} ExecAllNonePaid(s: State, cs: seq<Command>)
    requires Fair(s, cs)
    ensures NonePaid(s, ExecAll(s, cs), {})
    decreases cs
  {
    if cs != [] {
      ExecNonePaid(s, cs[0]);
      ExecAllNonePaid(Exec(s, cs[0]), cs[1..]);
      NonePaidTransitive(s, Exec(s, cs[0]), ExecAll(s, cs), {});
    }
  }

  lemma SettleNonePaid(s: State, p: Id, v: Value, rejected: bool)
    requires p < |s.cells|
    ensures NonePaid(s, Settle(s, p, v, rejected), {p})
    ensures !s.cells[p].owner.Owed? ==> NonePaid(s, Settle(s, p, v, rejected), {})
  {
  }

  lemma PassThroughNonePaid(s: State, d: Id, answer: Value, v: Value, rejected: bool)
    requires d < |s.cells| && ValidValue(s, answer)
    ensures NonePaid(s, PassThrough(s, d, answer, v, rejected), {d})
  {
    var on := FinallyThunk(|s.cells|, v, rejected);
    var s1 := NewPromise(s, Owed(Answerer(s, answer), on));
    var s2 := Settle(s1, d, PromiseRef(|s.cells|), false);
    OutsideAnswer(s2, answer, on);
  }

  lemma HandlerNonePaid(s: State, d: Id, turn: Turn)
    requires Fair(s, turn.commands) && d < |s.cells|
    ensures NonePaid(s, CallHandler(s, d, turn), {d})
  {
    var s1 := ExecAll(s, turn.commands);
    ExecAllNonePaid(s, turn.commands);
    SettleNonePaid(s1, d, Completion(s1, turn), turn.threw);
    hide Settle;
  }

  lemma FinallyNonePaid(s: State, d: Id, f: Handler, v: Value, rejected: bool, turn: Turn)
    requires (f.Callable? ==> Fair(s, turn.commands)) && d < |s.cells|
    ensures NonePaid(s, FinallyReactStep(s, d, f, v, rejected, turn), {d})
  {
    hide Settle, PassThrough;
    if f.NotCallable? {
      SettleNonePaid(s, d, v, rejected);
    } else {
      var s1 := ExecAll(s, turn.commands);
      ExecAllNonePaid(s, turn.commands);
      if turn.threw { SettleNonePaid(s1, d, Completion(s1, turn), true); }
      else { PassThroughNonePaid(s1, d, Completion(s1, turn), v, rejected); }
    }
  }

  lemma TaskNonePaid(s: State, turn: Turn)
    requires Inv(s) && Fated(s, {}) && s.queue != [] && FairTurn(s, turn)
    ensures NonePaid(s, RunTask(s, turn), if Resolves(s.queue[0].on) then {s.queue[0].on.derived} else {})
  {
    hide InvExcept, Fated, Later, Subscribe, Fair, ExecAll, Settle, CallHandler, FinallyReactStep, SettleNow;
    var t := s.queue[0];
    var s1 := Pop(s);
    HeadOk(s);
    HeadRunnable(s);
    match t.on {
      case Adopt(o) => AdoptNonePaid(s);
      case AdoptSubscribe(o) => OutsideSubscribe(s1, t.value.id, Adopt(o));
      case AllElement(a, i) =>
        CombinedOwner(s, a);
        ElementNonePaid(s1, a, i, t.value, t.rejected);
      case ThenReact(d, f, g) =>
        if Called(t) { HandlerNonePaid(s1, d, turn); } else { SettleNonePaid(s1, d, t.value, t.rejected); }
      case FinallyReact(d, f) => FinallyNonePaid(s1, d, f, t.value, t.rejected, turn);
      case FinallyThunk(d, v, r) =>
        SettleNonePaid(s1, d, t.value, true);
        SettleNonePaid(s1, d, v, r);
      case AsyncResume(_) => ExecAllNonePaid(s1, turn.commands);
    }
  }

  lemma ElementNonePaid(s: State, a: Id, i: nat, v: Value, rejected: bool)
    requires a < |s.alls| && i < |s.alls[a].results| && i < |s.alls[a].done| && s.alls[a].promise < |s.cells|
    requires !s.cells[s.alls[a].promise].owner.Owed?
    ensures NonePaid(s, AllElementReact(s, a, i, v, rejected), {})
  {
  }

  lemma AdoptNonePaid(s: State)
    requires Inv(s) && s.queue != [] && s.queue[0].on.Adopt? && s.queue[0].on.outer < |s.cells|
    ensures var t := s.queue[0]; NonePaid(s, SettleNow(Pop(s), t.on.outer, t.value, t.rejected), {})
  {
    HeadOk(s);
    assert TokenOk(s, s.queue[0].on.outer, {});
  }

  lemma CombinedOwner(s: State, a: Id)
    requires Fated(s, {}) && a < |s.alls|
    ensures s.alls[a].promise < |s.cells| && s.cells[s.alls[a].promise].owner == Combined(a)
  {
    assert AllFate(s, a);
  }

  lemma StepNonePaid(s: State, e: Event, p: Id)
    requires Inv(s) && Fated(s, {}) && FairEvent(s, e)
    requires var r := Step(s, e); p < |r.cells| && r.cells[p].owner.Owed? && r.cells[p].resolved
    requires p < |s.cells| ==> !s.cells[p].resolved
    ensures e.Microtask? && s.queue != [] && Resolves(s.queue[0].on) && s.queue[0].on.derived == p
    ensures p < |s.cells| && s.cells[p].owner == Step(s, e).cells[p].owner && s.cells[p].owner.on == s.queue[0].on
  {
    match e
    case Script(c) => ExecNonePaid(s, c);
    case Microtask(turn) =>
      if s.queue != [] {
        TaskNonePaid(s, turn);
        if Resolves(s.queue[0].on) { HeadOwes(s); }
      }
  }

  // ---------------------------------------------------------------- over whole runs

  /** The `k`-th event of the run is the microtask of this reaction. */
  ghost predicate RunsAt(es: seq<Event>, k: nat, on: Reaction) {
    && k < |es| && es[k].Microtask?
    && Reached(es[..k]).queue != [] && Reached(es[..k]).queue[0].on == on
  }

  ghost predicate ResolvedAt(es: seq<Event>, k: nat, p: Id, on: Reaction) {
    && RunsAt(es, k, on) && Resolves(on) && on.derived == p
    && var (v, rejected) := Answer(Reached(es[..k]), es[k].turn);
       DecidedAs(Reached(es), p, v, rejected)
  }

  /** A promise that a reaction owes is resolved by that reaction alone, with its answer, and by nothing
      else whatever the program does; and it is once the queue is empty and its source has settled. */
  lemma {:induction false} OwedOutcome(es: seq<Event>, p: Id)
    requires FairRun(es) && p < |Reached(es).cells| && Reached(es).cells[p].owner.Owed?
    ensures var s := Reached(es); var owner := s.cells[p].owner;
      && (s.cells[p].resolved ==> exists k :: ResolvedAt(es, k, p, owner.on))
      && (s.queue == [] && Settled(s, owner.source) ==> s.cells[p].resolved)
  {
    ReachedFated(es);
    var s := Reached(es);
    var owner := s.cells[p].owner;
    assert Pays(s, p, {});
    if s.queue == [] && !s.cells[p].resolved {
      var q := OutstandingWaits(s, owner.on);
    }
    if s.cells[p].resolved { var k := WhenResolved(es, p); }
  }

  lemma {:induction false} WhenResolved(es: seq<Event>, p: Id) returns (k: nat)
    requires FairRun(es) && p < |Reached(es).cells| && Reached(es).cells[p].owner.Owed? && Reached(es).cells[p].resolved
    ensures ResolvedAt(es, k, p, Reached(es).cells[p].owner.on)
  {
    hide InvExcept, Fated, Later, Step, Answer, FairEvent;
    InitialInv();
    var n := |es| - 1;
    var s := Reached(es[..n]);
    LastStep(es);
    Shorter(es, n);
    ReachedFated(es[..n]);
    assert es[..n] == es[..|es| - 1];
    var e := es[n];
    StepGrows(s, e);
    if p < |s.cells| && s.cells[p].resolved {
      k := WhenResolved(es[..n], p);
      assert es[..n][..k] == es[..k];
      var (v, rejected) := Answer(Reached(es[..k]), es[k].turn);
      DecidedLater(s, Reached(es), p, v, rejected);
    } else {
      StepNonePaid(s, e, p);
      FairTask(s, e);
      TaskDecides(s, e.turn);
      k := n;
    }
  }

  lemma StepGrows(s: State, e: Event)
    requires Inv(s)
    ensures Later(s, Step(s, e)) && |s.cells| <= |Step(s, e).cells|
    ensures forall p :: 0 <= p < |s.cells| ==> Step(s, e).cells[p].owner == s.cells[p].owner
  {
  }

  lemma FairTask(s: State, e: Event)
    requires Inv(s) && FairEvent(s, e) && e.Microtask? && s.queue != []
    ensures FairTurn(s, e.turn) && Step(s, e) == RunTask(s, e.turn)
  {
  }

  // ---------------------------------------------------------------- then and finally

  ghost predicate Kept(es: seq<Event>, k: nat)
    requires k <= |es|
  {
    Inv(Reached(es[..k])) && Later(Reached(es[..k]), Reached(es))
  }

  lemma KeptAt(es: seq<Event>, k: nat)
    requires k <= |es|
    ensures Kept(es, k)
  {
    InitialInv();
    assert es == es[..k] + es[k..];
    RunConcat(INITIAL, es[..k], es[k..]);
  }

  /** What the running reaction of a promise was handed: its source's settlement. */
  lemma Handed(es: seq<Event>, k: nat, on: Reaction)
    requires FairRun(es) && RunsAt(es, k, on) && Resolves(on)
    ensures var s := Reached(es); var t := Reached(es[..k]).queue[0];
      && on.derived < |s.cells| && s.cells[on.derived].owner.Owed? && s.cells[on.derived].owner.on == on
      && var q := s.cells[on.derived].owner.source;
         Settled(s, q) && t.value == s.cells[q].value && t.rejected == (s.cells[q].status == Rejected)
         && (s.cells[q].status == Fulfilled ==> !t.value.PromiseRef?)
  {
    var s0 := Reached(es[..k]);
    Shorter(es, k);
    ReachedFated(es[..k]);
    KeptAt(es, k);
    HeadOk(s0);
    HeadOwes(s0);
    assert CellOk(s0, s0.queue[0].source.value);
  }

  /** A promise from `then`: without a callable handler for what its source came to, it comes to the same;
      with one, to what the handler returned or threw in the turn it ran. */
  lemma ThenOutcome(es: seq<Event>, d: Id)
    requires FairRun(es) && d < |Reached(es).cells|
    requires Reached(es).cells[d].owner.Owed? && Reached(es).cells[d].owner.on.ThenReact?
    ensures var s := Reached(es); var q, on := s.cells[d].owner.source, s.cells[d].owner.on;
      && (s.queue == [] && Settled(s, q) ==> s.cells[d].resolved)
      && (s.cells[d].resolved ==>
            && Settled(s, q)
            && var handler := if s.cells[q].status == Rejected then on.onRejected else on.onFulfilled;
               if handler.NotCallable? then SameSettlement(s, d, q)
               else exists k :: RunsAt(es, k, on) && Returned(es, k, d))
  {
    hide InvExcept, FairRun, ExecAll, Reached, Completion, Pop;
    OwedOutcome(es, d);
    if Reached(es).cells[d].resolved {
      var k := WhenResolved(es, d);
      Handed(es, k, Reached(es).cells[d].owner.on);
      assert RunsAt(es, k, Reached(es).cells[d].owner.on);
    }
  }

  /** `d` is what the program's function came to in the `k`-th event. */
  ghost predicate Returned(es: seq<Event>, k: nat, d: Id)
    requires k < |es| && es[k].Microtask? && Reached(es[..k]).queue != []
  {
    var s1 := ExecAll(Pop(Reached(es[..k])), es[k].turn.commands);
    DecidedAs(Reached(es), d, Completion(s1, es[k].turn), es[k].turn.threw)
  }

  /** `d` follows what the callback of `finally` answered: if `e`, which the answer became, is rejected, so
      is `d`, and if it is fulfilled, `d` comes to what the source `q` came to. */
  ghost predicate PassesOn(s: State, d: Id, q: Id, e: Id) {
    Settled(s, d) ==>
      && Settled(s, e)
      && if s.cells[e].status == Rejected then s.cells[d].status == Rejected && s.cells[d].value == s.cells[e].value
         else SameSettlement(s, d, q)
  }

  ghost predicate Answered(s: State, answer: Value, e: Id) {
    e < |s.cells| && if answer.PromiseRef? then e == answer.id else SettledAs(s, e, Fulfilled)
  }

  /** A promise from `finally`: without a callable it comes to what its source came to; if the callback
      threw, it is rejected with that; else the source's settlement passes through unless the answer rejects. */
  lemma FinallyOutcome(es: seq<Event>, d: Id)
    requires FairRun(es) && d < |Reached(es).cells|
    requires Reached(es).cells[d].owner.Owed? && Reached(es).cells[d].owner.on.FinallyReact?
    ensures var s := Reached(es); var q, on := s.cells[d].owner.source, s.cells[d].owner.on;
      && (s.queue == [] && Settled(s, q) ==> s.cells[d].resolved)
      && (s.cells[d].resolved ==>
            && Settled(s, q)
            && if on.onFinally.NotCallable? then SameSettlement(s, d, q)
               else exists k :: RunsAt(es, k, on) && CallbackDecides(es, k, d, q))
  {
    hide InvExcept, FairRun, ExecAll, Reached, Completion, Pop, PassesOn, Answered;
    OwedOutcome(es, d);
    var s := Reached(es);
    var q, on := s.cells[d].owner.source, s.cells[d].owner.on;
    if s.cells[d].resolved {
      var k := WhenResolved(es, d);
      Handed(es, k, on);
      if on.onFinally.Callable? {
        if !es[k].turn.threw { ThunkOutcome(es, k, d, q); }
        assert RunsAt(es, k, on) && CallbackDecides(es, k, d, q);
      }
    }
  }

  ghost predicate CallbackDecides(es: seq<Event>, k: nat, d: Id, q: Id)
    requires k < |es| && es[k].Microtask? && Reached(es[..k]).queue != []
  {
    var s1 := ExecAll(Pop(Reached(es[..k])), es[k].turn.commands);
    var answer := Completion(s1, es[k].turn);
    if es[k].turn.threw then DecidedAs(Reached(es), d, answer, true)
    else exists e :: Answered(Reached(es), answer, e) && PassesOn(Reached(es), d, q, e)
  }

  /** The intermediate promise that the `k`-th event made, seen from the end of the run. */
  lemma InnerPromise(es: seq<Event>, k: nat, on: Reaction)
    requires FairRun(es) && RunsAt(es, k, on) && on.FinallyReact? && on.onFinally.Callable? && !es[k].turn.threw
    ensures var s := Reached(es); var t := Reached(es[..k]).queue[0];
      var s1 := ExecAll(Pop(Reached(es[..k])), es[k].turn.commands);
      var answer := Completion(s1, es[k].turn);
      var inner, e := |s1.cells|, Answerer(s1, answer);
      && inner < |s.cells| && s.cells[inner].owner == Owed(e, FinallyThunk(inner, t.value, t.rejected))
      && Answered(s, answer, e)
  {
    hide InvExcept, Fated, Fair, ExecAll, PassThrough, FairEvent, Later, Completion, Answered, DecidedAs;
    var s0 := Reached(es[..k]);
    var t := s0.queue[0];
    Shorter(es, k);
    ReachedFated(es[..k]);
    HeadOk(s0);
    HeadRunnable(s0);
    HeadOwes(s0);
    PopKeeps(s0);
    PopFated(s0);
    FairTask(s0, es[k]);
    StillOwed(Pop(s0), on, es[k].turn.commands);
    var s1 := ExecAll(Pop(s0), es[k].turn.commands);
    var answer := Completion(s1, es[k].turn);
    ValueLater(Pop(s0), s1, t.value);
    PassThroughDecides(s1, on.derived, answer, t.value, t.rejected);
    KeptAt(es, k + 1);
    LastStep(es[..k + 1]);
    assert es[..k + 1][..k] == es[..k];
    assert Reached(es[..k + 1]) == PassThrough(s1, on.derived, answer, t.value, t.rejected);
    AnsweredLater(Reached(es[..k + 1]), Reached(es), answer, Answerer(s1, answer));
    OwnerLater(Reached(es[..k + 1]), Reached(es), |s1.cells|);
  }

  lemma OwnerLater(s: State, r: State, p: Id)
    requires Later(s, r) && p < |s.cells|
    ensures p < |r.cells| && r.cells[p].owner == s.cells[p].owner
  {
  }

  lemma AnsweredLater(s: State, r: State, answer: Value, e: Id)
    requires Later(s, r) && ValidValue(s, answer) && (!answer.PromiseRef? ==> SettledAs(s, e, Fulfilled))
    requires answer.PromiseRef? ==> e == answer.id
    ensures Answered(r, answer, e)
  {
  }

  lemma ThunkOutcome(es: seq<Event>, k: nat, d: Id, q: Id)
    requires FairRun(es) && d < |Reached(es).cells| && Reached(es).cells[d].owner.Owed?
    requires var on := Reached(es).cells[d].owner.on;
      && on.FinallyReact? && on.onFinally.Callable? && Reached(es).cells[d].owner.source == q
      && ResolvedAt(es, k, d, on) && !es[k].turn.threw
    ensures CallbackDecides(es, k, d, q)
  {
    hide InvExcept, FairRun, ExecAll, Reached, Completion, Pop, Answered, Fated;
    var s := Reached(es);
    var on := s.cells[d].owner.on;
    var t := Reached(es[..k]).queue[0];
    var s1 := ExecAll(Pop(Reached(es[..k])), es[k].turn.commands);
    var answer := Completion(s1, es[k].turn);
    var inner, e := |s1.cells|, Answerer(s1, answer);
    Handed(es, k, on);
    InnerPromise(es, k, on);
    if Settled(s, d) {
      InnerApart(es, k, d);
      AdoptionAgrees(es, d);
      SettledIsResolved(es, inner);
      var j := WhenResolved(es, inner);
      Handed(es, j, s.cells[inner].owner.on);
    }
    assert PassesOn(s, d, q, e);
  }

  lemma SettledIsResolved(es: seq<Event>, p: Id)
    requires Settled(Reached(es), p)
    ensures Reached(es).cells[p].resolved
  {
    InitialInv();
    assert CellOk(Reached(es), p);
  }

  /** The intermediate promise is not the one it is for. */
  lemma InnerApart(es: seq<Event>, k: nat, d: Id)
    requires FairRun(es) && d < |Reached(es).cells| && Reached(es).cells[d].owner.Owed?
    requires RunsAt(es, k, Reached(es).cells[d].owner.on)
    requires Resolves(Reached(es).cells[d].owner.on) && Reached(es).cells[d].owner.on.derived == d
    ensures |ExecAll(Pop(Reached(es[..k])), es[k].turn.commands).cells| > d
  {
    var s0 := Reached(es[..k]);
    Shorter(es, k);
    ReachedFated(es[..k]);
    HeadOwes(s0);
    assert Grows(Pop(s0), ExecAll(Pop(s0), es[k].turn.commands));
  }

  // ---------------------------------------------------------------- Promise.all

  /** Every element has its reaction, which its promise knows of. */
  ghost predicate Noted(s: State, a: Id, n: nat)
    requires a < |s.alls|
  {
    var all := s.alls[a];
    && |all.elements| == n
    && forall i :: 0 <= i < n ==> all.elements[i] < |s.cells| && AllElement(a, i) in s.cells[all.elements[i]].history
  }

  ghost predicate AllNoted(s: State) { forall a :: 0 <= a < |s.alls| ==> Noted(s, a, |s.alls[a].results|) }

  lemma NotedLater(s: State, r: State, a: Id, n: nat)
    requires Later(s, r) && a < |s.alls| && Noted(s, a, n) && |r.alls[a].elements| == n
    ensures Noted(r, a, n)
  {
    assert r.alls[a].elements == s.alls[a].elements;
  }

  lemma {:induction false} ElementsNoted(s: State, a: Id, values: seq<Value>, i: nat)
    requires Inv(s) && a < |s.alls| && i == |s.alls[a].elements| <= |values| == |s.alls[a].done| && ValidValues(s, values)
    requires Noted(s, a, i)
    ensures Noted(SubscribeElements(s, a, values, i), a, |values|)
    decreases |values| - i
  {
    hide InvExcept, Noted, Later;
    if i < |values| {
      var on := AllElement(a, i);
      var (s1, e) := Resolve(s, values[i]);
      ResolveKeeps(s, {}, values[i]);
      NoteElementKeeps(s1, a, e, i);
      var s2 := NoteElement(s1, a, e);
      SubscribeKeeps(s2, {on}, e, on);
      assert {on} - {on} == {};
      ElementNoted(s, s1, a, e, i);
      ElementsNoted(Subscribe(s2, e, on), a, values, i + 1);
    }
  }

  lemma ElementNoted(s: State, s1: State, a: Id, e: Id, i: nat)
    requires a < |s.alls| && Noted(s, a, i) && Later(s, s1) && s1.alls == s.alls && e < |s1.cells|
    ensures Noted(Subscribe(NoteElement(s1, a, e), e, AllElement(a, i)), a, i + 1)
  {
  }

  lemma AllIsNoted(s: State, values: seq<Value>)
    requires Inv(s) && ValidValues(s, values)
    ensures var r := PromiseAll(s, values); |r.alls| == |s.alls| + 1 && Noted(r, |s.alls|, |values|)
  {
    AllNewKeeps(s, |values|);
    if values != [] {
      ElementsNoted(AllNew(s, |values|), |s.alls|, values, 0);
      SameAlls(AllNew(s, |values|), |s.alls|, values, 0);
    }
  }

  lemma {:induction false} SameAlls(s: State, a: Id, values: seq<Value>, i: nat)
    requires a < |s.alls| && i <= |values| && ValidValues(s, values)
    ensures |SubscribeElements(s, a, values, i).alls| == |s.alls|
    decreases |values| - i
  {
    if i < |values| {
      var (s1, e) := Resolve(s, values[i]);
      SameAlls(Subscribe(NoteElement(s1, a, e), e, AllElement(a, i)), a, values, i + 1);
    }
  }

  lemma OldNoted(s: State, r: State)
    requires AllNoted(s) && Inv(r) && Later(s, r)
    ensures forall a :: 0 <= a < |s.alls| ==> Noted(r, a, |r.alls[a].results|)
  {
    forall a | 0 <= a < |s.alls| ensures Noted(r, a, |r.alls[a].results|) {
      assert AllOk(r, a, {});
      assert Noted(s, a, |s.alls[a].results|);
      NotedLater(s, r, a, |s.alls[a].results|);
    }
  }

  lemma ExecNoted(s: State, c: Command)
    requires Inv(s) && AllNoted(s)
    ensures AllNoted(Exec(s, c))
  {
    ExecKeeps(s, c);
    OldNoted(s, Exec(s, c));
    if Sensible(s, c) && c.CallAll? {
      AllIsNoted(s, c.values);
      AllResults(s, c.values);
    } else {
      SameCount(s, c);
    }
  }

  lemma AllResults(s: State, values: seq<Value>)
    requires ValidValues(s, values)
    ensures |PromiseAll(s, values).alls[|s.alls|].results| == |values|
  {
  }

  lemma SameCount(s: State, c: Command)
    requires !(Sensible(s, c) && c.CallAll?)
    ensures |Exec(s, c).alls| == |s.alls|
  {
  }

  lemma {:induction false} ExecAllNoted(s: State, cs: seq<Command>)
    requires Inv(s) && AllNoted(s)
    ensures AllNoted(ExecAll(s, cs))
    decreases cs
  {
    hide AllNoted, InvExcept, Later;
    if cs != [] {
      ExecNoted(s, cs[0]);
      ExecKeeps(s, cs[0]);
      ExecAllNoted(Exec(s, cs[0]), cs[1..]);
    }
  }

  /** Nothing is forgotten, and no Promise.all is begun. */
  ghost predicate Remembers(s: State, r: State) {
    && |r.alls| == |s.alls| && |s.cells| <= |r.cells|
    && (forall a :: 0 <= a < |s.alls| ==> r.alls[a].elements == s.alls[a].elements && |r.alls[a].results| == |s.alls[a].results|)
    && (forall p :: 0 <= p < |s.cells| ==> s.cells[p].history <= r.cells[p].history)
  }

  lemma RemembersNoted(s: State, r: State)
    requires AllNoted(s) && Remembers(s, r)
    ensures AllNoted(r)
  {
    forall a | 0 <= a < |r.alls| ensures Noted(r, a, |r.alls[a].results|) { assert Noted(s, a, |s.alls[a].results|); }
  }

  lemma SameRemembers(s: State)
    ensures Remembers(s, s)
  {
  }

  lemma AdoptRemembers(s: State, p: Id, v: Value, rejected: bool)
    requires p < |s.cells|
    ensures Remembers(s, SettleNow(s, p, v, rejected))
  {
  }

  lemma SubscribeRemembers(s: State, p: Id, on: Reaction)
    requires p < |s.cells|
    ensures Remembers(s, Subscribe(s, p, on))
  {
  }

  lemma SettleRemembers(s: State, p: Id, v: Value, rejected: bool)
    requires p < |s.cells|
    ensures Remembers(s, Settle(s, p, v, rejected))
  {
  }

  lemma AnswerRemembers(s: State, v: Value, on: Reaction)
    requires ValidValue(s, v)
    ensures var (s1, e) := Resolve(s, v); Remembers(s, Subscribe(s1, e, on))
  {
  }

  lemma PassThroughRemembers(s: State, d: Id, answer: Value, v: Value, rejected: bool)
    requires d < |s.cells| && ValidValue(s, answer)
    ensures Remembers(s, PassThrough(s, d, answer, v, rejected))
  {
    var on := FinallyThunk(|s.cells|, v, rejected);
    var s1 := NewPromise(s, Owed(Answerer(s, answer), on));
    SettleRemembers(s1, d, PromiseRef(|s.cells|), false);
    AnswerRemembers(Settle(s1, d, PromiseRef(|s.cells|), false), answer, on);
    hide Settle, Resolve, Subscribe;
  }

  lemma ElementRemembers(s: State, a: Id, i: nat, v: Value, rejected: bool)
    requires a < |s.alls| && i < |s.alls[a].results| && i < |s.alls[a].done| && s.alls[a].promise < |s.cells|
    ensures Remembers(s, AllElementReact(s, a, i, v, rejected))
  {
  }

  /** After the program's own code, a reaction only settles and subscribes. */
  lemma ReactionRemembers(s: State, turn: Turn)
    requires Inv(s) && s.queue != []
    ensures Remembers(if Called(s.queue[0]) then ExecAll(Pop(s), turn.commands) else Pop(s), RunTask(s, turn))
  {
    hide InvExcept, Later, Settle, ExecAll, PassThrough, AllElementReact, Subscribe, SettleNow, Remembers;
    var t := s.queue[0];
    HeadOk(s);
    HeadRunnable(s);
    var s2 := if Called(t) then ExecAll(Pop(s), turn.commands) else Pop(s);
    match t.on {
      case AllElement(a, i) =>
        ElementRemembers(s2, a, i, t.value, t.rejected);
      case ThenReact(d, _, _) =>
        SettleRemembers(s2, d, t.value, t.rejected);
        SettleRemembers(s2, d, Completion(s2, turn), turn.threw);
      case FinallyReact(d, _) =>
        SettleRemembers(s2, d, t.value, t.rejected);
        SettleRemembers(s2, d, Completion(s2, turn), true);
        PassThroughRemembers(s2, d, Completion(s2, turn), t.value, t.rejected);
      case FinallyThunk(d, v, r) =>
        SettleRemembers(s2, d, t.value, true);
        SettleRemembers(s2, d, v, r);
      case Adopt(o) => AdoptRemembers(s2, o, t.value, t.rejected);
      case AdoptSubscribe(o) => SubscribeRemembers(s2, t.value.id, Adopt(o));
      case AsyncResume(_) => SameRemembers(s2);
    }
  }

  lemma TaskNoted(s: State, turn: Turn)
    requires Inv(s) && AllNoted(s) && s.queue != []
    ensures AllNoted(RunTask(s, turn))
  {
    ReactionRemembers(s, turn);
    var s1 := Pop(s);
    assert AllNoted(s1) by { assert forall a :: 0 <= a < |s.alls| && Noted(s, a, |s.alls[a].results|) ==> Noted(s1, a, |s.alls[a].results|); }
    var s2 := if Called(s.queue[0]) then ExecAll(s1, turn.commands) else s1;
    if Called(s.queue[0]) {
      CalledKeeps(s);
      ExecAllNoted(s1, turn.commands);
    }
    RemembersNoted(s2, RunTask(s, turn));
  }

  lemma CalledKeeps(s: State)
    requires Inv(s) && s.queue != [] && Called(s.queue[0])
    ensures Inv(Pop(s))
  {
    PopKeeps(s);
  }

  lemma {:induction false} ReachedNoted(es: seq<Event>)
    ensures Inv(Reached(es)) && AllNoted(Reached(es))
  {
    InitialInv();
    if es != [] {
      var n := |es| - 1;
      ReachedNoted(es[..n]);
      LastStep(es);
      match es[n]
      case Script(c) => ExecNoted(Reached(es[..n]), c);
      case Microtask(turn) => if Reached(es[..n]).queue != [] { TaskNoted(Reached(es[..n]), turn); }
    }
  }

  /** The combined promise is fulfilled, with the results in input order, exactly when every element has
      fulfilled and been delivered; it is rejected exactly when some rejection was delivered, with the value
      of the first; else it is unresolved; and it is settled once the queue is empty and every element is. */
  lemma AllOutcome(es: seq<Event>, a: Id)
    requires FairRun(es) && a < |Reached(es).alls|
    ensures var s := Reached(es); var all := s.alls[a];
      && all.promise < |s.cells| && |all.elements| == |all.results| == |all.done|
      && var c := s.cells[all.promise];
         && (c.status == Fulfilled <==> forall i :: 0 <= i < |all.done| ==> all.done[i])
         && (c.status == Fulfilled ==> c.value == Results(a) && forall i :: 0 <= i < |all.elements| ==>
               SettledAs(s, all.elements[i], Fulfilled) && all.results[i] == s.cells[all.elements[i]].value)
         && (c.status == Rejected <==> FirstRejection(s.log, a).Some?)
         && (c.status == Rejected ==> FirstRejection(s.log, a) == Some(c.value))
         && (c.status == Pending ==> !c.resolved)
         && (s.queue == [] && (forall i :: 0 <= i < |all.elements| ==> Settled(s, all.elements[i])) ==> c.status != Pending)
  {
    var s := Reached(es);
    var all := s.alls[a];
    ReachedFated(es);
    ReachedNoted(es);
    assert AllOk(s, a, {}) && AllFate(s, a) && Noted(s, a, |all.results|) && CellOk(s, all.promise);
    CountFalseZero(all.done);
    forall i | 0 <= i < |all.done|
      ensures all.done[i] ==> SettledAs(s, all.elements[i], Fulfilled) && all.results[i] == s.cells[all.elements[i]].value
    {
      assert ElementOk(s, a, i, {});
    }
    if FirstRejection(s.log, a).Some? {
      assert forall k :: 0 <= k < |s.log| ==> s.log[k] == Tasks(s)[k];
      var j := RejectedStays(s, s.log, a);
    }
    if s.queue == [] && s.cells[all.promise].status == Pending {
      var i :| 0 <= i < |all.done| && !all.done[i];
      if Settled(s, all.elements[i]) { UndoneIsRejected(s, a, i); }
    }
  }

  /** With an empty queue, an element that settled was delivered: recorded, or its rejection on record. */
  lemma UndoneIsRejected(s: State, a: Id, i: nat)
    requires Inv(s) && s.queue == [] && a < |s.alls| && Noted(s, a, |s.alls[a].results|)
    requires i < |s.alls[a].results| && i < |s.alls[a].done| && !s.alls[a].done[i] && Settled(s, s.alls[a].elements[i])
    ensures FirstRejection(s.log, a).Some?
  {
    var q := s.alls[a].elements[i];
    var on := AllElement(a, i);
    assert AllOk(s, a, {}) && ElementOk(s, a, i, {}) && HistoryOk(s, q) && CellOk(s, q);
    if Outstanding(s, on) > 0 { var w := OutstandingWaits(s, on); }
    assert Tasks(s) == s.log;
    var k := Queued(q, s.log, on);
    assert TaskOk(s, Tasks(s)[k]);
    SomeRejected(s.log, a, k);
  }

  lemma {:induction false} Queued(p: Id, ts: seq<Task>, on: Reaction) returns (k: nat)
    requires on in From(p, ts)
    ensures k < |ts| && ts[k].on == on && ts[k].source == Some(p)
  {
    var n := |ts| - 1;
    if on in From(p, ts[..n]) { k := Queued(p, ts[..n], on); } else { k := n; }
  }

  lemma {:induction false} SomeRejected(ts: seq<Task>, a: Id, k: nat)
    requires k < |ts| && ts[k].on.AllElement? && ts[k].on.all == a && ts[k].rejected
    ensures FirstRejection(ts, a).Some?
  {
    var n := |ts| - 1;
    if k < n { SomeRejected(ts[..n], a, k); }
  }
}

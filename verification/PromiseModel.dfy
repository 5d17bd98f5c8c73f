/** The promise machine of jsrt_promise.c as a value: one state, and one function per C function.

    A promise is named by its address, here its position in `cells`. A reaction is a native
    continuation (a C function and its state), here one constructor per C function. Five fields
    have no counterpart in the C structs and never influence a step; they record the past so that
    laws over whole runs can be stated: `Cell.history` (every reaction ever subscribed), `Cell.adopting`
    (the promise a resolution adopted), `Cell.owner` (who is to resolve the promise), `Task.source` (the
    promise a task was queued for) and `State.log` (every task whose reaction ran). */
module PromiseModel {
  import opened Options
  type Id = nat

  datatype Value =
    | Undefined
    | Data(tag: int)
    | PromiseRef(id: Id)
    | Results(all: Id)   // the array Promise.all fills by index
    | CycleError         // the TypeError of a self-resolution

  datatype Handler = NotCallable | Callable(code: int)

  datatype Status = Pending | Fulfilled | Rejected

  datatype Reaction =
    | Adopt(outer: Id)
    | AdoptSubscribe(outer: Id)
    | AllElement(all: Id, index: nat)
    | ThenReact(derived: Id, onFulfilled: Handler, onRejected: Handler)
    | FinallyReact(derived: Id, onFinally: Handler)
    | FinallyThunk(derived: Id, original: Value, wasRejected: bool)
    | AsyncResume(frame: Id)  // an async body, named by the promise its call returned

  /** Who is to resolve a promise: the program, which was handed its resolving functions; a reaction
      subscribed to another promise; or Promise.all. */
  datatype Owner = Program | Owed(source: Id, on: Reaction) | Combined(all: Id)

  datatype Task = Task(on: Reaction, value: Value, rejected: bool, source: Option<Id>)

  datatype Cell = Cell(status: Status, resolved: bool, value: Value, waiting: seq<Reaction>,
                       unhandled: bool, adopting: Option<Id>, history: seq<Reaction>, owner: Owner)

  datatype AllState = AllState(promise: Id, elements: seq<Id>, results: seq<Value>,
                               done: seq<bool>, remaining: int)

  datatype State = State(cells: seq<Cell>, alls: seq<AllState>, queue: seq<Task>,
                         log: seq<Task>, unhandled: int)

  function Fresh(owner: Owner): Cell { Cell(Pending, false, Undefined, [], false, None, [], owner) }

  const INITIAL := State([], [], [], [], 0)

  /** Addresses stay good: nothing is freed or resized. */
  ghost predicate Grows(s: State, r: State) {
    && |s.cells| <= |r.cells|
    && |s.alls| <= |r.alls|
    && forall a :: 0 <= a < |s.alls| ==>
         && r.alls[a].promise == s.alls[a].promise
         && |s.alls[a].elements| <= |r.alls[a].elements|
         && |r.alls[a].results| == |s.alls[a].results|
         && |r.alls[a].done| == |s.alls[a].done|
  }

  // ---------------------------------------------------------------- the primitives

  function StatusOf(rejected: bool): Status {
    if rejected then Rejected else Fulfilled
  }

  function NewPromise(s: State, owner: Owner): State {
    s.(cells := s.cells + [Fresh(owner)])
  }

  function Enqueue(s: State, t: Task): State {
    s.(queue := s.queue + [t])
  }

  function Subscribe(s: State, p: Id, r: Reaction): State
    requires p < |s.cells|
  {
    var c := s.cells[p];
    if c.status != Pending then
      Enqueue(s.(cells := s.cells[p := c.(unhandled := false, history := c.history + [r])],
                 unhandled := if c.unhandled then s.unhandled - 1 else s.unhandled),
              Task(r, c.value, c.status == Rejected, Some(p)))
    else
      s.(cells := s.cells[p := c.(waiting := c.waiting + [r], history := c.history + [r])])
  }

  function Deliveries(p: Id, waiting: seq<Reaction>, value: Value, rejected: bool): (ts: seq<Task>)
    ensures |ts| == |waiting|
  {
    seq(|waiting|, i requires 0 <= i < |waiting| => Task(waiting[i], value, rejected, Some(p)))
  }

  /** The state change itself, with no test: whoever calls it has decided that this settlement counts. */
  function SettleNow(s: State, p: Id, value: Value, rejected: bool): State
    requires p < |s.cells|
  {
    var c := s.cells[p];
    var orphan := rejected && c.waiting == [];
    s.(cells := s.cells[p := c.(status := StatusOf(rejected), value := value, waiting := [],
                                unhandled := c.unhandled || orphan)],
       unhandled := if orphan then s.unhandled + 1 else s.unhandled,
       queue := s.queue + Deliveries(p, c.waiting, value, rejected))
  }

  function MarkResolved(s: State, p: Id, adopting: Option<Id>): State
    requires p < |s.cells|
  {
    s.(cells := s.cells[p := s.cells[p].(resolved := true, adopting := adopting)])
  }

  function Settle(s: State, p: Id, value: Value, rejected: bool): (r: State)
    requires p < |s.cells|
    ensures Grows(s, r)
  {
    if s.cells[p].resolved then s
    else if !rejected && value.PromiseRef? then
      if value.id == p then SettleNow(MarkResolved(s, p, None), p, CycleError, true)
      else Enqueue(MarkResolved(s, p, Some(value.id)), Task(AdoptSubscribe(p), value, false, None))
    else SettleNow(MarkResolved(s, p, None), p, value, rejected)
  }

  function Resolve(s: State, v: Value): (r: (State, Id))
    requires ValidValue(s, v)
    ensures Grows(s, r.0) && r.1 < |r.0.cells|
  {
    if v.PromiseRef? then (s, v.id)
    else (Settle(NewPromise(s, Program), |s.cells|, v, false), |s.cells|)
  }

  // ---------------------------------------------------------------- Promise.all

  function NoteElement(s: State, a: Id, e: Id): State
    requires a < |s.alls|
  {
    s.(alls := s.alls[a := s.alls[a].(elements := s.alls[a].elements + [e])])
  }

  function SubscribeElements(s: State, a: Id, values: seq<Value>, i: nat): (r: State)
    requires a < |s.alls| && i <= |values|
    requires ValidValues(s, values)
    ensures Grows(s, r)
    decreases |values| - i
  {
    if i == |values| then s
    else
      var (s1, e) := Resolve(s, values[i]);
      SubscribeElements(Subscribe(NoteElement(s1, a, e), e, AllElement(a, i)), a, values, i + 1)
  }

  function AllNew(s: State, n: nat): State {
    var p := |s.cells|;
    NewPromise(s, Combined(|s.alls|)).(alls := s.alls + [AllState(p, [], seq(n, _ => Undefined), seq(n, _ => false), n)])
  }

  function PromiseAll(s: State, values: seq<Value>): (r: State)
    requires ValidValues(s, values)
    ensures Grows(s, r)
  {
    var s1 := AllNew(s, |values|);
    if values == [] then Settle(s1, |s.cells|, Results(|s.alls|), false)
    else SubscribeElements(s1, |s.alls|, values, 0)
  }

  function RecordElement(s: State, a: Id, i: nat, v: Value): State
    requires a < |s.alls| && i < |s.alls[a].results| && i < |s.alls[a].done|
  {
    var all := s.alls[a];
    s.(alls := s.alls[a := all.(results := all.results[i := v], done := all.done[i := true],
                                remaining := all.remaining - 1)])
  }

  function AllElementReact(s: State, a: Id, i: nat, v: Value, rejected: bool): (r: State)
    requires a < |s.alls| && i < |s.alls[a].results| && i < |s.alls[a].done|
    requires s.alls[a].promise < |s.cells|
    ensures Grows(s, r)
  {
    if rejected then Settle(s, s.alls[a].promise, v, true)
    else
      var s1 := RecordElement(s, a, i, v);
      if s1.alls[a].remaining == 0 then Settle(s1, s1.alls[a].promise, Results(a), false) else s1
  }

  // ---------------------------------------------------------------- then, finally, await

  function Then(s: State, p: Id, onFulfilled: Handler, onRejected: Handler): (r: State)
    requires p < |s.cells|
    ensures Grows(s, r)
  {
    var on := ThenReact(|s.cells|, onFulfilled, onRejected);
    Subscribe(NewPromise(s, Owed(p, on)), p, on)
  }

  function Finally(s: State, p: Id, onFinally: Handler): (r: State)
    requires p < |s.cells|
    ensures Grows(s, r)
  {
    var on := FinallyReact(|s.cells|, onFinally);
    Subscribe(NewPromise(s, Owed(p, on)), p, on)
  }

  function Await(s: State, frame: Id, v: Value): (r: State)
    requires frame < |s.cells| && ValidValue(s, v)
    ensures Grows(s, r)
  {
    var (s1, e) := Resolve(s, v);
    Subscribe(s1, e, AsyncResume(frame))
  }

  /** What a program can do to the machine. `new Promise(f)` is `Make`, then what `f` does, then
      a `Put` if it threw; an async call is `Make` and then its body up to the first await. */
  datatype Command =
    | Make
    | Put(p: Id, value: Value, rejected: bool)
    | ResolveValue(v: Value)
    | RejectValue(v: Value)
    | CallThen(p: Id, onFulfilled: Handler, onRejected: Handler)
    | CallFinally(p: Id, onFinally: Handler)
    | CallAll(values: seq<Value>)
    | CallAwait(frame: Id, v: Value)

  predicate ValidValue(s: State, v: Value) {
    (v.PromiseRef? ==> v.id < |s.cells|) && (v.Results? ==> v.all < |s.alls|)
  }

  predicate ValidValues(s: State, vs: seq<Value>) {
    forall i :: 0 <= i < |vs| ==> ValidValue(s, vs[i])
  }

  /** A command can only name values that exist. */
  predicate Sensible(s: State, c: Command) {
    match c
    case Make => true
    case Put(p, v, _) => p < |s.cells| && ValidValue(s, v)
    case ResolveValue(v) => ValidValue(s, v)
    case RejectValue(v) => ValidValue(s, v)
    case CallThen(p, _, _) => p < |s.cells|
    case CallFinally(p, _) => p < |s.cells|
    case CallAll(values) => ValidValues(s, values)
    case CallAwait(frame, v) => frame < |s.cells| && ValidValue(s, v)
  }

  function Exec(s: State, c: Command): (r: State)
    ensures Grows(s, r)
  {
    if !Sensible(s, c) then s else
    match c
    case Make => NewPromise(s, Program)
    case Put(p, v, rejected) => Settle(s, p, v, rejected)
    case ResolveValue(v) => Resolve(s, v).0
    case RejectValue(v) => Settle(NewPromise(s, Program), |s.cells|, v, true)
    case CallThen(p, f, r) => Then(s, p, f, r)
    case CallFinally(p, f) => Finally(s, p, f)
    case CallAll(values) => PromiseAll(s, values)
    case CallAwait(frame, v) => Await(s, frame, v)
  }

  function ExecAll(s: State, cs: seq<Command>): (r: State)
    ensures Grows(s, r)
    decreases cs
  {
    if cs == [] then s else ExecAll(Exec(s, cs[0]), cs[1..])
  }

  // ---------------------------------------------------------------- one microtask

  /** What the program's own code does when a microtask calls it: the commands it issues and how
      it completes. A run is quantified over every choice of turns. */
  datatype Turn = Turn(commands: seq<Command>, value: Value, threw: bool)

  function Completion(s: State, turn: Turn): (v: Value)
    ensures ValidValue(s, v)
  {
    if ValidValue(s, turn.value) then turn.value else Undefined
  }

  function CallHandler(s: State, derived: Id, turn: Turn): (r: State)
    requires derived < |s.cells|
    ensures Grows(s, r)
  {
    var s1 := ExecAll(s, turn.commands);
    Settle(s1, derived, Completion(s1, turn), turn.threw)
  }

  /** The promise the callback's answer becomes, made after the intermediate one. */
  function Answerer(s: State, answer: Value): Id { if answer.PromiseRef? then answer.id else |s.cells| + 1 }

  /** The intermediate promise is adopted before the thunk that settles it is subscribed. */
  function PassThrough(s: State, derived: Id, answer: Value, v: Value, rejected: bool): (r: State)
    requires derived < |s.cells| && ValidValue(s, answer)
    ensures Grows(s, r)
  {
    var inner := |s.cells|;
    var on := FinallyThunk(inner, v, rejected);
    var s1 := Settle(NewPromise(s, Owed(Answerer(s, answer), on)), derived, PromiseRef(inner), false);
    var (s2, e) := Resolve(s1, answer);
    Subscribe(s2, e, on)
  }

  function FinallyReactStep(s: State, derived: Id, onFinally: Handler, v: Value, rejected: bool, turn: Turn): (r: State)
    requires derived < |s.cells|
    ensures Grows(s, r)
  {
    if onFinally.NotCallable? then Settle(s, derived, v, rejected)
    else
      var s1 := ExecAll(s, turn.commands);
      var answer := Completion(s1, turn);
      if turn.threw then Settle(s1, derived, answer, true) else PassThrough(s1, derived, answer, v, rejected)
  }

  function Drop(s: State): State
    requires s.queue != []
  {
    s.(queue := s.queue[1..])
  }

  function Record(s: State, t: Task): State { s.(log := s.log + [t]) }

  /** The state in which the next task's reaction does its work. */
  function Pop(s: State): State
    requires s.queue != []
  {
    Record(Drop(s), s.queue[0])
  }

  /** What a reaction assumes of the state it runs in. */
  predicate Runnable(s: State, r: Reaction, v: Value) {
    && ReactionNames(s, r)
    && ValidValue(s, v)
    && (r.AdoptSubscribe? ==> v.PromiseRef?)
  }

  predicate ReactionNames(s: State, r: Reaction) {
    match r
    case Adopt(o) => o < |s.cells|
    case AdoptSubscribe(o) => o < |s.cells|
    case AllElement(a, i) =>
      && a < |s.alls|
      && i < |s.alls[a].elements| && i < |s.alls[a].results| == |s.alls[a].done|
      && s.alls[a].promise < |s.cells|
    case ThenReact(d, _, _) => d < |s.cells|
    case FinallyReact(d, _) => d < |s.cells|
    case FinallyThunk(d, v, _) => d < |s.cells| && ValidValue(s, v)
    case AsyncResume(f) => f < |s.cells|
  }

  /** `on_settle(state, value, rejected)`, whoever calls it: a reaction that runs is on record. */
  function React(s0: State, t: Task, turn: Turn): State
    requires Runnable(s0, t.on, t.value)
  {
    var s := Record(s0, t);
    var v, rejected := t.value, t.rejected;
    match t.on
    case Adopt(o) => SettleNow(s, o, v, rejected)
    case AdoptSubscribe(o) => Subscribe(s, v.id, Adopt(o))
    case AllElement(a, i) => AllElementReact(s, a, i, v, rejected)
    case ThenReact(d, f, g) =>
      if (if rejected then g else f).NotCallable? then Settle(s, d, v, rejected) else CallHandler(s, d, turn)
    case FinallyReact(d, f) => FinallyReactStep(s, d, f, v, rejected, turn)
    case FinallyThunk(d, v0, r0) => if rejected then Settle(s, d, v, true) else Settle(s, d, v0, r0)
    case AsyncResume(_) => ExecAll(s, turn.commands)
  }
}

/** What each thing a program does to the machine comes to: which promise it makes, for whom, where the
    reaction goes, and in which order the tasks are queued. */
module PromiseCommands {
  import opened Options
  import opened PromiseModel
  import opened PromiseInvariant
  import opened PromiseSteps
  import opened PromiseRun
  import opened PromiseOutcome
  import opened PromiseFate
  import opened PromiseLaws

  // ---------------------------------------------------------------- one command

  /** A promise that was fulfilled when it was made. */
  function FulfilledCell(v: Value): Cell { Cell(Fulfilled, true, v, [], false, None, [], Program) }

  /** `e` is what a value is to those who wait for it: itself if it is a promise, else a promise fulfilled with it. */
  ghost predicate Stands(s: State, e: Id, v: Value) {
    e < |s.cells| && if v.PromiseRef? then e == v.id else SettledAs(s, e, Fulfilled) && s.cells[e].value == v
  }

  /** Resolving a value leaves a promise as it is and makes a fulfilled one of anything else. */
  lemma ResolveMeans(s: State, v: Value)
    requires ValidValue(s, v)
    ensures var (r, e) := Resolve(s, v);
      && Stands(r, e, v)
      && r == (if v.PromiseRef? then s else s.(cells := s.cells + [FulfilledCell(v)]))
      && (!v.PromiseRef? ==> e == |s.cells|)
  {
    if !v.PromiseRef? {
      var s1 := NewPromise(s, Program);
      assert s1.queue + [] == s1.queue;
      assert Resolve(s, v).0.cells == s.cells + [FulfilledCell(v)];
    }
  }

  /** From `s` to `r` the reaction `on` was subscribed to `p` and nothing else was: it waits behind the others
      while `p` is pending, and is queued behind all tasks otherwise. */
  ghost predicate Subscribed(s: State, r: State, p: Id, on: Reaction) {
    && p < |s.cells| <= |r.cells| && r.alls == s.alls && r.log == s.log
    && (forall q :: 0 <= q < |s.cells| ==> Untouched(s.cells[q], r.cells[q]) && r.cells[q].owner == s.cells[q].owner)
    && (forall q :: 0 <= q < |s.cells| && q != p ==> r.cells[q] == s.cells[q])
    && r.cells[p].history == s.cells[p].history + [on]
    && (if s.cells[p].status == Pending then r.queue == s.queue && r.cells[p].waiting == s.cells[p].waiting + [on]
        else r.queue == s.queue + [Task(on, s.cells[p].value, s.cells[p].status == Rejected, Some(p))])
  }

  lemma SubscribeMeans(s: State, p: Id, on: Reaction)
    requires p < |s.cells|
    ensures Subscribed(s, Subscribe(s, p, on), p, on)
  {
  }

  /** `then` makes the promise it answers, and subscribes the two handlers in their places. */
  lemma ThenMeans(s: State, p: Id, f: Handler, g: Handler)
    requires p < |s.cells|
    ensures var r := Exec(s, CallThen(p, f, g)); var d := |s.cells|; var on := ThenReact(d, f, g);
      |r.cells| == d + 1 && r.cells[d] == Fresh(Owed(p, on)) && Subscribed(s, r, p, on)
  {
  }

  lemma FinallyMeans(s: State, p: Id, f: Handler)
    requires p < |s.cells|
    ensures var r := Exec(s, CallFinally(p, f)); var d := |s.cells|; var on := FinallyReact(d, f);
      |r.cells| == d + 1 && r.cells[d] == Fresh(Owed(p, on)) && Subscribed(s, r, p, on)
  {
  }

  /** Settling: a second time nothing; with itself a TypeError; with another promise one job, queued behind all
      tasks, and the other is left alone; with anything else that value, its reactions queued in order. */
  lemma PutMeans(s: State, p: Id, v: Value, rejected: bool)
    requires p < |s.cells| && ValidValue(s, v)
    ensures var r := Exec(s, Put(p, v, rejected)); var c := s.cells[p];
      && |r.cells| == |s.cells| && r.alls == s.alls && (forall q :: 0 <= q < |s.cells| && q != p ==> r.cells[q] == s.cells[q])
      && (c.resolved ==> r == s)
      && (!c.resolved ==>
            && DecidedAs(r, p, v, rejected) && r.cells[p].history == c.history && r.cells[p].owner == c.owner
            && if !rejected && v.PromiseRef? && v.id != p
               then r.queue == s.queue + [Task(AdoptSubscribe(p), v, false, None)] && r.cells[p].waiting == c.waiting
                    && r.cells[p].status == c.status
               else r.cells[p].waiting == []
                    && r.queue == s.queue + Deliveries(p, c.waiting, r.cells[p].value, r.cells[p].status == Rejected))
  {
  }

  lemma MakeMeans(s: State)
    ensures var r := Exec(s, Make); r == s.(cells := s.cells + [Fresh(Program)])
  {
  }

  /** A rejected promise of the program's own, counted until it is listened to. */
  lemma RejectMeans(s: State, v: Value)
    requires ValidValue(s, v)
    ensures var r := Exec(s, RejectValue(v)); var p := |s.cells|;
      && r.cells == s.cells + [Cell(Rejected, true, v, [], true, None, [], Program)]
      && r.unhandled == s.unhandled + 1 && r.queue == s.queue && r.alls == s.alls && r.log == s.log
  {
    var r := Exec(s, RejectValue(v));
    assert r.cells[|s.cells|] == Cell(Rejected, true, v, [], true, None, [], Program);
    assert r.cells == s.cells + [r.cells[|s.cells|]];
  }

  /** `await` resumes the frame on what the value stands for. */
  lemma AwaitMeans(s: State, frame: Id, v: Value)
    requires frame < |s.cells| && ValidValue(s, v)
    ensures var r := Exec(s, CallAwait(frame, v)); var (s1, e) := Resolve(s, v);
      Stands(r, e, v) && Subscribed(s1, r, e, AsyncResume(frame))
  {
    ResolveMeans(s, v);
  }

  // ---------------------------------------------------------------- one microtask

  /** An adoption job subscribes when its turn comes, and not before. */
  lemma JobMeans(s: State, turn: Turn)
    requires Inv(s) && s.queue != [] && s.queue[0].on.AdoptSubscribe?
    ensures var t := s.queue[0]; t.value.PromiseRef? && Subscribed(Pop(s), RunTask(s, turn), t.value.id, Adopt(t.on.outer))
  {
    HeadRunnable(s);
  }

  /** When the callback of `finally` has answered, the adoption of the intermediate promise is queued before
      the thunk that is to settle it, and so finds it pending. */
  lemma AdoptionComesFirst(s: State, turn: Turn)
    requires Inv(s) && s.queue != [] && s.queue[0].on.FinallyReact? && s.queue[0].on.onFinally.Callable? && !turn.threw
    requires s.queue[0].on.derived < |s.cells| && !ExecAll(Pop(s), turn.commands).cells[s.queue[0].on.derived].resolved
    ensures var t, s1 := s.queue[0], ExecAll(Pop(s), turn.commands); var answer := Completion(s1, turn);
      var inner, e, r := |s1.cells|, Answerer(s1, answer), RunTask(s, turn);
      var thunk := FinallyThunk(inner, t.value, t.rejected);
      && e < |r.cells| && Stands(r, e, answer) && inner < |r.cells| && r.cells[inner] == Fresh(Owed(e, thunk))
      && r.queue == s1.queue + [Task(AdoptSubscribe(t.on.derived), PromiseRef(inner), false, None)]
           + if r.cells[e].status == Pending then []
             else [Task(thunk, r.cells[e].value, r.cells[e].status == Rejected, Some(e))]
  {
    hide InvExcept, Later, ExecAll;
    HeadRunnable(s);
    var t, s1 := s.queue[0], ExecAll(Pop(s), turn.commands);
    PassThroughMeans(s1, t.on.derived, Completion(s1, turn), t.value, t.rejected);
  }

  lemma PassThroughMeans(s: State, d: Id, answer: Value, v: Value, rejected: bool)
    requires d < |s.cells| && !s.cells[d].resolved && ValidValue(s, answer)
    ensures var r := PassThrough(s, d, answer, v, rejected); var inner, e := |s.cells|, Answerer(s, answer);
      && e < |r.cells| && Stands(r, e, answer) && r.cells[inner] == Fresh(Owed(e, FinallyThunk(inner, v, rejected)))
      && r.queue == s.queue + [Task(AdoptSubscribe(d), PromiseRef(inner), false, None)]
           + if r.cells[e].status == Pending then []
             else [Task(FinallyThunk(inner, v, rejected), r.cells[e].value, r.cells[e].status == Rejected, Some(e))]
  {
    var on := FinallyThunk(|s.cells|, v, rejected);
    var s1 := NewPromise(s, Owed(Answerer(s, answer), on));
    var s2 := Settle(s1, d, PromiseRef(|s.cells|), false);
    ResolveMeans(s2, answer);
  }

  // ---------------------------------------------------------------- Promise.all

  /** The tasks of the first `n` elements that had settled already, in input order. */
  ghost function ReadyTasks(s: State, a: Id, es: seq<Id>, n: nat): seq<Task>
    requires n <= |es| && forall i :: 0 <= i < n ==> es[i] < |s.cells|
  {
    if n == 0 then []
    else
      var c := s.cells[es[n - 1]];
      ReadyTasks(s, a, es, n - 1)
        + if c.status == Pending then []
          else [Task(AllElement(a, n - 1), c.value, c.status == Rejected, Some(es[n - 1]))]
  }

  /** The first `n` values given have their elements: each stands for its value, and its reaction is registered
      or queued, those of settled elements in input order. */
  ghost predicate Given(s0: State, s: State, a: Id, values: seq<Value>, n: nat) {
    && n <= |values| && a < |s.alls| && |s.alls[a].elements| == n
    && (forall i :: 0 <= i < n ==> Stands(s, s.alls[a].elements[i], values[i]))
    && s.queue == s0.queue + ReadyTasks(s, a, s.alls[a].elements, n)
    && s.alls[a].promise == |s0.cells| < |s.cells|
    && ValidValues(s, values)
  }

  lemma {:induction false} ReadyTasksLater(s: State, r: State, a: Id, es: seq<Id>, fs: seq<Id>, n: nat)
    requires n <= |es| && n <= |fs| && |s.cells| <= |r.cells|
    requires forall i :: 0 <= i < n ==> es[i] == fs[i] && es[i] < |s.cells| && Untouched(s.cells[es[i]], r.cells[es[i]])
    ensures ReadyTasks(r, a, fs, n) == ReadyTasks(s, a, es, n)
  {
    if n > 0 { ReadyTasksLater(s, r, a, es, fs, n - 1); }
  }

  lemma GivenNext(s0: State, s: State, a: Id, values: seq<Value>, n: nat)
    requires Given(s0, s, a, values, n) && n < |values|
    ensures var (s1, e) := Resolve(s, values[n]);
      |s1.alls| > a && e < |s1.cells| && Given(s0, Subscribe(NoteElement(s1, a, e), e, AllElement(a, n)), a, values, n + 1)
  {
    hide Resolve, Subscribe;
    var (s1, e) := Resolve(s, values[n]);
    ResolveMeans(s, values[n]);
    var s2 := NoteElement(s1, a, e);
    var r := Subscribe(s2, e, AllElement(a, n));
    SubscribeMeans(s2, e, AllElement(a, n));
    var es, fs := s.alls[a].elements, r.alls[a].elements;
    assert fs == es + [e];
    GivenStand(s, s1, r, es, values, n);
    StandsLater(s1, r, e, values[n]);
    ReadyTasksLater(s, r, a, es, fs, n);
    QueueNext(s0, s, r, a, fs, n, AllElement(a, n), e);
  }

  lemma StandsLater(s: State, r: State, e: Id, v: Value)
    requires Stands(s, e, v) && |s.cells| <= |r.cells|
    requires r.cells[e].status == s.cells[e].status && r.cells[e].value == s.cells[e].value
    ensures Stands(r, e, v)
  {
  }

  lemma GivenStand(s: State, s1: State, r: State, es: seq<Id>, values: seq<Value>, n: nat)
    requires n <= |es| && n <= |values| && |s.cells| <= |s1.cells| && s.cells == s1.cells[..|s.cells|] && |s1.cells| <= |r.cells|
    requires forall q :: 0 <= q < |s1.cells| ==> Untouched(s1.cells[q], r.cells[q])
    requires forall i :: 0 <= i < n ==> Stands(s, es[i], values[i])
    ensures forall i :: 0 <= i < n ==>
      Stands(r, es[i], values[i]) && es[i] < |s.cells| && Untouched(s.cells[es[i]], r.cells[es[i]])
  {
    forall i | 0 <= i < n ensures
      Stands(r, es[i], values[i]) && es[i] < |s.cells| && Untouched(s.cells[es[i]], r.cells[es[i]]) {
      assert s1.cells[..|s.cells|][es[i]] == s1.cells[es[i]];
    }
  }

  lemma QueueNext(s0: State, s: State, r: State, a: Id, fs: seq<Id>, n: nat, on: Reaction, e: Id)
    requires n < |fs| && fs[n] == e && (forall i :: 0 <= i <= n ==> fs[i] < |r.cells|) && on == AllElement(a, n)
    requires s.queue == s0.queue + ReadyTasks(r, a, fs, n)
    requires r.queue == s.queue + if r.cells[e].status == Pending then []
                                  else [Task(on, r.cells[e].value, r.cells[e].status == Rejected, Some(e))]
    ensures r.queue == s0.queue + ReadyTasks(r, a, fs, n + 1)
  {
  }

  lemma {:induction false} AllGiven(s0: State, s: State, a: Id, values: seq<Value>, i: nat)
    requires Given(s0, s, a, values, i)
    ensures Given(s0, SubscribeElements(s, a, values, i), a, values, |values|)
    decreases |values| - i
  {
    hide Given, Resolve, Subscribe;
    GivenIs(s0, s, a, values, i);
    if i < |values| {
      GivenNext(s0, s, a, values, i);
      var (s1, e) := Resolve(s, values[i]);
      AllGiven(s0, Subscribe(NoteElement(s1, a, e), e, AllElement(a, i)), a, values, i + 1);
    }
  }

  lemma GivenIs(s0: State, s: State, a: Id, values: seq<Value>, n: nat)
    requires Given(s0, s, a, values, n)
    ensures n <= |values| && a < |s.alls| && ValidValues(s, values)
  {
  }

  /** Promise.all: a promise of its own, and for each value, at its index, what the value stands for, to which the
      reaction of that index is subscribed; with no values it is fulfilled at once. */
  lemma AllMeans(s: State, values: seq<Value>)
    requires Inv(s) && ValidValues(s, values)
    ensures var r := Exec(s, CallAll(values)); var a := |s.alls|;
      && |r.alls| == a + 1 && Given(s, r, a, values, |values|)
      && Noted(r, a, |values|) && |r.alls[a].results| == |r.alls[a].done| == |values|
      && r.cells[|s.cells|].owner == Combined(a)
  {
    var r := Exec(s, CallAll(values));
    var a := |s.alls|;
    AllIsNoted(s, values);
    AllResults(s, values);
    var s1 := AllNew(s, |values|);
    assert s1.queue + [] == s1.queue;
    assert Given(s, s1, a, values, 0);
    if values == [] {
      assert r.queue + [] == r.queue;
    } else {
      AllGiven(s, s1, a, values, 0);
    }
    OutsideAll(s, values);
    assert NewAll(r, a, {});
  }

  /** A Promise.all that was begun with these values, seen in any later state. */
  ghost predicate BegunWith(s: State, values: seq<Value>, r: State) {
    Inv(s) && ValidValues(s, values) && Later(Exec(s, CallAll(values)), r)
  }

  /** What a value came to: itself, or what the promise it is was settled with. */
  ghost function Came(s: State, v: Value): Value
    requires v.PromiseRef? ==> v.id < |s.cells|
  {
    if v.PromiseRef? then s.cells[v.id].value else v
  }

  /** The value is a promise that was rejected with `reason`. */
  ghost predicate RejectedWith(s: State, v: Value, reason: Value) {
    v.PromiseRef? && SettledAs(s, v.id, Rejected) && s.cells[v.id].value == reason
  }

  lemma StandsStill(s: State, values: seq<Value>, r: State)
    requires BegunWith(s, values, r) && Inv(r)
    ensures var a := |s.alls|;
      && a < |r.alls| && r.alls[a].promise == |s.cells| && |r.alls[a].elements| == |values|
      && ValidValues(r, values) && forall i :: 0 <= i < |values| ==> Stands(r, r.alls[a].elements[i], values[i])
  {
    var r0 := Exec(s, CallAll(values));
    var a := |s.alls|;
    AllMeans(s, values);
    assert AllOk(r, a, {});
    assert r.alls[a].elements == r0.alls[a].elements;
    forall i | 0 <= i < |values| ensures Stands(r, r.alls[a].elements[i], values[i]) {
      assert Stands(r0, r0.alls[a].elements[i], values[i]);
    }
  }

  /** What Promise.all answers, from its arguments: it is fulfilled exactly when all of them that are promises were
      fulfilled and delivered, and then the result at each index is the argument there, or what that promise was
      fulfilled with; it is rejected only with what an argument was rejected with. */
  lemma AllAnswers(es: seq<Event>, s: State, values: seq<Value>)
    requires FairRun(es) && BegunWith(s, values, Reached(es))
    ensures var r, a := Reached(es), |s.alls|;
      && a < |r.alls| && r.alls[a].promise == |s.cells| < |r.cells| && |r.alls[a].results| == |r.alls[a].done| == |values|
      && ValidValues(r, values)
      && var c := r.cells[|s.cells|];
         && (c.status == Fulfilled <==> forall i :: 0 <= i < |values| ==> r.alls[a].done[i])
         && (c.status == Fulfilled ==> c.value == Results(a) && forall i :: 0 <= i < |values| ==>
               && r.alls[a].results[i] == Came(r, values[i])
               && (values[i].PromiseRef? ==> SettledAs(r, values[i].id, Fulfilled)))
         && (c.status == Rejected ==> exists i :: 0 <= i < |values| && RejectedWith(r, values[i], c.value))
         && (r.queue == [] && (forall i :: 0 <= i < |values| && values[i].PromiseRef? ==> Settled(r, values[i].id)) ==>
               c.status != Pending)
  {
    hide InvExcept, Later, FairRun;
    var r, a := Reached(es), |s.alls|;
    ReachedNoted(es);
    StandsStill(s, values, r);
    AllOutcome(es, a);
    var all := r.alls[a];
    forall i | 0 <= i < |values| ensures Stands(r, all.elements[i], values[i]) && all.elements[i] < |r.cells| { }
    var c := r.cells[all.promise];
    if c.status == Rejected {
      var i := RejectedArgument(r, a, c.value);
      assert Stands(r, all.elements[i], values[i]);
      assert RejectedWith(r, values[i], c.value);
    }
    if c.status == Fulfilled {
      forall i | 0 <= i < |values| ensures all.results[i] == Came(r, values[i]) && (values[i].PromiseRef? ==> SettledAs(r, values[i].id, Fulfilled)) {
        assert Stands(r, all.elements[i], values[i]);
      }
    }
  }

  lemma RejectedArgument(s: State, a: Id, v: Value) returns (i: nat)
    requires Inv(s) && a < |s.alls| && FirstRejection(s.log, a) == Some(v)
    ensures i < |s.alls[a].elements| && SettledAs(s, s.alls[a].elements[i], Rejected) && s.cells[s.alls[a].elements[i]].value == v
  {
    assert forall k :: 0 <= k < |s.log| ==> s.log[k] == Tasks(s)[k];
    i := FirstRejected(s, s.log, a, v);
  }

  lemma {:induction false} FirstRejected(s: State, ts: seq<Task>, a: Id, v: Value) returns (i: nat)
    requires TasksOk(s, ts) && a < |s.alls| && FirstRejection(ts, a) == Some(v)
    ensures i < |s.alls[a].elements| && SettledAs(s, s.alls[a].elements[i], Rejected) && s.cells[s.alls[a].elements[i]].value == v
  {
    var n := |ts| - 1;
    if FirstRejection(ts[..n], a).Some? {
      i := FirstRejected(s, ts[..n], a, v);
    } else {
      assert TaskOk(s, ts[n]);
      i := ts[n].on.index;
    }
  }

  /** So for every Promise.all of a run. */
  lemma BegunInRun(es: seq<Event>, k: nat, values: seq<Value>)
    requires k < |es| && es[k] == Script(CallAll(values)) && ValidValues(Reached(es[..k]), values)
    ensures BegunWith(Reached(es[..k]), values, Reached(es))
  {
    hide InvExcept, Later;
    InitialInv();
    KeptAt(es, k);
    KeptAt(es, k + 1);
    LastStep(es[..k + 1]);
    assert es[..k + 1][..k] == es[..k];
  }

  // ---------------------------------------------------------------- await

  /** The `j`-th task delivers the subscription number `h` of `p`. */
  ghost predicate Serves(ts: seq<Task>, p: Id, h: nat, j: nat) {
    j < |ts| && ts[j].source == Some(p) && |From(p, ts[..j])| == h
  }

  lemma {:induction false} ServedBy(ts: seq<Task>, p: Id, h: nat) returns (j: nat)
    requires h < |From(p, ts)|
    ensures Serves(ts, p, h, j)
  {
    var n := |ts| - 1;
    if h < |From(p, ts[..n])| {
      j := ServedBy(ts[..n], p, h);
      assert ts[..n][..j] == ts[..j];
    } else {
      j := n;
    }
  }

  lemma {:induction false} FromGrows(ts: seq<Task>, p: Id, j: nat, n: nat)
    requires j < n <= |ts| && ts[j].source == Some(p)
    ensures |From(p, ts[..j])| < |From(p, ts[..n])| && From(p, ts[..n])[|From(p, ts[..j])|] == ts[j].on
    decreases n
  {
    assert ts[..n][..n - 1] == ts[..n - 1];
    if j < n - 1 { FromGrows(ts, p, j, n - 1); }
  }

  /** No subscription is served twice, and the one served is the one subscribed. */
  lemma ServedOnce(ts: seq<Task>, p: Id, h: nat, i: nat, j: nat)
    requires Serves(ts, p, h, i) && Serves(ts, p, h, j)
    ensures i == j && h < |From(p, ts)| && ts[j].on == From(p, ts)[h]
  {
    if i < j { FromGrows(ts, p, i, j); }
    if j < i { FromGrows(ts, p, j, i); }
    FromGrows(ts, p, j, |ts|);
    assert ts[..|ts|] == ts;
  }

  ghost predicate Awaited(s: State, frame: Id, v: Value, r: State) {
    Inv(s) && frame < |s.cells| && ValidValue(s, v) && Later(Exec(s, CallAwait(frame, v)), r)
  }

  /** `await` in any later state: at most one task resumes the frame for it, with what the value stands for came
      to; and one has run once the queue is empty and that is settled. */
  lemma AwaitOutcome(s: State, frame: Id, v: Value, r: State)
    requires Awaited(s, frame, v, r) && Inv(r)
    ensures var e := Resolve(s, v).1; var h := |Resolve(s, v).0.cells[e].history|;
      && Stands(r, e, v)
      && (forall j: nat :: Serves(Tasks(r), e, h, j) ==>
            var t := Tasks(r)[j];
            && t.on == AsyncResume(frame) && Settled(r, e)
            && t.value == r.cells[e].value && t.rejected == (r.cells[e].status == Rejected))
      && (forall i: nat, j: nat :: Serves(Tasks(r), e, h, i) && Serves(Tasks(r), e, h, j) ==> i == j)
      && (r.queue == [] && Settled(r, e) ==> exists j: nat :: Serves(r.log, e, h, j))
  {
    var r0 := Exec(s, CallAwait(frame, v));
    var (s1, e) := Resolve(s, v);
    var h := |s1.cells[e].history|;
    AwaitMeans(s, frame, v);
    assert r0.cells[e].history[h] == AsyncResume(frame);
    assert r.cells[e].history[h] == AsyncResume(frame);
    assert HistoryOk(r, e) && CellOk(r, e);
    forall j: nat | Serves(Tasks(r), e, h, j)
      ensures Tasks(r)[j].on == AsyncResume(frame) && Settled(r, e)
      ensures Tasks(r)[j].value == r.cells[e].value && Tasks(r)[j].rejected == (r.cells[e].status == Rejected)
    {
      ServedOnce(Tasks(r), e, h, j, j);
      assert TaskOk(r, Tasks(r)[j]);
    }
    forall i, j | Serves(Tasks(r), e, h, i) && Serves(Tasks(r), e, h, j) ensures i == j { ServedOnce(Tasks(r), e, h, i, j); }
    if r.queue == [] && Settled(r, e) {
      assert Tasks(r) == r.log;
      var j := ServedBy(r.log, e, h);
    }
  }
}

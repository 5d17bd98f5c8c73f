/** Every primitive of the promise machine keeps the invariant and only moves forward. */
module PromiseSteps {
  import opened Options
  import opened PromiseModel
  import opened PromiseInvariant

  lemma LaterTransitive(s: State, t: State, u: State)
    requires Later(s, t) && Later(t, u)
    ensures Later(s, u)
  {
  }

  lemma FitsLater(s: State, r: State, q: Id, on: Reaction)
    requires Later(s, r) && ReactionFits(s, q, on)
    ensures ReactionFits(r, q, on)
  {
  }

  lemma TaskLater(s: State, r: State, t: Task)
    requires Later(s, r) && TaskOk(s, t)
    ensures TaskOk(r, t)
  {
  }

  lemma CellLater(s: State, r: State, p: Id)
    requires p < |s.cells| && CellOk(s, p) && Later(s, r) && r.cells[p] == s.cells[p]
    ensures CellOk(r, p)
  {
  }

  lemma TasksLater(s: State, r: State, open: set<Reaction>)
    requires InvExcept(s, open) && Later(s, r)
    ensures TasksOk(r, Tasks(s))
  {
    forall i | 0 <= i < |Tasks(s)| ensures TaskOk(r, Tasks(s)[i]) { TaskLater(s, r, Tasks(s)[i]); }
  }

  lemma WaitersLater(s: State, r: State, open: set<Reaction>, p: Id)
    requires InvExcept(s, open) && Later(s, r) && p < |s.cells|
    ensures FitAll(r, p, s.cells[p].waiting)
  {
    assert FitAll(s, p, s.cells[p].waiting);
    forall k | 0 <= k < |s.cells[p].waiting| ensures ReactionFits(r, p, s.cells[p].waiting[k]) {
      FitsLater(s, r, p, s.cells[p].waiting[k]);
    }
  }

  // ---------------------------------------------------------------- new promise

  lemma OutstandingMake(s: State, owner: Owner, r: Reaction)
    ensures Outstanding(NewPromise(s, owner), r) == Outstanding(s, r)
  {
    assert NewPromise(s, owner).cells[..|s.cells|] == s.cells;
  }

  lemma MakeKeeps(s: State, open: set<Reaction>, owner: Owner)
    requires InvExcept(s, open)
    ensures InvExcept(NewPromise(s, owner), open) && Later(s, NewPromise(s, owner))
  {
    var r := NewPromise(s, owner);
    var n := |s.cells|;
    assert r.cells[..n] == s.cells;
    assert Later(s, r);
    TasksLater(s, r, open);
    forall p | 0 <= p < |r.cells| ensures CellOk(r, p) && HistoryOk(r, p) && TokenOk(r, p, open) {
      MakeCell(s, open, owner, p);
    }
    forall p | 0 <= p < |r.cells| ensures FitAll(r, p, r.cells[p].waiting) {
      if p < n { WaitersLater(s, r, open, p); }
    }
    forall a | 0 <= a < |r.alls| ensures AllOk(r, a, open) {
      forall on ensures Outstanding(r, on) == Outstanding(s, on) { OutstandingMake(s, owner, on); }
      AllFrame(s, r, a, open, open);
    }
    forall on | on in open ensures Outstanding(r, on) == 0 { OutstandingMake(s, owner, on); }
  }

  lemma MakeCell(s: State, open: set<Reaction>, owner: Owner, p: Id)
    requires InvExcept(s, open) && p <= |s.cells| && Later(s, NewPromise(s, owner))
    ensures var r := NewPromise(s, owner); CellOk(r, p) && HistoryOk(r, p) && TokenOk(r, p, open)
  {
    var r := NewPromise(s, owner);
    OutstandingMake(s, owner, Adopt(p));
    OutstandingMake(s, owner, AdoptSubscribe(p));
    if p < |s.cells| {
      assert CellOk(s, p) && HistoryOk(s, p) && TokenOk(s, p, open);
      CellLater(s, r, p);
    } else {
      if Outstanding(s, AdoptSubscribe(p)) > 0 { OutstandingNamed(s, open, AdoptSubscribe(p)); }
      if Outstanding(s, Adopt(p)) > 0 { OutstandingNamed(s, open, Adopt(p)); }
      NothingFrom(p, Tasks(s), s);
    }
  }

  /** Promise.all's bookkeeping only depends on settled promises and on its own outstanding reactions. */
  lemma AllFrame(s: State, r: State, a: Id, open: set<Reaction>, open': set<Reaction>)
    requires forall i :: AllElement(a, i) in open ==> AllElement(a, i) in open'
    requires a < |s.alls| && AllOk(s, a, open) && Later(s, r)
    requires r.alls[a] == s.alls[a]
    requires forall i :: Outstanding(r, AllElement(a, i)) == Outstanding(s, AllElement(a, i))
    ensures AllOk(r, a, open')
  {
    forall i | 0 <= i < |r.alls[a].done| ensures ElementOk(r, a, i, open') {
      assert ElementOk(s, a, i, open);
    }
  }

  lemma {:induction false} NothingFrom(p: Id, ts: seq<Task>, s: State)
    requires p >= |s.cells|
    requires TasksOk(s, ts)
    ensures From(p, ts) == []
  {
    if ts != [] { NothingFrom(p, ts[..|ts| - 1], s); }
  }

  // ---------------------------------------------------------------- steps that change one promise

  /** The shape of every primitive but `NewPromise`: one cell is rewritten and tasks are appended. */
  ghost function Rewritten(s: State, p: Id, c: Cell, unhandled: int, ts: seq<Task>): State
    requires p < |s.cells|
  {
    s.(cells := s.cells[p := c], unhandled := unhandled, queue := s.queue + ts)
  }

  lemma OutstandingRewritten(on: Reaction, s: State, p: Id, c: Cell, unhandled: int, ts: seq<Task>)
    requires p < |s.cells|
    ensures Outstanding(Rewritten(s, p, c, unhandled, ts), on) + Copies(on, s.cells[p].waiting)
         == Outstanding(s, on) + Copies(on, c.waiting) + Copies(on, Reactions(ts))
  {
    WaitingUpdate(on, s.cells, p, c);
    ReactionsConcat(on, s.queue, ts);
  }

  lemma TasksRewritten(s: State, p: Id, c: Cell, unhandled: int, ts: seq<Task>)
    requires p < |s.cells|
    ensures Tasks(Rewritten(s, p, c, unhandled, ts)) == Tasks(s) + ts
  {
  }

  lemma RewriteKeeps(s: State, p: Id, c: Cell, unhandled: int, ts: seq<Task>, noted: seq<Reaction>,
                     open: set<Reaction>, open': set<Reaction>)
    requires p < |s.cells| && InvExcept(s, open)
    requires LaterCell(s.cells[p], c)
    requires c.history == s.cells[p].history + noted
    requires From(p, ts) + c.waiting == s.cells[p].waiting + noted
    requires forall q :: q != p ==> From(q, ts) == []
    requires var r := Rewritten(s, p, c, unhandled, ts);
      && CellOk(r, p)
      && OpenOk(r, open')
      && TasksOk(r, ts)
      && FitAll(r, p, c.waiting)
      && TokensOk(r, open')
      && AllsOk(r, open')
      && unhandled == CountUnhandled(r.cells)
    ensures var r := Rewritten(s, p, c, unhandled, ts); InvExcept(r, open') && Later(s, r)
  {
    var r := Rewritten(s, p, c, unhandled, ts);
    TasksRewritten(s, p, c, unhandled, ts);
    assert Later(s, r);
    TasksLater(s, r, open);
    forall q | 0 <= q < |r.cells| ensures CellOk(r, q) && HistoryOk(r, q) {
      assert HistoryOk(s, q);
      RewriteHistory(s, p, c, unhandled, ts, noted, q);
      if q != p { CellLater(s, r, q); }
    }
    forall q | 0 <= q < |r.cells| ensures FitAll(r, q, r.cells[q].waiting) {
      if q != p { WaitersLater(s, r, open, q); }
    }
  }

  lemma RewriteHistory(s: State, p: Id, c: Cell, unhandled: int, ts: seq<Task>, noted: seq<Reaction>, q: Id)
    requires p < |s.cells| && q < |s.cells| && HistoryOk(s, q)
    requires c.history == s.cells[p].history + noted
    requires From(p, ts) + c.waiting == s.cells[p].waiting + noted
    requires q != p ==> From(q, ts) == []
    ensures HistoryOk(Rewritten(s, p, c, unhandled, ts), q)
  {
    hide From, Tasks;
    TasksRewritten(s, p, c, unhandled, ts);
    FromConcat(q, Tasks(s), ts);
    if q == p {
      calc {
        From(p, Tasks(s)) + From(p, ts) + c.waiting;
        From(p, Tasks(s)) + (From(p, ts) + c.waiting);
        From(p, Tasks(s)) + s.cells[p].waiting + noted;
      }
    }
  }

  lemma AllsUntouched(s: State, r: State, open: set<Reaction>, open': set<Reaction>)
    requires InvExcept(s, open) && Later(s, r) && r.alls == s.alls
    requires forall on: Reaction :: on.AllElement? ==> Outstanding(r, on) == Outstanding(s, on)
    requires forall on: Reaction :: on.AllElement? && on in open ==> on in open'
    ensures AllsOk(r, open')
  {
    forall a | 0 <= a < |s.alls| ensures AllOk(r, a, open') { AllFrame(s, r, a, open, open'); }
  }

  /** Taking the [[AlreadyResolved]] flag hands the promise's settlement to the caller. */
  lemma MarkKeeps(s: State, open: set<Reaction>, p: Id, adopting: Option<Id>)
    requires InvExcept(s, open) && p < |s.cells| && !s.cells[p].resolved
    requires adopting.Some? ==> adopting.value < |s.cells|
    ensures InvExcept(MarkResolved(s, p, adopting), open + {Adopt(p)}) && Later(s, MarkResolved(s, p, adopting))
  {
    var c := s.cells[p].(resolved := true, adopting := adopting);
    var r := Rewritten(s, p, c, s.unhandled, []);
    assert r == MarkResolved(s, p, adopting) by { assert s.queue + [] == s.queue; }
    assert CellOk(s, p) && TokenOk(s, p, open);
    forall on ensures Outstanding(r, on) == Outstanding(s, on) { OutstandingRewritten(on, s, p, c, s.unhandled, []); }
    TasksRewritten(s, p, c, s.unhandled, []);
    CountUnhandledUpdate(s.cells, p, c);
    assert Later(s, r);
    AllsUntouched(s, r, open, open + {Adopt(p)});
    forall q | 0 <= q < |s.cells| ensures TokenOk(r, q, open + {Adopt(p)}) { assert TokenOk(s, q, open); }
    WaitersLater(s, r, open, p);
    RewriteKeeps(s, p, c, s.unhandled, [], [], open, open + {Adopt(p)});
  }

  lemma JobFrom(q: Id, t: Task)
    ensures From(q, [t]) == if t.source == Some(q) then [t.on] else []
  {
    assert [t][..0] == [];
  }

  /** NewPromiseResolveThenableJob: the one queued job is now the promise's settlement token. */
  lemma AdoptJobKeeps(s: State, open: set<Reaction>, p: Id, q: Id)
    requires InvExcept(s, open) && Adopt(p) in open && p < |s.cells| && q < |s.cells|
    requires s.cells[p].adopting == Some(q)
    ensures var r := Enqueue(s, Task(AdoptSubscribe(p), PromiseRef(q), false, None));
      InvExcept(r, open - {Adopt(p)}) && Later(s, r)
  {
    hide From, HistoryOk;
    var t := Task(AdoptSubscribe(p), PromiseRef(q), false, None);
    var r := Rewritten(s, p, s.cells[p], s.unhandled, [t]);
    assert r == Enqueue(s, t) by { assert s.cells[p := s.cells[p]] == s.cells; }
    forall on ensures Outstanding(r, on) == Outstanding(s, on) + (if on == t.on then 1 else 0) {
      OutstandingRewritten(on, s, p, s.cells[p], s.unhandled, [t]);
      assert Reactions([t]) == [t.on];
    }
    TasksRewritten(s, p, s.cells[p], s.unhandled, [t]);
    assert Later(s, r);
    AllsUntouched(s, r, open, open - {Adopt(p)});
    forall q' | 0 <= q' < |s.cells| ensures TokenOk(r, q', open - {Adopt(p)}) { assert TokenOk(s, q', open); }
    WaitersLater(s, r, open, p);
    CellLater(s, r, p);
    forall q' ensures From(q', [t]) == [] { JobFrom(q', t); }
    RewriteKeeps(s, p, s.cells[p], s.unhandled, [t], [], open, open - {Adopt(p)});
  }

  // ---------------------------------------------------------------- subscribing

  /** `on` may be subscribed to `q` now. */
  ghost predicate MaySubscribe(s: State, open: set<Reaction>, q: Id, on: Reaction) {
    && ReactionFits(s, q, on)
    && (on.Adopt? || on.AllElement? ==> on in open)
    && (on.AllElement? ==> !s.alls[on.all].done[on.index])
  }

  ghost function StillOpen(open: set<Reaction>, on: Reaction): set<Reaction> {
    open - {on}
  }

  /** What subscribing queues: nothing while the promise is pending. */
  ghost function QueuedBySubscribe(s: State, q: Id, on: Reaction): seq<Task>
    requires q < |s.cells|
  {
    var c := s.cells[q];
    if c.status == Pending then [] else [Task(on, c.value, c.status == Rejected, Some(q))]
  }

  lemma SubscribeIsRewrite(s: State, q: Id, on: Reaction)
    requires q < |s.cells|
    ensures var r := Subscribe(s, q, on);
      && r == Rewritten(s, q, r.cells[q], r.unhandled, QueuedBySubscribe(s, q, on))
      && Tasks(r) == Tasks(s) + QueuedBySubscribe(s, q, on)
      && Later(s, r)
  {
    var r := Subscribe(s, q, on);
    if s.cells[q].status == Pending { assert s.queue + [] == s.queue; }
    TasksRewritten(s, q, r.cells[q], r.unhandled, QueuedBySubscribe(s, q, on));
  }

  lemma OutstandingSubscribe(s: State, q: Id, on: Reaction, r': Reaction)
    requires q < |s.cells|
    requires s.cells[q].status != Pending ==> s.cells[q].waiting == []
    ensures Outstanding(Subscribe(s, q, on), r') == Outstanding(s, r') + (if r' == on then 1 else 0)
  {
    var r := Subscribe(s, q, on);
    var ts := QueuedBySubscribe(s, q, on);
    SubscribeIsRewrite(s, q, on);
    OutstandingRewritten(r', s, q, r.cells[q], r.unhandled, ts);
    if ts != [] { assert Reactions(ts) == [on]; }
  }

  lemma SubscribeFrom(s: State, q: Id, on: Reaction, p: Id)
    requires q < |s.cells|
    ensures From(p, QueuedBySubscribe(s, q, on)) == if p == q && s.cells[q].status != Pending then [on] else []
  {
    if s.cells[q].status != Pending { JobFrom(p, QueuedBySubscribe(s, q, on)[0]); }
  }

  lemma SubscribedTask(s: State, open: set<Reaction>, q: Id, on: Reaction)
    requires InvExcept(s, open) && q < |s.cells| && ReactionFits(s, q, on)
    ensures var r := Subscribe(s, q, on); var ts := QueuedBySubscribe(s, q, on);
      && CellOk(r, q)
      && TasksOk(r, ts)
      && FitAll(r, q, r.cells[q].waiting)
  {
    var r := Subscribe(s, q, on);
    assert CellOk(s, q);
    SubscribeIsRewrite(s, q, on);
    FitsLater(s, r, q, on);
    WaitersLater(s, r, open, q);
  }

  lemma SubscribeKeeps(s: State, open: set<Reaction>, q: Id, on: Reaction)
    requires InvExcept(s, open) && q < |s.cells| && MaySubscribe(s, open, q, on)
    ensures InvExcept(Subscribe(s, q, on), StillOpen(open, on)) && Later(s, Subscribe(s, q, on))
  {
    var r := Subscribe(s, q, on);
    var d := r.cells[q];
    var ts := QueuedBySubscribe(s, q, on);
    SubscribeIsRewrite(s, q, on);
    SubscribedTask(s, open, q, on);
    SubscribeTokens(s, open, q, on);
    SubscribeAlls(s, open, q, on);
    SubscribeFrom(s, q, on, q);
    forall p | p != q ensures From(p, ts) == [] { SubscribeFrom(s, q, on, p); }
    assert r.unhandled == CountUnhandled(r.cells) by { SubscribeCounts(s, open, q, on); }
    assert OpenOk(r, StillOpen(open, on)) by {
      forall on' | on' in open && on' != on ensures Outstanding(r, on') == 0 { OutstandingSubscribe(s, q, on, on'); }
    }
    assert CellOk(s, q);
    RewriteKeeps(s, q, d, r.unhandled, ts, [on], open, StillOpen(open, on));
  }

  lemma SubscribeCounts(s: State, open: set<Reaction>, q: Id, on: Reaction)
    requires InvExcept(s, open) && q < |s.cells|
    ensures Subscribe(s, q, on).unhandled == CountUnhandled(Subscribe(s, q, on).cells)
  {
    assert CellOk(s, q);
    CountUnhandledUpdate(s.cells, q, Subscribe(s, q, on).cells[q]);
  }

  lemma SubscribeTokens(s: State, open: set<Reaction>, q: Id, on: Reaction)
    requires InvExcept(s, open) && q < |s.cells| && MaySubscribe(s, open, q, on)
    ensures TokensOk(Subscribe(s, q, on), StillOpen(open, on))
  {
    assert CellOk(s, q);
    forall p | 0 <= p < |s.cells| ensures TokenOk(Subscribe(s, q, on), p, StillOpen(open, on)) {
      assert TokenOk(s, p, open);
      OutstandingSubscribe(s, q, on, Adopt(p));
      OutstandingSubscribe(s, q, on, AdoptSubscribe(p));
    }
  }

  lemma SubscribeAlls(s: State, open: set<Reaction>, q: Id, on: Reaction)
    requires InvExcept(s, open) && q < |s.cells| && MaySubscribe(s, open, q, on)
    ensures AllsOk(Subscribe(s, q, on), StillOpen(open, on))
  {
    var r := Subscribe(s, q, on);
    SubscribeIsRewrite(s, q, on);
    assert CellOk(s, q);
    forall a | 0 <= a < |s.alls| ensures AllOk(r, a, StillOpen(open, on)) {
      assert AllOk(s, a, open);
      CountFalseZero(s.alls[a].done);
      if i :| AllElement(a, i) in open && AllElement(a, i) != on { assert AllElement(a, i) in StillOpen(open, on); }
      forall i | 0 <= i < |r.alls[a].done| ensures ElementOk(r, a, i, StillOpen(open, on)) {
        assert ElementOk(s, a, i, open);
        OutstandingSubscribe(s, q, on, AllElement(a, i));
      }
    }
  }

  // ---------------------------------------------------------------- settling

  lemma SettleNowShape(s: State, p: Id, v: Value, rejected: bool)
    requires p < |s.cells| && s.cells[p].status == Pending
    ensures var r := SettleNow(s, p, v, rejected);
      var ts := Deliveries(p, s.cells[p].waiting, v, rejected);
      && r == Rewritten(s, p, r.cells[p], r.unhandled, ts)
      && Later(s, r)
      && (forall on :: Outstanding(r, on) == Outstanding(s, on))
      && (forall q :: From(q, ts) == if q == p then s.cells[p].waiting else [])
  {
    var c := s.cells[p];
    var r := SettleNow(s, p, v, rejected);
    var d := r.cells[p];
    var ts := Deliveries(p, c.waiting, v, rejected);
    TasksRewritten(s, p, d, r.unhandled, ts);
    forall on ensures Outstanding(r, on) == Outstanding(s, on) {
      OutstandingRewritten(on, s, p, d, r.unhandled, ts);
      assert Reactions(ts) == c.waiting;
    }
    forall q ensures From(q, ts) == if q == p then c.waiting else [] { FromDeliveries(q, p, c.waiting, v, rejected); }
  }

  /** The unguarded state change, for a promise whose settlement this code holds. */
  lemma SettleNowKeeps(s: State, open: set<Reaction>, p: Id, v: Value, rejected: bool)
    requires InvExcept(s, open) && Adopt(p) in open && p < |s.cells| && ValidValue(s, v)
    requires !rejected ==> !v.PromiseRef?
    requires s.cells[p].adopting.Some? ==>
      var q := s.cells[p].adopting.value;
      Settled(s, q) && s.cells[q].value == v && s.cells[q].status == StatusOf(rejected)
    ensures InvExcept(SettleNow(s, p, v, rejected), open - {Adopt(p)}) && Later(s, SettleNow(s, p, v, rejected))
  {
    var r := SettleNow(s, p, v, rejected);
    var d := r.cells[p];
    assert CellOk(s, p);
    SettleNowShape(s, p, v, rejected);
    CountUnhandledUpdate(s.cells, p, d);
    AllsUntouched(s, r, open, open - {Adopt(p)});
    forall q | 0 <= q < |s.cells| ensures TokenOk(r, q, open - {Adopt(p)}) { assert TokenOk(s, q, open); }
    SettledCell(s, open, p, v, rejected);
    SettledTasks(s, open, p, v, rejected);
    RewriteKeeps(s, p, d, r.unhandled, Deliveries(p, s.cells[p].waiting, v, rejected), [], open, open - {Adopt(p)});
  }

  lemma SettledCell(s: State, open: set<Reaction>, p: Id, v: Value, rejected: bool)
    requires InvExcept(s, open) && p < |s.cells| && ValidValue(s, v)
    requires s.cells[p].status == Pending && s.cells[p].resolved && (!rejected ==> !v.PromiseRef?)
    requires s.cells[p].adopting.Some? ==>
      var q := s.cells[p].adopting.value;
      Settled(s, q) && s.cells[q].value == v && s.cells[q].status == StatusOf(rejected)
    ensures CellOk(SettleNow(s, p, v, rejected), p)
  {
    assert CellOk(s, p);
    PendingNeverDelivered(s, open, p);
  }

  lemma SettledTasks(s: State, open: set<Reaction>, p: Id, v: Value, rejected: bool)
    requires InvExcept(s, open) && p < |s.cells| && ValidValue(s, v) && s.cells[p].status == Pending
    ensures var ts := Deliveries(p, s.cells[p].waiting, v, rejected);
      TasksOk(SettleNow(s, p, v, rejected), ts)
  {
    var r := SettleNow(s, p, v, rejected);
    var ts := Deliveries(p, s.cells[p].waiting, v, rejected);
    SettleNowShape(s, p, v, rejected);
    assert FitAll(s, p, s.cells[p].waiting);
    forall i | 0 <= i < |ts| ensures TaskOk(r, ts[i]) {
      FitsLater(s, r, p, s.cells[p].waiting[i]);
    }
  }

  /** Nothing was ever queued for a pending promise, so its history is its waiting list. */
  lemma PendingNeverDelivered(s: State, open: set<Reaction>, p: Id)
    requires InvExcept(s, open) && p < |s.cells| && s.cells[p].status == Pending
    ensures s.cells[p].history == s.cells[p].waiting
  {
    NoneQueuedFor(p, Tasks(s), s);
    assert HistoryOk(s, p);
  }

  lemma {:induction false} NoneQueuedFor(p: Id, ts: seq<Task>, s: State)
    requires !Settled(s, p)
    requires TasksOk(s, ts)
    ensures From(p, ts) == []
  {
    if ts != [] { NoneQueuedFor(p, ts[..|ts| - 1], s); }
  }

  lemma SettleKeeps(s: State, open: set<Reaction>, p: Id, v: Value, rejected: bool)
    requires InvExcept(s, open) && p < |s.cells| && ValidValue(s, v)
    ensures InvExcept(Settle(s, p, v, rejected), open) && Later(s, Settle(s, p, v, rejected))
  {
    if !s.cells[p].resolved {
      var adopted := if !rejected && v.PromiseRef? && v.id != p then Some(v.id) else None;
      MarkKeeps(s, open, p, adopted);
      var s1 := MarkResolved(s, p, adopted);
      assert Adopt(p) !in open;
      assert open + {Adopt(p)} - {Adopt(p)} == open;
      if adopted.Some? {
        AdoptJobKeeps(s1, open + {Adopt(p)}, p, v.id);
      } else if !rejected && v.PromiseRef? {
        SettleNowKeeps(s1, open + {Adopt(p)}, p, CycleError, true);
      } else {
        SettleNowKeeps(s1, open + {Adopt(p)}, p, v, rejected);
      }
      LaterTransitive(s, s1, Settle(s, p, v, rejected));
    }
  }

  lemma ResolveKeeps(s: State, open: set<Reaction>, v: Value)
    requires InvExcept(s, open) && ValidValue(s, v)
    ensures InvExcept(Resolve(s, v).0, open) && Later(s, Resolve(s, v).0)
    ensures Resolve(s, v).0.alls == s.alls
  {
    if !v.PromiseRef? {
      MakeKeeps(s, open, Program);
      SettleKeeps(NewPromise(s, Program), open, |s.cells|, v, false);
      LaterTransitive(s, NewPromise(s, Program), Resolve(s, v).0);
    }
  }
}

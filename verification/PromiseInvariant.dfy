/** What every step of the promise machine keeps. */
module PromiseInvariant {
  import opened Options
  import opened PromiseModel

  // ---------------------------------------------------------------- counting

  function Reactions(ts: seq<Task>): (rs: seq<Reaction>)
    ensures |rs| == |ts|
  {
    seq(|ts|, i requires 0 <= i < |ts| => ts[i].on)
  }

  function Copies(r: Reaction, rs: seq<Reaction>): nat {
    multiset(rs)[r]
  }

  function WaitingCopies(r: Reaction, cs: seq<Cell>): nat {
    if cs == [] then 0 else WaitingCopies(r, cs[..|cs| - 1]) + Copies(r, cs[|cs| - 1].waiting)
  }

  /** How often `r` is registered somewhere or queued. */
  function Outstanding(s: State, r: Reaction): nat {
    Copies(r, Reactions(s.queue)) + WaitingCopies(r, s.cells)
  }

  /** The reactions that can still settle `p` past its [[AlreadyResolved]] flag. */
  function Tokens(s: State, p: Id): nat {
    Outstanding(s, Adopt(p)) + Outstanding(s, AdoptSubscribe(p))
  }

  /** The reactions queued on behalf of `p`, in queue order. */
  function From(p: Id, ts: seq<Task>): seq<Reaction> {
    if ts == [] then []
    else From(p, ts[..|ts| - 1]) + (if ts[|ts| - 1].source == Some(p) then [ts[|ts| - 1].on] else [])
  }

  function CountUnhandled(cs: seq<Cell>): nat {
    if cs == [] then 0 else CountUnhandled(cs[..|cs| - 1]) + (if cs[|cs| - 1].unhandled then 1 else 0)
  }

  function CountFalse(bs: seq<bool>): nat {
    if bs == [] then 0 else CountFalse(bs[..|bs| - 1]) + (if bs[|bs| - 1] then 0 else 1)
  }

  /** Every task ever queued, in order: first those already run, then those waiting. */
  function Tasks(s: State): seq<Task> { s.log + s.queue }

  // ---------------------------------------------------------------- the invariant

  ghost predicate Settled(s: State, p: Id) {
    p < |s.cells| && s.cells[p].status != Pending
  }

  ghost predicate SameSettlement(s: State, p: Id, q: Id) {
    && Settled(s, q)
    && p < |s.cells|
    && s.cells[p].status == s.cells[q].status
    && s.cells[p].value == s.cells[q].value
  }

  ghost predicate CellOk(s: State, p: Id)
    requires p < |s.cells|
  {
    var c := s.cells[p];
    && (c.status == Pending ==> c.value == Undefined)
    && (c.status != Pending ==> c.resolved && c.waiting == [])
    && (c.status == Fulfilled ==> !c.value.PromiseRef?)
    && (c.unhandled <==> c.status == Rejected && c.history == [])
    && ValidValue(s, c.value)
    && (c.adopting.Some? ==>
          && c.resolved
          && c.adopting.value < |s.cells|
          && (c.status != Pending ==> SameSettlement(s, p, c.adopting.value)))
  }

  /** Subscriptions = delivered + queued + registered, in subscription order. */
  ghost predicate HistoryOk(s: State, p: Id)
    requires p < |s.cells|
  {
    From(p, Tasks(s)) + s.cells[p].waiting == s.cells[p].history
  }

  ghost predicate TokenOk(s: State, p: Id, open: set<Reaction>)
    requires p < |s.cells|
  {
    Tokens(s, p) == if s.cells[p].resolved && s.cells[p].status == Pending && Adopt(p) !in open then 1 else 0
  }

  predicate Resolves(r: Reaction) { r.ThenReact? || r.FinallyReact? || r.FinallyThunk? }

  /** `r` may be registered on, or queued for, the promise `q`. */
  ghost predicate ReactionFits(s: State, q: Id, r: Reaction) {
    && ReactionNames(s, r)
    && !r.AdoptSubscribe?
    && (r.Adopt? ==> s.cells[r.outer].adopting == Some(q))
    && (r.AllElement? ==> s.alls[r.all].elements[r.index] == q)
    && (Resolves(r) ==> s.cells[r.derived].owner == Owed(q, r))
  }

  ghost predicate TaskOk(s: State, t: Task) {
    && ValidValue(s, t.value)
    && match t.source
       case Some(q) =>
         && Settled(s, q)
         && t.value == s.cells[q].value
         && t.rejected == (s.cells[q].status == Rejected)
         && ReactionFits(s, q, t.on)
       case None =>
         && t.on.AdoptSubscribe?
         && t.on.outer < |s.cells|
         && t.value.PromiseRef?
         && !t.rejected
         && s.cells[t.on.outer].adopting == Some(t.value.id)
  }

  ghost predicate AllOk(s: State, a: Id, open: set<Reaction>)
    requires a < |s.alls|
  {
    var all := s.alls[a];
    && all.promise < |s.cells|
    && |all.elements| <= |all.results| == |all.done|
    && all.remaining == CountFalse(all.done)
    && (all.remaining == 0 ==> s.cells[all.promise].resolved || exists i :: AllElement(a, i) in open)
    && (forall i :: 0 <= i < |all.done| ==> ElementOk(s, a, i, open))
  }

  /** An element is delivered at most once; what it left behind is its promise's value, at its index. */
  ghost predicate ElementOk(s: State, a: Id, i: nat, open: set<Reaction>)
    requires a < |s.alls| && i < |s.alls[a].results| && i < |s.alls[a].done|
  {
    var all := s.alls[a];
    && Outstanding(s, AllElement(a, i)) <= 1
    && (i >= |all.elements| ==> !all.done[i] && Outstanding(s, AllElement(a, i)) == 0)
    && (i < |all.elements| ==> all.elements[i] < |s.cells|)
    && (i < |all.elements| && all.done[i] ==>
          && Outstanding(s, AllElement(a, i)) == 0
          && s.cells[all.elements[i]].status == Fulfilled
          && all.results[i] == s.cells[all.elements[i]].value)
    && (i < |all.elements| && !all.done[i] && Outstanding(s, AllElement(a, i)) == 0 && AllElement(a, i) !in open ==>
          s.cells[all.elements[i]].status == Rejected)
  }

  /** A reaction in hand has left the machine; an adoption in hand still owes its promise a settlement. */
  ghost predicate OpenOk(s: State, open: set<Reaction>) {
    forall on :: on in open ==>
      && (on.Adopt? || on.AllElement?)
      && Outstanding(s, on) == 0
      && (on.Adopt? ==> on.outer < |s.cells| && s.cells[on.outer].resolved && s.cells[on.outer].status == Pending)
  }

  ghost predicate CellsOk(s: State) { forall p :: 0 <= p < |s.cells| ==> CellOk(s, p) }

  ghost predicate HistoriesOk(s: State) { forall p :: 0 <= p < |s.cells| ==> HistoryOk(s, p) }

  ghost predicate TokensOk(s: State, open: set<Reaction>) { forall p :: 0 <= p < |s.cells| ==> TokenOk(s, p, open) }

  ghost predicate TasksOk(s: State, ts: seq<Task>) { forall i :: 0 <= i < |ts| ==> TaskOk(s, ts[i]) }

  ghost predicate FitAll(s: State, p: Id, rs: seq<Reaction>) {
    forall k :: 0 <= k < |rs| ==> ReactionFits(s, p, rs[k])
  }

  ghost predicate WaitersOk(s: State) { forall p :: 0 <= p < |s.cells| ==> FitAll(s, p, s.cells[p].waiting) }

  ghost predicate AllsOk(s: State, open: set<Reaction>) { forall a :: 0 <= a < |s.alls| ==> AllOk(s, a, open) }

  /** `open` holds the reactions in hand: taken off the machine, or not yet on it, by the code running now. */
  ghost predicate InvExcept(s: State, open: set<Reaction>) {
    && OpenOk(s, open)
    && CellsOk(s)
    && HistoriesOk(s)
    && TokensOk(s, open)
    && TasksOk(s, Tasks(s))
    && WaitersOk(s)
    && AllsOk(s, open)
    && s.unhandled == CountUnhandled(s.cells)
  }

  ghost predicate Inv(s: State) { InvExcept(s, {}) }

  /** `r` is a later state than `s`: what has been decided, recorded or run never changes. */
  ghost predicate Later(s: State, r: State) {
    && Grows(s, r)
    && s.log <= r.log
    && Tasks(s) <= Tasks(r)
    && (forall p :: 0 <= p < |s.cells| ==> LaterCell(s.cells[p], r.cells[p]))
    && (forall a :: 0 <= a < |s.alls| ==> s.alls[a].elements <= r.alls[a].elements)
  }

  ghost predicate LaterCell(c: Cell, d: Cell) {
    && (c.resolved ==> d.resolved)
    && (c.status != Pending ==> d.status == c.status && d.value == c.value)
    && (c.adopting.Some? ==> d.adopting == c.adopting)
    && c.history <= d.history
    && d.owner == c.owner
  }

  // ---------------------------------------------------------------- laws of the counters

  lemma {:induction false} WaitingUpdate(r: Reaction, cs: seq<Cell>, p: nat, c: Cell)
    requires p < |cs|
    ensures WaitingCopies(r, cs[p := c]) + Copies(r, cs[p].waiting) == WaitingCopies(r, cs) + Copies(r, c.waiting)
  {
    var n := |cs| - 1;
    if p == n {
      assert cs[p := c][..n] == cs[..n];
    } else {
      WaitingUpdate(r, cs[..n], p, c);
      assert cs[p := c][..n] == cs[..n][p := c];
    }
  }

  lemma {:induction false} CountUnhandledUpdate(cs: seq<Cell>, p: nat, c: Cell)
    requires p < |cs|
    ensures CountUnhandled(cs[p := c]) + (if cs[p].unhandled then 1 else 0)
         == CountUnhandled(cs) + (if c.unhandled then 1 else 0)
  {
    var n := |cs| - 1;
    if p == n {
      assert cs[p := c][..n] == cs[..n];
    } else {
      CountUnhandledUpdate(cs[..n], p, c);
      assert cs[p := c][..n] == cs[..n][p := c];
    }
  }

  lemma {:induction false} CountFalseUpdate(bs: seq<bool>, i: nat)
    requires i < |bs| && !bs[i]
    ensures CountFalse(bs[i := true]) == CountFalse(bs) - 1
  {
    var n := |bs| - 1;
    if i == n {
      assert bs[i := true][..n] == bs[..n];
    } else {
      CountFalseUpdate(bs[..n], i);
      assert bs[i := true][..n] == bs[..n][i := true];
    }
  }

  lemma {:induction false} CountFalseZero(bs: seq<bool>)
    ensures CountFalse(bs) == 0 <==> forall i :: 0 <= i < |bs| ==> bs[i]
  {
    if bs != [] {
      var n := |bs| - 1;
      CountFalseZero(bs[..n]);
      assert forall i :: 0 <= i < n ==> bs[..n][i] == bs[i];
    }
  }

  lemma {:induction false} CountFalseFresh(n: nat)
    ensures CountFalse(seq(n, _ => false)) == n
  {
    if n > 0 {
      CountFalseFresh(n - 1);
      assert seq(n, _ => false)[..n - 1] == seq(n - 1, _ => false);
    }
  }

  lemma {:induction false} FromConcat(p: Id, a: seq<Task>, b: seq<Task>)
    ensures From(p, a + b) == From(p, a) + From(p, b)
  {
    if b == [] {
      assert a + b == a;
    } else {
      FromConcat(p, a, b[..|b| - 1]);
      assert (a + b)[..|a + b| - 1] == a + b[..|b| - 1];
    }
  }

  lemma {:induction false} FromDeliveries(p: Id, q: Id, rs: seq<Reaction>, v: Value, rejected: bool)
    ensures From(p, Deliveries(q, rs, v, rejected)) == if p == q then rs else []
  {
    var ts := Deliveries(q, rs, v, rejected);
    if rs != [] {
      var n := |rs| - 1;
      FromDeliveries(p, q, rs[..n], v, rejected);
      assert ts[..n] == Deliveries(q, rs[..n], v, rejected);
      assert rs == rs[..n] + [rs[n]];
    }
  }

  lemma ReactionsConcat(r: Reaction, a: seq<Task>, b: seq<Task>)
    ensures Copies(r, Reactions(a + b)) == Copies(r, Reactions(a)) + Copies(r, Reactions(b))
  {
    assert Reactions(a + b) == Reactions(a) + Reactions(b);
  }

  lemma {:induction false} WaitingMember(r: Reaction, cs: seq<Cell>) returns (p: nat)
    requires WaitingCopies(r, cs) > 0
    ensures p < |cs| && r in cs[p].waiting
  {
    var n := |cs| - 1;
    if r in cs[n].waiting {
      p := n;
    } else {
      p := WaitingMember(r, cs[..n]);
    }
  }

  /** Nothing outstanding names what does not exist. */
  lemma OutstandingNamed(s: State, open: set<Reaction>, r: Reaction)
    requires InvExcept(s, open) && Outstanding(s, r) > 0
    ensures ReactionNames(s, r)
  {
    if Copies(r, Reactions(s.queue)) > 0 {
      var i :| 0 <= i < |s.queue| && Reactions(s.queue)[i] == r;
      assert TaskOk(s, Tasks(s)[|s.log| + i]);
    } else {
      var p := WaitingMember(r, s.cells);
      assert FitAll(s, p, s.cells[p].waiting);
      var k :| 0 <= k < |s.cells[p].waiting| && s.cells[p].waiting[k] == r;
    }
  }
}

/** The ES2025 set operations (section 24.2.4 of ECMA-262; jsrt_map.c), each against the elements in order. */
module MapSets {
  import opened MapModel
  import opened MapTable
  import opened MapRuntime

  /** The elements of `ps` whose membership in `qs` is `want`, in order. */
  function Where(ps: seq<Pair>, qs: seq<Pair>, want: bool): seq<Pair> {
    if ps == [] then []
    else if Has(qs, ps[|ps| - 1].key) == want then Where(ps[..|ps| - 1], qs, want) + [ps[|ps| - 1]]
    else Where(ps[..|ps| - 1], qs, want)
  }

  /** A Set's own entries: the keys, no values. */
  function Bare(ps: seq<Pair>): (r: seq<Pair>)
    ensures |r| == |ps|
  {
    seq(|ps|, i requires 0 <= i < |ps| => Pair(Normalized(ps[i].key), Undefined))
  }

  function AddAll(into: seq<Pair>, ps: seq<Pair>): seq<Pair> {
    if ps == [] then into else Put(AddAll(into, ps[..|ps| - 1]), ps[|ps| - 1].key, Undefined)
  }

  lemma BareKeys(ps: seq<Pair>)
    ensures Keys(Bare(ps)) == Keys(ps)
  {
    forall i | 0 <= i < |ps| ensures Keys(Bare(ps))[i] == Keys(ps)[i] { NormalizedIsSame(ps[i].key); }
  }

  lemma DistinctPrefix(ps: seq<Pair>)
    requires DistinctKeys(ps) && ps != []
    ensures var n := |ps| - 1;
      && Keys(ps) == Keys(ps[..n]) + [KeyOf(ps[n])]
      && DistinctKeys(ps[..n])
      && KeyOf(ps[n]) !in Keys(ps[..n])
  {
    var n := |ps| - 1;
    assert Keys(ps) == Keys(ps[..n]) + [KeyOf(ps[n])];
    forall i | 0 <= i < n ensures Keys(ps[..n])[i] != KeyOf(ps[n]) { assert Keys(ps)[i] != Keys(ps)[n]; }
    forall i, j | 0 <= i < j < n ensures Keys(ps[..n])[i] != Keys(ps[..n])[j] { assert Keys(ps)[i] != Keys(ps)[j]; }
  }

  lemma {:induction false} WhereKeys(ps: seq<Pair>, qs: seq<Pair>, want: bool)
    ensures forall k :: k in Keys(Where(ps, qs, want)) <==> k in Keys(ps) && (k in Keys(qs)) == want
    ensures DistinctKeys(ps) ==> DistinctKeys(Where(ps, qs, want))
  {
    if ps != [] {
      var n := |ps| - 1;
      WhereKeys(ps[..n], qs, want);
      var ws := Where(ps[..n], qs, want);
      assert Keys(ps) == Keys(ps[..n]) + [KeyOf(ps[n])];
      assert Keys(ws + [ps[n]]) == Keys(ws) + [KeyOf(ps[n])];
      if DistinctKeys(ps) { DistinctPrefix(ps); }
    }
  }

  /** Adding distinct keys to a bare set appends those it does not have. */
  lemma {:induction false} AddAllIs(into: seq<Pair>, ps: seq<Pair>)
    requires DistinctKeys(ps) && Bare(into) == into
    ensures AddAll(into, ps) == into + Bare(Where(ps, into, false))
  {
    if ps == [] {
      assert into + Bare([]) == into;
    } else {
      var n := |ps| - 1;
      DistinctPrefix(ps);
      AddAllIs(into, ps[..n]);
      var ws := Where(ps[..n], into, false);
      var before := into + Bare(ws);
      WhereKeys(ps[..n], into, false);
      BareKeys(ws);
      assert Keys(before) == Keys(into) + Keys(Bare(ws));
      assert Has(before, ps[n].key) <==> Has(into, ps[n].key);
      if Has(before, ps[n].key) {
        assert Overwrite(before, ps[n].key, Undefined) == before;
      } else {
        assert Bare(ws + [ps[n]]) == Bare(ws) + [Pair(Normalized(ps[n].key), Undefined)];
      }
    }
  }

  /** What is selected keeps its order. */
  lemma {:induction false} WhereInOrder(ps: seq<Pair>, qs: seq<Pair>, want: bool)
    ensures InOrderOf(Where(ps, qs, want), ps)
  {
    if ps == [] {
      assert Picks([], [], []);
    } else {
      var n := |ps| - 1;
      WhereInOrder(ps[..n], qs, want);
      PicksNext(Where(ps[..n], qs, want), ps, Has(qs, ps[n].key) == want);
    }
  }

  lemma {:induction false} WhereNone(ps: seq<Pair>)
    ensures Where(ps, [], false) == ps
  {
    if ps != [] {
      WhereNone(ps[..|ps| - 1]);
      assert ps == ps[..|ps| - 1] + [ps[|ps| - 1]];
    }
  }

  /** A set is never contained in a smaller one. */
  lemma ContainedIsNoLarger(ps: seq<Pair>, qs: seq<Pair>)
    requires DistinctKeys(ps)
    requires forall k :: k in Keys(ps) ==> k in Keys(qs)
    ensures |ps| <= |qs|
  {
    var a, b := set k | k in Keys(ps), set k | k in Keys(qs);
    DistinctSize(Keys(ps));
    SizeAtMost(Keys(qs));
    SubsetSize(a, b);
  }

  lemma {:induction false} DistinctSize(ks: seq<HashInput>)
    requires forall i, j :: 0 <= i < j < |ks| ==> ks[i] != ks[j]
    ensures |set k | k in ks| == |ks|
  {
    if ks != [] {
      var n := |ks| - 1;
      DistinctSize(ks[..n]);
      assert ks == ks[..n] + [ks[n]];
      assert (set k | k in ks) == (set k | k in ks[..n]) + {ks[n]};
    }
  }

  lemma {:induction false} SizeAtMost(ks: seq<HashInput>)
    ensures |set k | k in ks| <= |ks|
  {
    if ks != [] {
      var n := |ks| - 1;
      SizeAtMost(ks[..n]);
      assert ks == ks[..n] + [ks[n]];
      assert (set k | k in ks) == (set k | k in ks[..n]) + {ks[n]};
    }
  }

  lemma {:induction false} SubsetSize(a: set<HashInput>, b: set<HashInput>)
    requires a <= b
    ensures |a| <= |b|
  {
    assert b == a + (b - a);
  }

  // ---------------------------------------------------------------- the operations

  /** Two collections that share no storage. */
  ghost predicate Apart(out: JSMap, m: JSMap)
    reads out, m
  {
    out != m && out.entries != m.entries && out.index != m.index
  }

  /** What one more entry adds. */
  lemma AddAllStep(into: seq<Pair>, es: seq<Entry>, i: nat, qs: seq<Pair>, want: bool)
    requires i < |es|
    ensures var before := AddAll(into, Where(Live(es[..i]), qs, want));
      AddAll(into, Where(Live(es[..i + 1]), qs, want)) ==
      if es[i].live && Has(qs, es[i].key) == want then Put(before, es[i].key, Undefined) else before
  {
    assert es[..i + 1][..i] == es[..i];
    var ps := Live(es[..i]);
    var p := Pair(es[i].key, es[i].value);
    assert (ps + [p])[..|ps|] == ps;
    var ws := Where(ps, qs, want);
    assert (ws + [p])[..|ws|] == ws;
  }

  /** The two operands of an operation, and the set being built apart from both. */
  ghost predicate Operands(out: JSMap, walk: JSMap, test: JSMap)
    reads out, out.entries, out.index, walk, walk.entries, walk.index, test, test.entries, test.index
  {
    && out.Valid() && walk.Valid() && test.Valid()
    && Apart(out, walk) && Apart(out, test) && !IsWeak(out.kind)
  }

  /** The state of `add_where` after `i` entries of `walk`. */
  ghost predicate Added(out: JSMap, walk: JSMap, test: JSMap, want: bool,
                        start: seq<Pair>, es: seq<Entry>, qs: seq<Pair>, i: nat)
    reads out, out.entries, out.index, walk, walk.entries, walk.index, test, test.entries, test.index
  {
    && Operands(out, walk, test)
    && walk.Es() == es && test.Pairs() == qs && i <= |es|
    && out.Pairs() == AddAll(start, Where(Live(es[..i]), qs, want))
  }

  method Consider(out: JSMap, walk: JSMap, test: JSMap, want: bool, i: nat,
                  ghost start: seq<Pair>, ghost es: seq<Entry>, ghost qs: seq<Pair>)
    requires Added(out, walk, test, want, start, es, qs, i) && i < walk.used
    modifies out, out.entries, out.index
    ensures Added(out, walk, test, want, start, es, qs, i + 1)
    ensures out.entries == old(out.entries) || fresh(out.entries)
    ensures out.index == old(out.index) || fresh(out.index)
  {
    hide Indexed, DistinctLive, Live, Excess, AddAll, Where, Put, Has;
    AddAllStep(start, es, i, qs, want);
    if walk.entries[i].live {
      var key := walk.entries[i].key;
      var found := test.Has(key);
      if found == want {
        var _ := out.Put(key, Undefined);
      }
    }
  }

  /** `add_where`: the elements of `walk` whose membership in `test` is `want`, added in order. */
  method AddWhere(out: JSMap, walk: JSMap, test: JSMap, want: bool)
    requires Operands(out, walk, test)
    modifies out, out.entries, out.index
    ensures Operands(out, walk, test)
    ensures out.entries == old(out.entries) || fresh(out.entries)
    ensures out.index == old(out.index) || fresh(out.index)
    ensures walk.Pairs() == old(walk.Pairs()) && test.Pairs() == old(test.Pairs())
    ensures out.Pairs() == AddAll(old(out.Pairs()), Where(old(walk.Pairs()), old(test.Pairs()), want))
  {
    ghost var start, es, qs := out.Pairs(), walk.Es(), test.Pairs();
    var i := 0;
    while i < walk.used
      invariant Added(out, walk, test, want, start, es, qs, i)
      invariant out.entries == old(out.entries) || fresh(out.entries)
      invariant out.index == old(out.index) || fresh(out.index)
      decreases |es| - i
    {
      Consider(out, walk, test, want, i, start, es, qs);
      i := i + 1;
    }
    assert es[..i] == es;
  }

  method NewSet(hash: Hash) returns (out: JSMap)
    ensures fresh(out) && fresh(out.entries) && fresh(out.index)
    ensures out.Valid() && out.Pairs() == [] && out.kind == SetKind
  {
    out := new JSMap(SetKind, hash);
  }

  ghost predicate Copied(out: JSMap, from: JSMap, start: seq<Pair>, es: seq<Entry>, i: nat)
    reads out, out.entries, out.index, from, from.entries, from.index
  {
    && out.Valid() && from.Valid() && Apart(out, from) && !IsWeak(out.kind)
    && from.Es() == es && i <= |es|
    && out.Pairs() == AddAll(start, Live(es[..i]))
  }

  lemma CopyStep(start: seq<Pair>, es: seq<Entry>, i: nat)
    requires i < |es|
    ensures AddAll(start, Live(es[..i + 1])) ==
      if es[i].live then Put(AddAll(start, Live(es[..i])), es[i].key, Undefined) else AddAll(start, Live(es[..i]))
  {
    assert es[..i + 1][..i] == es[..i];
    if es[i].live { assert Live(es[..i + 1])[..|Live(es[..i])|] == Live(es[..i]); }
  }

  method CopyOne(out: JSMap, from: JSMap, i: nat, ghost start: seq<Pair>, ghost es: seq<Entry>)
    requires Copied(out, from, start, es, i) && i < from.used
    modifies out, out.entries, out.index
    ensures Copied(out, from, start, es, i + 1)
    ensures out.entries == old(out.entries) || fresh(out.entries)
    ensures out.index == old(out.index) || fresh(out.index)
  {
    hide Indexed, DistinctLive, Live, Excess, AddAll, Put;
    CopyStep(start, es, i);
    if from.entries[i].live {
      var _ := out.Put(from.entries[i].key, Undefined);
    }
  }

  /** `copy_keys`: every element of `from`, in order; one already there stays where it is. */
  method CopyKeys(out: JSMap, from: JSMap)
    requires out.Valid() && from.Valid() && Apart(out, from) && !IsWeak(out.kind)
    modifies out, out.entries, out.index
    ensures out.Valid()
    ensures out.entries == old(out.entries) || fresh(out.entries)
    ensures out.index == old(out.index) || fresh(out.index)
    ensures out.Pairs() == AddAll(old(out.Pairs()), old(from.Pairs()))
  {
    ghost var start, es := out.Pairs(), from.Es();
    var i := 0;
    assert AddAll(start, Live(es[..0])) == start;
    while i < from.used
      invariant Copied(out, from, start, es, i)
      invariant out.entries == old(out.entries) || fresh(out.entries)
      invariant out.index == old(out.index) || fresh(out.index)
      decreases |es| - i
    {
      CopyOne(out, from, i, start, es);
      i := i + 1;
    }
    assert es[..i] == es;
  }

  /** The receiver's elements, then the argument's others. */
  method Union(a: JSMap, b: JSMap) returns (out: JSMap)
    requires a.Valid() && b.Valid()
    ensures fresh(out) && out.Valid()
    ensures out.Pairs() == Bare(a.Pairs()) + Bare(Where(b.Pairs(), a.Pairs(), false))
  {
    hide Indexed, Live, AddAll, Bare, Where;
    out := NewSet(a.hash);
    CopyKeys(out, a);
    CopyKeys(out, b);
    UnionIs(a.Es(), b.Es());
  }

  lemma CopyIs(es: seq<Entry>)
    requires DistinctLive(es)
    ensures AddAll([], Live(es)) == Bare(Live(es))
  {
    LiveDistinct(es);
    AddAllIs([], Live(es));
    WhereNone(Live(es));
    assert [] + Bare(Live(es)) == Bare(Live(es));
  }

  lemma UnionIs(es: seq<Entry>, fs: seq<Entry>)
    requires DistinctLive(es) && DistinctLive(fs)
    ensures var ps, qs := Live(es), Live(fs);
      AddAll(AddAll([], ps), qs) == Bare(ps) + Bare(Where(qs, ps, false))
  {
    var ps, qs := Live(es), Live(fs);
    LiveDistinct(fs);
    CopyIs(es);
    BareBare(ps);
    AddAllIs(Bare(ps), qs);
    BareKeys(ps);
    WhereSame(qs, Bare(ps), ps, false);
  }

  lemma BareBare(ps: seq<Pair>)
    ensures Bare(Bare(ps)) == Bare(ps)
  {
  }

  lemma {:induction false} WhereSame(ps: seq<Pair>, qs: seq<Pair>, rs: seq<Pair>, want: bool)
    requires Keys(qs) == Keys(rs)
    ensures Where(ps, qs, want) == Where(ps, rs, want)
  {
    if ps != [] { WhereSame(ps[..|ps| - 1], qs, rs, want); }
  }

  lemma FilterIs(es: seq<Entry>, qs: seq<Pair>, want: bool)
    requires DistinctLive(es)
    ensures AddAll([], Where(Live(es), qs, want)) == Bare(Where(Live(es), qs, want))
  {
    LiveDistinct(es);
    WhereKeys(Live(es), qs, want);
    AddAllIs([], Where(Live(es), qs, want));
    WhereNone(Where(Live(es), qs, want));
    assert [] + Bare(Where(Live(es), qs, want)) == Bare(Where(Live(es), qs, want));
  }

  /** The common elements, in the order of the smaller collection (the receiver when neither is). */
  method Intersection(a: JSMap, b: JSMap) returns (out: JSMap)
    requires a.Valid() && b.Valid()
    ensures fresh(out) && out.Valid()
    ensures out.Pairs() ==
      if |a.Pairs()| <= |b.Pairs()| then Bare(Where(a.Pairs(), b.Pairs(), true)) else Bare(Where(b.Pairs(), a.Pairs(), true))
  {
    var walkA := a.size <= b.size;
    out := NewSet(a.hash);
    if walkA {
      AddWhere(out, a, b, true);
      FilterIs(a.Es(), b.Pairs(), true);
    } else {
      AddWhere(out, b, a, true);
      FilterIs(b.Es(), a.Pairs(), true);
    }
  }

  method Difference(a: JSMap, b: JSMap) returns (out: JSMap)
    requires a.Valid() && b.Valid()
    ensures fresh(out) && out.Valid()
    ensures out.Pairs() == Bare(Where(a.Pairs(), b.Pairs(), false))
  {
    out := NewSet(a.hash);
    AddWhere(out, a, b, false);
    FilterIs(a.Es(), b.Pairs(), false);
  }

  // ---------------------------------------------------------------- symmetric difference

  /** `out` after the elements `qs` of the argument: its own part is losing keys as this runs. */
  function Exchanged(ps: seq<Pair>, qs: seq<Pair>): seq<Pair> {
    Bare(Where(ps, qs, false)) + Bare(Where(qs, ps, false))
  }

  lemma {:induction false} RemoveConcat(ps: seq<Pair>, qs: seq<Pair>, key: Value)
    ensures Remove(ps + qs, key) == Remove(ps, key) + Remove(qs, key)
  {
    if qs == [] {
      assert ps + qs == ps;
    } else {
      var n := |qs| - 1;
      RemoveConcat(ps, qs[..n], key);
      assert (ps + qs)[..|ps + qs| - 1] == ps + qs[..n];
    }
  }

  lemma {:induction false} RemoveWhere(ps: seq<Pair>, qs: seq<Pair>, q: Pair)
    ensures Remove(Bare(Where(ps, qs, false)), q.key) == Bare(Where(ps, qs + [q], false))
  {
    assert Keys(qs + [q]) == Keys(qs) + [KeyOf(q)];
    if ps == [] {
    } else {
      var n := |ps| - 1;
      RemoveWhere(ps[..n], qs, q);
      NormalizedIsSame(ps[n].key);
      var ws := Where(ps[..n], qs, false);
      var vs := Where(ps[..n], qs + [q], false);
      var p := Pair(Normalized(ps[n].key), Undefined);
      assert Bare(ws + [ps[n]]) == Bare(ws) + [p];
      assert Bare(vs + [ps[n]]) == Bare(vs) + [p];
      assert (Bare(ws) + [p])[..|ws|] == Bare(ws);
    }
  }

  lemma ExchangeOne(ps: seq<Pair>, qs: seq<Pair>, q: Pair)
    requires DistinctKeys(ps) && KeyOf(q) !in Keys(qs)
    ensures Exchanged(ps, qs + [q]) ==
      if Has(ps, q.key) then Remove(Exchanged(ps, qs), q.key) else Put(Exchanged(ps, qs), q.key, Undefined)
  {
    hide Remove;
    var kept, added := Where(ps, qs, false), Where(qs, ps, false);
    assert (qs + [q])[..|qs|] == qs;
    RemoveWhere(ps, qs, q);
    WhereKeys(ps, qs, false);
    WhereKeys(qs, ps, false);
    BareKeys(kept);
    BareKeys(added);
    if Has(ps, q.key) {
      RemoveConcat(Bare(kept), Bare(added), q.key);
      GetMissing(Bare(added), q.key);
    } else {
      GetMissing(Bare(kept), q.key);
      assert Keys(Exchanged(ps, qs)) == Keys(Bare(kept)) + Keys(Bare(added));
      assert Bare(added + [q]) == Bare(added) + [Pair(Normalized(q.key), Undefined)];
    }
  }

  ghost predicate Exchanging(out: JSMap, a: JSMap, b: JSMap, ps: seq<Pair>, es: seq<Entry>, i: nat)
    reads out, out.entries, out.index, a, a.entries, a.index, b, b.entries, b.index
  {
    && Operands(out, b, a) && DistinctKeys(ps)
    && a.Pairs() == ps && b.Es() == es && i <= |es|
    && out.Pairs() == Exchanged(ps, Live(es[..i]))
  }

  lemma ExchangeEntry(ps: seq<Pair>, es: seq<Entry>, i: nat)
    requires DistinctKeys(ps) && DistinctLive(es) && i < |es|
    ensures Exchanged(ps, Live(es[..i + 1])) ==
      var before := Exchanged(ps, Live(es[..i]));
      if !es[i].live then before
      else if Has(ps, es[i].key) then Remove(before, es[i].key) else Put(before, es[i].key, Undefined)
  {
    assert es[..i + 1][..i] == es[..i];
    if es[i].live {
      OverwriteMissing(es[..i], es[i].key, Undefined);
      ExchangeOne(ps, Live(es[..i]), Pair(es[i].key, es[i].value));
    }
  }

  method Exchange(out: JSMap, a: JSMap, b: JSMap, i: nat, ghost ps: seq<Pair>, ghost es: seq<Entry>)
    requires Exchanging(out, a, b, ps, es, i) && i < b.used
    modifies out, out.entries, out.index
    ensures Exchanging(out, a, b, ps, es, i + 1)
    ensures out.entries == old(out.entries) || fresh(out.entries)
    ensures out.index == old(out.index) || fresh(out.index)
  {
    hide Indexed, Live, Excess, Exchanged, Put, Remove, Has, DistinctKeys;
    ExchangeEntry(ps, es, i);
    if b.entries[i].live {
      var key := b.entries[i].key;
      var found := a.Has(key);
      Toggle(out, key, found);
    }
  }

  method Toggle(out: JSMap, key: Value, found: bool)
    requires out.Valid() && !IsWeak(out.kind)
    modifies out, out.entries, out.index
    ensures out.Valid()
    ensures out.entries == old(out.entries) || fresh(out.entries)
    ensures out.index == old(out.index) || fresh(out.index)
    ensures out.Pairs() == if found then Remove(old(out.Pairs()), key) else Put(old(out.Pairs()), key, Undefined)
  {
    if found {
      var _ := out.Delete(key);
    } else {
      var _ := out.Put(key, Undefined);
    }
  }

  /** The receiver's own elements, then the argument's own. */
  method SymmetricDifference(a: JSMap, b: JSMap) returns (out: JSMap)
    requires a.Valid() && b.Valid()
    ensures fresh(out) && out.Valid()
    ensures out.Pairs() == Bare(Where(a.Pairs(), b.Pairs(), false)) + Bare(Where(b.Pairs(), a.Pairs(), false))
  {
    out := NewSet(a.hash);
    CopyKeys(out, a);
    ghost var ps, es := a.Pairs(), b.Es();
    CopyIs(a.Es());
    LiveDistinct(a.Es());
    WhereNone(ps);
    assert Exchanged(ps, Live(es[..0])) == Bare(ps) + Bare([]);
    var i := 0;
    while i < b.used
      invariant Exchanging(out, a, b, ps, es, i)
      invariant fresh(out.entries) && fresh(out.index)
      decreases |es| - i
    {
      Exchange(out, a, b, i, ps, es);
      i := i + 1;
    }
    assert es[..i] == es;
  }

  // ---------------------------------------------------------------- the three questions

  ghost predicate Contained(ps: seq<Pair>, qs: seq<Pair>) {
    forall k :: k in Keys(ps) ==> k in Keys(qs)
  }

  /** The walk the three predicates share: does every element of `walk` have membership `want` in `test`? */
  method EveryElement(walk: JSMap, test: JSMap, want: bool) returns (all: bool)
    requires walk.Valid() && test.Valid()
    ensures all <==> forall k :: k in Keys(walk.Pairs()) ==> (k in Keys(test.Pairs())) == want
  {
    var i := 0;
    while i < walk.used
      invariant 0 <= i <= walk.used
      invariant forall k :: k in Keys(Live(walk.Es()[..i])) ==> (k in Keys(test.Pairs())) == want
    {
      assert walk.Es()[..i + 1][..i] == walk.Es()[..i];
      if walk.entries[i].live {
        ghost var before := Live(walk.Es()[..i]);
        assert Keys(Live(walk.Es()[..i + 1])) == Keys(before) + [HashInputOf(walk.entries[i].key)];
        var found := test.Has(walk.entries[i].key);
        if found != want {
          LiveHas(walk.Es(), i);
          return false;
        }
      }
      i := i + 1;
    }
    assert walk.Es()[..i] == walk.Es();
    return true;
  }

  /** The size test is what makes the walk sufficient, and it is never wrong. */
  method IsSubsetOf(a: JSMap, b: JSMap) returns (r: bool)
    requires a.Valid() && b.Valid()
    ensures r <==> Contained(a.Pairs(), b.Pairs())
  {
    LiveDistinct(a.Es());
    if a.size > b.size {
      if Contained(a.Pairs(), b.Pairs()) { ContainedIsNoLarger(a.Pairs(), b.Pairs()); }
      return false;
    }
    r := EveryElement(a, b, true);
  }

  method IsSupersetOf(a: JSMap, b: JSMap) returns (r: bool)
    requires a.Valid() && b.Valid()
    ensures r <==> Contained(b.Pairs(), a.Pairs())
  {
    LiveDistinct(b.Es());
    if a.size < b.size {
      if Contained(b.Pairs(), a.Pairs()) { ContainedIsNoLarger(b.Pairs(), a.Pairs()); }
      return false;
    }
    r := EveryElement(b, a, true);
  }

  method IsDisjointFrom(a: JSMap, b: JSMap) returns (r: bool)
    requires a.Valid() && b.Valid()
    ensures r <==> forall k :: k in Keys(a.Pairs()) ==> k !in Keys(b.Pairs())
  {
    if a.size <= b.size {
      r := EveryElement(a, b, false);
    } else {
      r := EveryElement(b, a, false);
    }
  }
}

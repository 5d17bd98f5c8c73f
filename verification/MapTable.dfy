/** The storage of a Map or Set: an append-only entry array, and an open-addressed index of entry
    numbers over it. The laws here are about the two as sequences; MapRuntime holds the arrays. */
module MapTable {
  import opened MapModel
  import NumericModel
  import NumericBits

  datatype Entry = Entry(key: Value, value: Value, live: bool)

  const BLANK := Entry(Undefined, Undefined, false)

  type Hash = HashInput -> nat

  /** The association list an entry array stands for. */
  function Live(es: seq<Entry>): seq<Pair> {
    if es == [] then []
    else
      var e := es[|es| - 1];
      if e.live then Live(es[..|es| - 1]) + [Pair(e.key, e.value)] else Live(es[..|es| - 1])
  }

  ghost predicate DistinctLive(es: seq<Entry>) {
    forall i, j :: 0 <= i < j < |es| && es[i].live && es[j].live ==> HashInputOf(es[i].key) != HashInputOf(es[j].key)
  }

  // ---------------------------------------------------------------- the entry array

  lemma {:induction false} LiveOverwrite(es: seq<Entry>, i: nat, v: Value)
    requires DistinctLive(es) && i < |es| && es[i].live
    ensures Has(Live(es), es[i].key)
    ensures Live(es[i := es[i].(value := v)]) == Put(Live(es), es[i].key, v)
  {
    LiveOverwriteAt(es, i, v);
    LiveHas(es, i);
  }

  lemma {:induction false} LiveOverwriteAt(es: seq<Entry>, i: nat, v: Value)
    requires DistinctLive(es) && i < |es| && es[i].live
    ensures Live(es[i := es[i].(value := v)]) == Overwrite(Live(es), es[i].key, v)
  {
    var n := |es| - 1;
    var fs := es[i := es[i].(value := v)];
    if i == n {
      assert fs[..n] == es[..n];
      OverwriteMissing(es[..n], es[i].key, v);
    } else {
      LiveOverwriteAt(es[..n], i, v);
      assert fs[..n] == es[..n][i := es[i].(value := v)];
    }
  }

  lemma {:induction false} OverwriteMissing(es: seq<Entry>, key: Value, v: Value)
    requires forall i :: 0 <= i < |es| && es[i].live ==> HashInputOf(es[i].key) != HashInputOf(key)
    ensures Overwrite(Live(es), key, v) == Live(es) && !Has(Live(es), key)
  {
    if es != [] {
      var n := |es| - 1;
      OverwriteMissing(es[..n], key, v);
      if es[n].live {
        assert Keys(Live(es)) == Keys(Live(es[..n])) + [HashInputOf(es[n].key)];
        assert Overwrite(Live(es), key, v) == Overwrite(Live(es[..n]), key, v) + [Pair(es[n].key, es[n].value)];
      }
    }
  }

  lemma {:induction false} LiveHas(es: seq<Entry>, i: nat)
    requires i < |es| && es[i].live
    ensures Has(Live(es), es[i].key)
  {
    var n := |es| - 1;
    if i < n { LiveHas(es[..n], i); }
    if es[n].live {
      assert Keys(Live(es)) == Keys(Live(es[..n])) + [HashInputOf(es[n].key)];
    }
  }

  lemma {:induction false} LiveKill(es: seq<Entry>, i: nat)
    requires DistinctLive(es) && i < |es| && es[i].live
    ensures Live(es[i := BLANK]) == Remove(Live(es), es[i].key)
    ensures |Live(es[i := BLANK])| == |Live(es)| - 1
  {
    var n := |es| - 1;
    var fs := es[i := BLANK];
    if i == n {
      assert fs[..n] == es[..n];
      OverwriteMissing(es[..n], es[i].key, Undefined);
      GetMissing(Live(es[..n]), es[i].key);
      assert Live(es)[..|Live(es)| - 1] == Live(es[..n]);
    } else {
      LiveKill(es[..n], i);
      assert fs[..n] == es[..n][i := BLANK];
      if es[n].live {
        assert Live(es)[..|Live(es)| - 1] == Live(es[..n]);
        assert HashInputOf(es[n].key) != HashInputOf(es[i].key);
      }
    }
  }

  lemma {:induction false} LiveDistinct(es: seq<Entry>)
    requires DistinctLive(es)
    ensures DistinctKeys(Live(es))
  {
    if es != [] {
      var n := |es| - 1;
      LiveDistinct(es[..n]);
      var before := Live(es[..n]);
      var after := Live(es);
      if es[n].live {
        OverwriteMissing(es[..n], es[n].key, Undefined);
        assert Keys(after) == Keys(before) + [HashInputOf(es[n].key)];
        forall i, j | 0 <= i < j < |after| ensures Keys(after)[i] != Keys(after)[j] {
          assert Keys(after)[i] == Keys(before)[i];
          if j < |before| { assert Keys(before)[i] != Keys(before)[j]; }
        }
      }
    }
  }

  // ---------------------------------------------------------------- the index

  /** The `c`-th cell a probe from `start` looks at, in an index of `n` cells. */
  function Slot(start: nat, c: nat, n: nat): (r: nat)
    requires start < n && c < n
    ensures r < n
  {
    if start + c < n then start + c else start + c - n
  }

  lemma NextSlot(start: nat, c: nat, n: nat)
    requires start < n && c + 1 < n
    ensures (Slot(start, c, n) + 1) % n == Slot(start, c + 1, n)
  {
  }

  function StartOf(hash: Hash, key: Value, n: nat): (r: nat)
    requires n > 0
    ensures r < n
  {
    hash(HashInputOf(key)) % n
  }

  /** A probe from `start` meets entry `i` at its `d`-th cell, and no empty cell before it. */
  ghost predicate Path(index: seq<nat>, start: nat, i: nat, d: nat)
    requires start < |index| && d < |index|
  {
    && index[Slot(start, d, |index|)] == i + 1
    && Busy(index, start, d)
  }

  ghost predicate Busy(index: seq<nat>, start: nat, d: nat)
    requires start < |index| && d <= |index|
  {
    forall c :: 0 <= c < d ==> index[Slot(start, c, |index|)] != 0
  }

  ghost predicate Reach(index: seq<nat>, start: nat, i: nat)
    requires start < |index|
  {
    exists d :: 0 <= d < |index| && Path(index, start, i, d)
  }

  function Occupied(index: seq<nat>): nat {
    if index == [] then 0 else Occupied(index[..|index| - 1]) + (if index[|index| - 1] == 0 then 0 else 1)
  }

  /** The first `m` entries are indexed: every live one is met before an empty cell. */
  ghost predicate Indexed(es: seq<Entry>, index: seq<nat>, hash: Hash, m: nat)
    requires m <= |es| && |index| > 0
  {
    && (forall j :: 0 <= j < |index| ==> index[j] <= m)
    && Occupied(index) <= m
    && (forall i :: 0 <= i < m && es[i].live ==> Reach(index, StartOf(hash, es[i].key, |index|), i))
  }

  lemma {:induction false} OccupiedUpdate(index: seq<nat>, j: nat, v: nat)
    requires j < |index| && index[j] == 0 && v != 0
    ensures Occupied(index[j := v]) == Occupied(index) + 1
  {
    var n := |index| - 1;
    if j == n {
      assert index[j := v][..n] == index[..n];
    } else {
      OccupiedUpdate(index[..n], j, v);
      assert index[j := v][..n] == index[..n][j := v];
    }
  }

  lemma {:induction false} EmptyIsFree(index: seq<nat>)
    requires forall j :: 0 <= j < |index| ==> index[j] == 0
    ensures Occupied(index) == 0
  {
    if index != [] { EmptyIsFree(index[..|index| - 1]); }
  }

  lemma {:induction false} SomeFree(index: seq<nat>) returns (j: nat)
    requires Occupied(index) < |index|
    ensures j < |index| && index[j] == 0
  {
    var n := |index| - 1;
    if index[n] == 0 {
      j := n;
    } else {
      j := SomeFree(index[..n]);
    }
  }

  /** Every probe ends: from any start some cell ahead is empty. */
  lemma FreeAhead(index: seq<nat>, start: nat) returns (d: nat)
    requires start < |index| && Occupied(index) < |index|
    ensures d < |index| && index[Slot(start, d, |index|)] == 0
  {
    var j := SomeFree(index);
    d := if start <= j then j - start else j - start + |index|;
  }

  /** Writing an entry number into the empty cell its own probe ended on keeps every path. */
  lemma InsertKeeps(es: seq<Entry>, index: seq<nat>, hash: Hash, m: nat, key: Value, d: nat)
    requires m < |es| && |index| > 0 && Indexed(es, index, hash, m) && d < |index|
    requires es[m].key == key
    requires var start := StartOf(hash, key, |index|);
      index[Slot(start, d, |index|)] == 0 && Busy(index, start, d)
    ensures Indexed(es, index[Slot(StartOf(hash, key, |index|), d, |index|) := m + 1], hash, m + 1)
  {
    var n := |index|;
    var start := StartOf(hash, key, n);
    var j := Slot(start, d, n);
    var index' := index[j := m + 1];
    OccupiedUpdate(index, j, m + 1);
    forall i | 0 <= i < m + 1 && es[i].live ensures Reach(index', StartOf(hash, es[i].key, n), i) {
      if i < m {
        var s := StartOf(hash, es[i].key, n);
        assert Reach(index, s, i);
        var d' :| 0 <= d' < n && Path(index, s, i, d');
        assert Path(index', s, i, d');
      } else {
        assert Path(index', start, m, d);
      }
    }
  }

  /** An entry that dies, or only changes its value, leaves the paths of the others alone. */
  lemma RewriteEntryKeeps(es: seq<Entry>, fs: seq<Entry>, index: seq<nat>, hash: Hash, m: nat)
    requires m <= |es| && |fs| >= m && |index| > 0 && Indexed(es, index, hash, m)
    requires forall i :: 0 <= i < m && fs[i].live ==> es[i].live && fs[i].key == es[i].key
    ensures Indexed(fs, index, hash, m)
  {
  }

  // ---------------------------------------------------------------- probing, growing

  /** A probe that ended on an empty cell has met every indexed entry with that start. */
  lemma MissMeansAbsent(es: seq<Entry>, index: seq<nat>, hash: Hash, m: nat, key: Value, d: nat)
    requires m <= |es| && |index| > 0 && Indexed(es, index, hash, m) && d < |index|
    requires var start := StartOf(hash, key, |index|);
      && index[Slot(start, d, |index|)] == 0
      && forall c :: 0 <= c < d ==> !Matches(es, index, start, c, key)
    ensures forall i :: 0 <= i < m && es[i].live ==> HashInputOf(es[i].key) != HashInputOf(key)
  {
    var start := StartOf(hash, key, |index|);
    forall i | 0 <= i < m && es[i].live ensures HashInputOf(es[i].key) != HashInputOf(key) {
      if HashInputOf(es[i].key) == HashInputOf(key) {
        assert Reach(index, start, i);
        var d' :| 0 <= d' < |index| && Path(index, start, i, d');
        assert d' < d;
        SameKeySameHash(es[i].key, key);
        assert Matches(es, index, start, d', key);
      }
    }
  }

  /** The cell holds the number of a live entry with this key. */
  ghost predicate Matches(es: seq<Entry>, index: seq<nat>, start: nat, c: nat, key: Value)
    requires start < |index| && c < |index|
  {
    var held := index[Slot(start, c, |index|)];
    0 < held <= |es| && es[held - 1].live && SameValueZero(es[held - 1].key, key)
  }

  /** The first `d` cells a probe looks at are occupied, and none holds the key. */
  ghost predicate Passed(es: seq<Entry>, index: seq<nat>, start: nat, d: nat, key: Value)
    requires start < |index| && d <= |index|
  {
    Busy(index, start, d) && forall c :: 0 <= c < d ==> !Matches(es, index, start, c, key)
  }

  lemma PassedMeans(es: seq<Entry>, index: seq<nat>, start: nat, d: nat, key: Value)
    requires start < |index| && d <= |index| && Passed(es, index, start, d, key)
    ensures Busy(index, start, d) && forall c :: 0 <= c < d ==> !Matches(es, index, start, c, key)
  {
  }

  lemma FreeCell(es: seq<Entry>, index: seq<nat>, hash: Hash, m: nat, start: nat) returns (d: nat)
    requires m <= |es| && m < |index| && Indexed(es, index, hash, m) && start < |index|
    ensures d < |index| && index[Slot(start, d, |index|)] == 0
  {
    d := FreeAhead(index, start);
  }

  lemma NonePassed(es: seq<Entry>, index: seq<nat>, start: nat, key: Value)
    requires start < |index|
    ensures Passed(es, index, start, 0, key) && Slot(start, 0, |index|) == start
  {
  }

  /** An occupied cell whose entry is dead or has another key is passed over. */
  lemma OnePassed(es: seq<Entry>, index: seq<nat>, start: nat, d: nat, key: Value)
    requires start < |index| && d < |index| && Passed(es, index, start, d, key)
    requires var held := index[Slot(start, d, |index|)];
      0 < held <= |es| && !(es[held - 1].live && SameValueZero(es[held - 1].key, key))
    ensures Passed(es, index, start, d + 1, key)
  {
  }

  lemma IndexHolds(es: seq<Entry>, index: seq<nat>, hash: Hash, m: nat, j: nat)
    requires m <= |es| && |index| > 0 && Indexed(es, index, hash, m) && j < |index|
    ensures index[j] <= m
  {
  }

  function LiveEntries(es: seq<Entry>): seq<Entry> {
    if es == [] then []
    else if es[|es| - 1].live then LiveEntries(es[..|es| - 1]) + [es[|es| - 1]]
    else LiveEntries(es[..|es| - 1])
  }

  lemma {:induction false} CompactKeeps(es: seq<Entry>)
    ensures Live(LiveEntries(es)) == Live(es) && |LiveEntries(es)| == |Live(es)| <= |es|
    ensures forall e :: e in LiveEntries(es) ==> e.live && e in es
    ensures DistinctLive(es) ==> DistinctLive(LiveEntries(es))
  {
    if es != [] {
      var n := |es| - 1;
      CompactKeeps(es[..n]);
      var fs := LiveEntries(es[..n]);
      if es[n].live {
        assert LiveEntries(es)[..|fs|] == fs;
        if DistinctLive(es) {
          forall i | 0 <= i < |fs| ensures HashInputOf(fs[i].key) != HashInputOf(es[n].key) {
            assert fs[i] in es[..n];
          }
        }
      }
    }
  }

  /** Masking by one less than a power of two is the remainder: `h & index_mask`. */
  lemma MaskIs(h: nat, n: nat)
    requires n > 0 && PowerOfTwo(n)
    ensures NumericBits.BitAnd(h, n - 1) == h % n
  {
    var k := Exponent(n);
    NumericBits.MaskIsRemainder(h, k);
  }

  /** The cell after the `c`-th one a probe looks at: `(i + 1) & index_mask`. */
  lemma NextMasked(start: nat, c: nat, n: nat)
    requires start < n && c + 1 < n && PowerOfTwo(n)
    ensures NumericBits.BitAnd(Slot(start, c, n) + 1, n - 1) == Slot(start, c + 1, n)
  {
    MaskIs(Slot(start, c, n) + 1, n);
    NextSlot(start, c, n);
  }

  lemma {:induction false} Exponent(n: nat) returns (k: nat)
    requires n > 0 && PowerOfTwo(n)
    ensures n == NumericModel.Pow2(k)
  {
    k := 0;
    if n > 1 {
      k := Exponent(n / 2);
      k := k + 1;
    }
  }

  predicate PowerOfTwo(n: nat)
    requires n > 0
  {
    n == 1 || (n % 2 == 0 && PowerOfTwo(n / 2))
  }

  // ---------------------------------------------------------------- what each operation does to the entries

  /** The number of the live entry with this key, or -1. */
  function FindLive(es: seq<Entry>, key: Value): (i: int)
    ensures -1 <= i < |es|
    ensures i >= 0 ==> es[i].live && HashInputOf(es[i].key) == HashInputOf(key)
    ensures i == -1 ==> forall j :: 0 <= j < |es| && es[j].live ==> HashInputOf(es[j].key) != HashInputOf(key)
  {
    if es == [] then -1
    else
      var n := |es| - 1;
      if es[n].live && HashInputOf(es[n].key) == HashInputOf(key) then n else FindLive(es[..n], key)
  }

  function PutEntry(es: seq<Entry>, key: Value, value: Value): seq<Entry> {
    var i := FindLive(es, key);
    if i >= 0 then es[i := es[i].(value := value)] else es + [Entry(Normalized(key), value, true)]
  }

  function KillEntry(es: seq<Entry>, key: Value): seq<Entry> {
    var i := FindLive(es, key);
    if i >= 0 then es[i := BLANK] else es
  }

  lemma PutEntryLive(es: seq<Entry>, key: Value, value: Value)
    requires DistinctLive(es)
    ensures DistinctLive(PutEntry(es, key, value))
    ensures Live(PutEntry(es, key, value)) == Put(Live(es), key, value)
    ensures |Live(PutEntry(es, key, value))| == |Live(es)| + (if FindLive(es, key) >= 0 then 0 else 1)
  {
    var i := FindLive(es, key);
    NormalizedIsSame(key);
    if i >= 0 {
      LiveOverwrite(es, i, value);
      assert Overwrite(Live(es), es[i].key, value) == Overwrite(Live(es), key, value);
    } else {
      OverwriteMissing(es, key, value);
      assert PutEntry(es, key, value)[..|es|] == es;
    }
  }

  lemma KillEntryLive(es: seq<Entry>, key: Value)
    requires DistinctLive(es)
    ensures DistinctLive(KillEntry(es, key))
    ensures Live(KillEntry(es, key)) == Remove(Live(es), key)
    ensures |Live(KillEntry(es, key))| == |Live(es)| - (if FindLive(es, key) >= 0 then 1 else 0)
    ensures FindLive(es, key) >= 0 <==> Has(Live(es), key)
  {
    var i := FindLive(es, key);
    if i >= 0 {
      LiveKill(es, i);
      LiveHas(es, i);
      RemoveSame(Live(es), es[i].key, key);
    } else {
      OverwriteMissing(es, key, Undefined);
      GetMissing(Live(es), key);
    }
  }

  lemma {:induction false} RemoveSame(ps: seq<Pair>, a: Value, b: Value)
    requires HashInputOf(a) == HashInputOf(b)
    ensures Remove(ps, a) == Remove(ps, b)
  {
    if ps != [] { RemoveSame(ps[..|ps| - 1], a, b); }
  }

  lemma {:induction false} GetLive(es: seq<Entry>, key: Value)
    ensures Get(Live(es), key) == if FindLive(es, key) >= 0 then es[FindLive(es, key)].value else Undefined
    ensures FindLive(es, key) >= 0 <==> Has(Live(es), key)
  {
    hide HashInputOf;
    if es != [] {
      var n := |es| - 1;
      GetLive(es[..n], key);
      if es[n].live { GetLast(Live(es[..n]), Pair(es[n].key, es[n].value), key); }
    }
  }

  lemma GetLast(ps: seq<Pair>, p: Pair, key: Value)
    ensures Get(ps + [p], key) == if KeyOf(p) == HashInputOf(key) then p.value else Get(ps, key)
    ensures Has(ps + [p], key) <==> KeyOf(p) == HashInputOf(key) || Has(ps, key)
  {
    hide HashInputOf;
    assert (ps + [p])[..|ps|] == ps;
    assert Keys(ps + [p]) == Keys(ps) + [KeyOf(p)];
  }

  lemma {:induction false} FindIs(es: seq<Entry>, key: Value, hit: int)
    requires DistinctLive(es) && -1 <= hit < |es|
    requires hit >= 0 ==> es[hit].live && HashInputOf(es[hit].key) == HashInputOf(key)
    requires hit == -1 ==> forall i :: 0 <= i < |es| && es[i].live ==> HashInputOf(es[i].key) != HashInputOf(key)
    ensures FindLive(es, key) == hit
  {
  }

  /** One step of a walk whose cursor is `at`: whether a live entry was found, and the cursor past it. */
  function Visit(es: seq<Entry>, at: nat): (r: (bool, nat))
    ensures r.0 ==> at < r.1 <= |es| && es[r.1 - 1].live
    ensures forall i :: at <= i < r.1 - (if r.0 then 1 else 0) && i < |es| ==> !es[i].live
    ensures at <= r.1 && (!r.0 ==> r.1 >= |es|) && (at <= |es| ==> r.1 <= |es|)
    decreases |es| - at
  {
    if at >= |es| then (false, at)
    else if es[at].live then (true, at + 1)
    else Visit(es, at + 1)
  }

  lemma CompactAbsent(es: seq<Entry>, key: Value)
    requires FindLive(es, key) == -1
    ensures FindLive(LiveEntries(es), key) == -1
  {
    CompactKeeps(es);
  }

  lemma AppendedLive(es: seq<Entry>, key: Value, value: Value)
    requires DistinctLive(es) && FindLive(es, key) == -1
    ensures var r := es + [Entry(key, value, true)]; DistinctLive(r) && |Live(r)| == |Live(es)| + 1
  {
    var r := es + [Entry(key, value, true)];
    assert r[..|es|] == es;
  }

  /** A put into the entries, or into what is left of them after a compaction, is a put into the list. */
  lemma PutMeans(es: seq<Entry>, key: Value, value: Value)
    requires DistinctLive(es)
    ensures PutEntry(es, Normalized(key), value) == PutEntry(es, key, value)
    ensures PutEntry(LiveEntries(es), Normalized(key), value) == PutEntry(LiveEntries(es), key, value)
    ensures Live(PutEntry(es, key, value)) == Live(PutEntry(LiveEntries(es), key, value)) == Put(Live(es), key, value)
    ensures FindLive(es, Normalized(key)) >= 0 <==> Has(Live(es), key)
    ensures Normalized(Normalized(key)) == Normalized(key)
  {
    PutNormalized(es, key, value);
    PutNormalized(LiveEntries(es), key, value);
    PutEntryLive(es, key, value);
    CompactKeeps(es);
    PutEntryLive(LiveEntries(es), key, value);
    GetLive(es, key);
    hide PutEntry, Live, LiveEntries;
    NormalizedIsSame(key);
    FindSame(es, Normalized(key), key);
  }

  /** -0 is stored as +0, and no lookup can tell. */
  lemma PutNormalized(es: seq<Entry>, key: Value, value: Value)
    ensures FindLive(es, Normalized(key)) == FindLive(es, key)
    ensures PutEntry(es, Normalized(key), value) == PutEntry(es, key, value)
    ensures Normalized(Normalized(key)) == Normalized(key)
  {
    NormalizedIsSame(key);
    FindSame(es, key, Normalized(key));
  }

  lemma {:induction false} FindSame(es: seq<Entry>, a: Value, b: Value)
    requires HashInputOf(a) == HashInputOf(b)
    ensures FindLive(es, a) == FindLive(es, b)
  {
    if es != [] { FindSame(es[..|es| - 1], a, b); }
  }
}

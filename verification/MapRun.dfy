/** Whole runs of a Map or Set (jsrt_map.c): any sequence of operations answers what the ordered association
    list answers, and all the growing there was has copied at most two entries for each new key. */
module MapRun {
  import opened MapModel
  import opened MapTable
  import opened MapRuntime

  datatype Op = Set(key: Value, value: Value) | Get(key: Value) | Has(key: Value) | Delete(key: Value) | Clear | Size

  datatype Reply = Threw | Silent | Found(value: Value) | Truth(b: bool) | Count(n: nat)

  /** What an operation does to the association list, and answers. */
  function Step(kind: Kind, ps: seq<Pair>, op: Op): (seq<Pair>, Reply) {
    match op
    case Set(k, v) => if IsWeak(kind) && !IsObject(k) then (ps, Threw) else (Put(ps, k, v), Silent)
    case Get(k) => (ps, Found(MapModel.Get(ps, k)))
    case Has(k) => (ps, Truth(MapModel.Has(ps, k)))
    case Delete(k) => (Remove(ps, k), Truth(MapModel.Has(ps, k)))
    case Clear => ([], Silent)
    case Size => (ps, Count(|ps|))
  }

  function Left(kind: Kind, ps: seq<Pair>, ops: seq<Op>): seq<Pair> {
    if ops == [] then ps else Step(kind, Left(kind, ps, ops[..|ops| - 1]), ops[|ops| - 1]).0
  }

  function Replies(kind: Kind, ps: seq<Pair>, ops: seq<Op>): seq<Reply> {
    if ops == [] then []
    else Replies(kind, ps, ops[..|ops| - 1]) + [Step(kind, Left(kind, ps, ops[..|ops| - 1]), ops[|ops| - 1]).1]
  }

  /** How many operations of a run add a key that is not there. */
  function NewKeys(kind: Kind, ps: seq<Pair>, ops: seq<Op>): (n: nat)
    ensures n <= |ops|
  {
    if ops == [] then 0
    else
      var last := ops[|ops| - 1];
      var before := Left(kind, ps, ops[..|ops| - 1]);
      NewKeys(kind, ps, ops[..|ops| - 1])
        + if last.Set? && Step(kind, before, last).1 == Silent && !MapModel.Has(before, last.key) then 1 else 0
  }

  method Perform(m: JSMap, op: Op) returns (r: Reply)
    requires m.Valid()
    modifies m, m.entries, m.index
    ensures m.Valid() && m.iterating == old(m.iterating)
    ensures m.entries == old(m.entries) || fresh(m.entries)
    ensures m.index == old(m.index) || fresh(m.index)
    ensures (m.Pairs(), r) == Step(m.kind, old(m.Pairs()), op)
    ensures m.copied == old(m.copied) + if op.Set? then m.Moved(old(m.entries)) else 0
    ensures m.inserted == old(m.inserted) + if op.Set? && r == Silent && !MapModel.Has(old(m.Pairs()), op.key) then 1 else 0
  {
    hide MapModel.Put, Remove, MapModel.Has, MapModel.Get, Indexed, Live, DistinctLive, Excess;
    match op
    case Set(k, v) =>
      var threw := m.Put(k, v);
      r := if threw then Threw else Silent;
    case Get(k) =>
      var v := m.Get(k);
      r := Found(v);
    case Has(k) =>
      var b := m.Has(k);
      r := Truth(b);
    case Delete(k) =>
      var b := m.Delete(k);
      r := Truth(b);
    case Clear =>
      m.Clear();
      r := Silent;
    case Size =>
      var n := m.Size();
      r := Count(n);
  }

  lemma RunNext(kind: Kind, ps: seq<Pair>, ops: seq<Op>, i: nat)
    requires i < |ops|
    ensures ops[..i + 1][..i] == ops[..i] && ops[..i + 1][i] == ops[i]
  {
  }

  /** From an empty collection, whatever its hash function. */
  method RunOps(kind: Kind, hash: Hash, ops: seq<Op>) returns (m: JSMap, replies: seq<Reply>)
    ensures m.Valid() && m.Pairs() == Left(kind, [], ops) && replies == Replies(kind, [], ops)
    ensures m.copied <= 2 * NewKeys(kind, [], ops)
  {
    hide Step, Indexed, Live, DistinctLive, Excess;
    m := new JSMap(kind, hash);
    assert m.Pairs() == [] by { EmptyLive(); }
    replies := [];
    for i := 0 to |ops|
      invariant m.Valid() && m.kind == kind && fresh(m) && fresh(m.entries) && fresh(m.index)
      invariant m.Pairs() == Left(kind, [], ops[..i]) && replies == Replies(kind, [], ops[..i])
      invariant m.inserted == NewKeys(kind, [], ops[..i])
    {
      RunNext(kind, [], ops, i);
      var r := Perform(m, ops[i]);
      replies := replies + [r];
    }
    assert ops[..|ops|] == ops;
  }

  lemma EmptyLive()
    ensures Live([]) == []
  {
  }
}

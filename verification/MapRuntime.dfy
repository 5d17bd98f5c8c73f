/** JSRTMap and its operations (jsrt_map.c): the entry array and the index, written in place. */
module MapRuntime {
  import opened MapModel
  import opened MapTable
  import NumericBits

  datatype Kind = MapKind | SetKind | WeakMapKind | WeakSetKind

  predicate IsWeak(k: Kind) { k == WeakMapKind || k == WeakSetKind }

  ghost function Excess(used: nat, capacity: nat): nat {
    if 2 * used > capacity then 2 * used - capacity else 0
  }

  function GrownCapacity(capacity: nat, size: nat, compacting: bool): (c: nat)
    requires size <= capacity
    ensures c > 0 && (if compacting then 2 * size <= c else 2 * capacity <= c)
  {
    if !compacting || size + 1 > capacity / 2 then
      if capacity == 0 then 8 else capacity * 2
    else capacity
  }

  /** A growth copies no more than the insertions since the last one paid for, and leaves half of it free. */
  lemma CopyPaid(copied: nat, used: nat, size: nat, n: nat, capacity: nat, grown: nat, inserted: nat, compacting: bool)
    requires used == capacity && size <= capacity && grown == GrownCapacity(capacity, size, compacting)
    requires n == (if compacting then size else capacity) && copied + Excess(used, capacity) <= 2 * inserted
    ensures capacity <= grown && 2 * n <= grown && n < grown && copied + n + Excess(n, grown) <= 2 * inserted
  {
  }

  lemma ExcessNext(used: nat, capacity: nat)
    ensures Excess(used + 1, capacity) <= Excess(used, capacity) + 2
  {
  }

  method IndexSize(capacity: nat) returns (slots: nat)
    ensures slots > 0 && PowerOfTwo(slots) && capacity * 2 <= slots
  {
    slots := 16;
    while slots < capacity * 2
      invariant slots > 0 && PowerOfTwo(slots)
      decreases capacity * 2 - slots
    {
      slots := slots * 2;
    }
  }

  class JSMap {
    const kind: Kind
    const hash: Hash               // mix64 over the hash input; any function does
    var size: nat                  // live entries
    var used: nat                  // entries appended, live or dead
    var entries: array<Entry>      // capacity is its length
    var index: array<nat>          // an entry number plus one, or 0 for an empty cell
    var mask: nat                  // the index's length less one
    var iterating: nat
    ghost var copied: nat          // entries moved by every growth so far
    ghost var inserted: nat        // new keys so far

    constructor (kind: Kind, hash: Hash)
      ensures Valid() && fresh(entries) && fresh(index)
      ensures Es() == [] && iterating == 0 && inserted == 0 && copied == 0
      ensures this.kind == kind && this.hash == hash
    {
      this.kind, this.hash := kind, hash;
      size, used, iterating, copied, inserted, mask := 0, 0, 0, 0, 0, 0;
      entries, index := new Entry[0], new nat[0];
    }

    ghost predicate Shape()
      reads this, entries, index
    {
      && used <= entries.Length
      && (entries.Length == 0 <==> index.Length == 0)
      && (index.Length > 0 ==> PowerOfTwo(index.Length) && mask == index.Length - 1 && 2 * entries.Length <= index.Length)
    }

    /** The table invariant, and the growth account: every copy is paid for by two insertions. */
    ghost predicate Valid()
      reads this, entries, index
    {
      && Shape()
      && (index.Length > 0 ==> Indexed(entries[..used], index[..], hash, used))
      && DistinctLive(entries[..used])
      && size == |Live(entries[..used])|
      && copied + Excess(used, entries.Length) <= 2 * inserted
    }

    ghost function Es(): seq<Entry>
      reads this, entries, index
      requires Shape()
    {
      entries[..used]
    }

    /** The ordered association list the table stands for. */
    ghost function Pairs(): seq<Pair>
      reads this, entries, index
      requires Shape()
    {
      Live(Es())
    }

    /** `probe`: `m` entries are indexed (all of them, but while `Grow` rebuilds the index). On a miss,
        `d` is the number of occupied cells passed. */
    method Probe(key: Value, ghost m: nat) returns (hit: int, slot: nat, ghost d: nat)
      requires Shape() && m <= used
      requires index.Length > 0 ==> m < index.Length && Indexed(entries[..used], index[..], hash, m)
      ensures -1 <= hit < m
      ensures hit >= 0 ==> entries[hit].live && HashInputOf(entries[hit].key) == HashInputOf(key)
      ensures hit == -1 ==>
        forall i :: 0 <= i < m && entries[i].live ==> HashInputOf(entries[i].key) != HashInputOf(key)
      ensures index.Length > 0 ==> slot < index.Length
      ensures hit == -1 && index.Length > 0 ==>
        var start := StartOf(hash, key, index.Length);
        && d < index.Length
        && slot == Slot(start, d, index.Length)
        && index[slot] == 0
        && Busy(index[..], start, d)
    {
      if index.Length == 0 {
        return -1, 0, 0;
      }
      hide NumericBits.BitAnd, PowerOfTwo, Slot, Indexed, Passed, SameValueZero;
      MaskIs(hash(HashInputOf(key)), index.Length);
      var start := NumericBits.BitAnd(hash(HashInputOf(key)), mask);
      ghost var es, ix := entries[..used], index[..];
      ghost var free := FreeCell(es, ix, hash, m, start);
      NonePassed(es, ix, start, key);
      var i := start;
      d := 0;
      while true
        invariant d <= free && i == Slot(start, d, |ix|) && Passed(es, ix, start, d, key)
        decreases free - d
      {
        var held := index[i];
        if held == 0 {
          PassedMeans(es, ix, start, d, key);
          MissMeansAbsent(es, ix, hash, m, key, d);
          assert forall j :: 0 <= j < m ==> es[j] == entries[j];
          return -1, i, d;
        }
        IndexHolds(es, ix, hash, m, i);
        var entry := entries[held - 1];
        assert entry == es[held - 1];
        SameKeySameHash(entry.key, key);
        if entry.live && SameValueZero(entry.key, key) {
          return held - 1, i, d;
        }
        OnePassed(es, ix, start, d, key);
        NextMasked(start, d, |ix|);
        i := NumericBits.BitAnd(i + 1, mask);
        d := d + 1;
      }
    }

    /** Copies the entries that survive into `to`, in order. */
    method CopyEntries(to: array<Entry>, compacting: bool) returns (n: nat)
      requires Shape() && to != entries && used <= to.Length
      requires forall i :: 0 <= i < to.Length ==> to[i] == BLANK
      modifies to
      ensures n <= used && to[..n] == if compacting then LiveEntries(Es()) else Es()
    {
      n := 0;
      var i := 0;
      while i < used
        invariant 0 <= n <= i <= used
        invariant to[..n] == if compacting then LiveEntries(entries[..i]) else entries[..i]
      {
        assert entries[..i + 1][..i] == entries[..i];
        if !(compacting && !entries[i].live) {
          to[n] := entries[i];
          n := n + 1;
        }
        i := i + 1;
      }
    }

    /** Rebuilds the index over the entries, from empty. */
    method RebuildIndex()
      requires Shape() && index.Length > 0 && used < index.Length
      requires DistinctLive(Es())
      requires forall j :: 0 <= j < index.Length ==> index[j] == 0
      modifies index
      ensures Indexed(Es(), index[..], hash, used)
    {
      EmptyIsFree(index[..]);
      var i := 0;
      while i < used
        invariant 0 <= i <= used
        invariant Indexed(Es(), index[..], hash, i)
      {
        if entries[i].live {
          var hit, slot, d := Probe(entries[i].key, i);
          assert Es()[i] == entries[i] && forall j :: 0 <= j < i ==> Es()[j] == entries[j];
          assert hit == -1;
          InsertKeeps(Es(), index[..], hash, i, entries[i].key, d);
          ghost var written := index[..][slot := i + 1];
          index[slot] := i + 1;
          assert index[..] == written;
        }
        i := i + 1;
      }
    }

    /** Makes room for one more entry. Only a compaction renumbers entries, and none happens under a walk. */
    method Grow()
      requires Valid() && used == entries.Length
      modifies this
      ensures Valid() && fresh(entries) && fresh(index) && used < entries.Length
      ensures Es() == if iterating == 0 then LiveEntries(old(Es())) else old(Es())
      ensures size == old(size) && iterating == old(iterating) && inserted == old(inserted)
      ensures 2 * used <= entries.Length && copied == old(copied) + used
    {
      hide PowerOfTwo, Indexed, DistinctLive, Live, LiveEntries, Excess, GrownCapacity;
      ghost var before := Es();
      CompactKeeps(before);
      var compacting := iterating == 0;
      var capacity := GrownCapacity(entries.Length, size, compacting);
      CopyPaid(copied, used, size, if compacting then size else used, entries.Length, capacity, inserted, compacting);
      var to := new Entry[capacity](_ => BLANK);
      var n := CopyEntries(to, compacting);
      var slots := IndexSize(capacity);
      entries := to;
      used := n;
      index, mask := new nat[slots](_ => 0), slots - 1;
      copied := copied + n;
      assert Es() == if compacting then LiveEntries(before) else before;
      RebuildIndex();
    }

    method Get(key: Value) returns (value: Value)
      requires Valid()
      ensures value == MapModel.Get(Pairs(), key)
    {
      var hit, _, _ := Probe(key, used);
      FindIs(Es(), key, hit);
      GetLive(Es(), key);
      value := if hit < 0 then Undefined else entries[hit].value;
    }

    method Has(key: Value) returns (found: bool)
      requires Valid()
      ensures found <==> MapModel.Has(Pairs(), key)
    {
      var hit, _, _ := Probe(key, used);
      FindIs(Es(), key, hit);
      GetLive(Es(), key);
      found := hit >= 0;
    }

    /** What `set` and `add` do to the entries: nothing is renumbered unless a compaction made room. */
    ghost predicate EntriesAfterPut(before: seq<Entry>, key: Value, value: Value)
      reads this, entries, index
      requires Shape()
    {
      || Es() == PutEntry(before, key, value)
      || (iterating == 0 && Es() == PutEntry(LiveEntries(before), key, value))
    }

    /** How many entries were copied to where they now stand: all but the one just appended, if they had to move. */
    ghost function Moved(from: array<Entry>): int
      reads this
    {
      if entries == from then 0 else used - 1
    }

    method Put(rawKey: Value, value: Value) returns (threw: bool)
      requires Valid()
      modifies this, entries, index
      ensures Valid() && iterating == old(iterating)
      ensures entries == old(entries) || fresh(entries)
      ensures index == old(index) || fresh(index)
      ensures threw <==> IsWeak(kind) && !IsObject(rawKey)
      ensures threw ==> Es() == old(Es()) && inserted == old(inserted) && entries == old(entries)
      ensures copied == old(copied) + Moved(old(entries))
      ensures !threw ==> Pairs() == MapModel.Put(old(Pairs()), rawKey, value)
      ensures !threw ==> EntriesAfterPut(old(Es()), rawKey, value)
      ensures !threw ==> inserted == old(inserted) + (if MapModel.Has(old(Pairs()), rawKey) then 0 else 1)
    {
      var key := Normalized(rawKey);
      if IsWeak(kind) && !IsObject(key) {
        return true;
      }
      hide Indexed, Live, LiveEntries, PutEntry, FindLive, DistinctLive, PowerOfTwo, Excess;
      threw := false;
      ghost var before := Es();
      PutMeans(before, rawKey, value);
      PutKey(key, value);
    }

    /** The same, on the normalized key, as the entries see it. */
    method PutKey(key: Value, value: Value)
      requires Valid()
      modifies this, entries, index
      ensures Valid() && iterating == old(iterating)
      ensures entries == old(entries) || fresh(entries)
      ensures index == old(index) || fresh(index)
      ensures Normalized(key) == key ==> EntriesAfterPut(old(Es()), key, value)
      ensures inserted == old(inserted) + (if FindLive(old(Es()), key) >= 0 then 0 else 1)
      ensures copied == old(copied) + Moved(old(entries))
    {
      hide Indexed, PowerOfTwo, Live, LiveEntries, Excess, Slot;
      ghost var before := Es();
      var hit, slot, d := Probe(key, used);
      FindIs(before, key, hit);
      if hit >= 0 {
        OverwriteAt(hit, value);
        return;
      }
      if used == entries.Length {
        Grow();
        CompactAbsent(before, key);
        hit, slot, d := Probe(key, used);
        FindIs(Es(), key, hit);
      }
      Append(key, value, slot, d);
    }

    /** An existing key keeps its position. */
    method OverwriteAt(hit: nat, value: Value)
      requires Valid() && hit < used && entries[hit].live
      modifies entries
      ensures Valid() && Es() == old(Es())[hit := old(Es())[hit].(value := value)]
    {
      ghost var before := Es();
      ghost var after := before[hit := before[hit].(value := value)];
      entries[hit] := entries[hit].(value := value);
      assert Es() == after;
      LiveOverwrite(before, hit, value);
      RewriteEntryKeeps(before, after, index[..], hash, used);
    }

    /** The tail of `map_put`: the new entry, and its number in the empty cell its probe ended on. */
    method Append(key: Value, value: Value, slot: nat, ghost d: nat)
      requires Valid() && used < entries.Length && FindLive(Es(), key) == -1
      requires var start := StartOf(hash, key, index.Length);
        d < index.Length && slot == Slot(start, d, index.Length) && index[slot] == 0 && Busy(index[..], start, d)
      modifies this, entries, index
      ensures Valid() && iterating == old(iterating) && entries == old(entries) && index == old(index)
      ensures Es() == old(Es()) + [Entry(key, value, true)]
      ensures inserted == old(inserted) + 1 && copied == old(copied)
    {
      hide Indexed, PowerOfTwo, Live, DistinctLive, FindLive, Excess, Occupied;
      ghost var before, ix := Es(), index[..];
      ghost var after := before + [Entry(key, value, true)];
      AppendedLive(before, key, value);
      ExcessNext(used, entries.Length);
      entries[used] := Entry(key, value, true);
      index[slot] := used + 1;
      used := used + 1;
      size := size + 1;
      inserted := inserted + 1;
      assert Es() == after;
      RewriteEntryKeeps(before, after, ix, hash, |before|);
      InsertKeeps(after, ix, hash, |before|, key, d);
      assert index[..] == ix[slot := used];
      assert after[..|before|] == before;
    }

    method Delete(key: Value) returns (found: bool)
      requires Valid()
      modifies this, entries, index
      ensures Valid() && iterating == old(iterating) && entries == old(entries) && index == old(index)
      ensures found <==> MapModel.Has(old(Pairs()), key)
      ensures Pairs() == MapModel.Remove(old(Pairs()), key)
      ensures Es() == KillEntry(old(Es()), key) && inserted == old(inserted) && copied == old(copied)
    {
      ghost var before := Es();
      var hit, _, _ := Probe(key, used);
      FindIs(before, key, hit);
      KillEntryLive(before, key);
      found := hit >= 0;
      if found {
        entries[hit] := BLANK;
        size := size - 1;
        assert Es() == before[hit := BLANK];
        RewriteEntryKeeps(before, Es(), index[..], hash, used);
      }
    }

    /** Drops both arrays; `iterating` stays, so a walk in progress still suppresses compaction. */
    method Clear()
      requires Valid()
      modifies this
      ensures Valid() && Es() == [] && Pairs() == [] && iterating == old(iterating)
      ensures inserted == old(inserted) && copied == old(copied)
      ensures fresh(entries) && fresh(index)
    {
      size, used, mask := 0, 0, 0;
      entries, index := new Entry[0], new nat[0];
    }

    method Size() returns (n: nat)
      requires Valid()
      ensures n == |Pairs()|
    {
      n := size;
    }

    // -------------------------------------------------------------- walks

    method IterBegin()
      requires Valid()
      modifies `iterating
      ensures Valid() && Es() == old(Es()) && iterating == old(iterating) + 1
    {
      iterating := iterating + 1;
    }

    method IterEnd()
      requires Valid() && iterating > 0
      modifies `iterating
      ensures Valid() && Es() == old(Es()) && iterating == old(iterating) - 1
    {
      iterating := iterating - 1;
    }

    /** One step of a walk from the cursor `at`. */
    method IterStep(at: nat) returns (found: bool, next: nat, key: Value, value: Value)
      requires Valid()
      ensures (found, next) == Visit(Es(), at)
      ensures found ==> 0 < next <= |Es()| && key == Es()[next - 1].key && value == Es()[next - 1].value
    {
      hide Indexed, DistinctLive, Live, Excess;
      next, key, value := at, Undefined, Undefined;
      while next < used
        invariant Visit(Es(), next) == Visit(Es(), at)
        decreases used - next
      {
        var i := next;
        next := next + 1;
        if entries[i].live {
          return true, next, entries[i].key, entries[i].value;
        }
      }
      return false, next, Undefined, Undefined;
    }
  }
}

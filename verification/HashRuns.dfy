/** Whole runs of the table of js/public/HashTable.h against a finite map: the
    HashMap shorthands over it, scripts of operations, and filling after init. */
module HashRuns {
  import opened Arith
  import opened HashCore
  import opened HashInvariant
  import opened HashTable
  import opened Wrappers

  // ---------- HashMap shorthands ----------

  lemma OverwriteKeepsInv<K, V>(t: seq<Entry<K, V>>, log2: nat, hashOf: K -> HashNumber, at: map<K, nat>, k: K, v: V)
    requires TableInv(t, log2, hashOf, at) && k in at
    ensures var u := t[at[k] := Entry(t[at[k]].keyHash, Some(HashMapEntry(k, v)))];
            TableInv(u, log2, hashOf, at) && MapOf(u, at) == MapOf(t, at)[k := v] && Removed(u) == Removed(t)
  {
    hide Probe, Placed;
    var u := t[at[k] := Entry(t[at[k]].keyHash, Some(HashMapEntry(k, v)))];
    forall i | 0 <= i < |u| && u[i].IsLive()
      ensures SlotIndexed(u[i], i, hashOf, at) && Placed(u, log2, u[i].GetKeyHash(), i)
    {
      assert SlotIndexed(t[i], i, hashOf, at);
      PlacedGrows(t, u, log2, u[i].GetKeyHash(), i);
    }
  }

  /** HashMap::put: overwrite the value in place, or add. */
  method Put<K(==), V>(ht: HashTable<K, V>, k: K, v: V, memory: bool) returns (ok: bool)
    requires ht.Valid()
    modifies ht, ht.table
    ensures ht.Valid() && (ht.table == old(ht.table) || fresh(ht.table))
    ensures ht.Contents() == if ok then old(ht.Contents())[k := v] else old(ht.Contents())
    ensures k in old(ht.Contents()) ==> ok && ht.table == old(ht.table)
    ensures !ok ==> old(ht.Overloaded() && !ht.CanRebuild(memory))
    ensures ht.gen == if ht.table == old(ht.table) then old(ht.gen) else (old(ht.gen) + 1) % TWO32
  {
    hide TableInv, MapOf, Removed, Pow2, PrepareHash;
    var p := ht.LookupForAdd(k);
    if ht.table[p.entry].IsLive() {
      Overwrite(ht, p.entry, k, v);
      return true;
    }
    ok, p := ht.Add(p, k, v, memory);
  }

  /** p->value = v */
  method Overwrite<K(==), V>(ht: HashTable<K, V>, e: nat, k: K, v: V)
    requires ht.Valid() && e < ht.table.Length && ht.table[e].IsLive()
    requires ht.table[e].mem.Some? && ht.table[e].mem.value.key == k
    modifies ht.table
    ensures ht.Valid() && ht.Contents() == old(ht.Contents())[k := v]
  {
    hide Probe, Placed, AllPlaced, Removed;
    ghost var t0 := ht.table[..];
    KeyIsAt(ht, k, e);
    OverwriteKeepsInv(t0, ht.SizeLog2(), ht.hashOf, ht.at, k, v);
    ht.table[e] := Entry(ht.table[e].keyHash, Some(HashMapEntry(k, v)));
    assert ht.table[..] == t0[e := ht.table[e]];
  }

  lemma KeyIsAt<K, V>(ht: HashTable<K, V>, k: K, e: nat)
    requires ht.Loose() && e < ht.table.Length && ht.table[e].IsLive()
    requires ht.table[e].mem.Some? && ht.table[e].mem.value.key == k
    ensures k in ht.at && ht.at[k] == e
  {
    assert SlotIndexed(ht.table[..][e], e, ht.hashOf, ht.at);
  }

  /** HashMap::remove(l): remove if present. */
  method RemoveKey<K(==), V>(ht: HashTable<K, V>, k: K, memory: bool)
    requires ht.Valid()
    modifies ht, ht.table
    ensures ht.Valid() && (ht.table == old(ht.table) || fresh(ht.table))
    ensures ht.Contents() == old(ht.Contents()) - {k}
    ensures k !in old(ht.Contents()) ==> ht.table == old(ht.table)
    ensures k in old(ht.Contents()) ==>
              (ht.table != old(ht.table) <==>
               ht.WouldBeUnderloaded(old(ht.Capacity()), old(ht.entryCount) - 1) && memory)
    ensures ht.gen == if ht.table == old(ht.table) then old(ht.gen) else (old(ht.gen) + 1) % TWO32
  {
    hide Probe, Placed, TableInv, MapOf, Removed;
    var p := ht.Lookup(k);
    if ht.table[p].IsLive() {
      ht.Remove(p, memory);
    }
  }

  // ---------- scripts ----------

  datatype Op<K, V> = Get(key: K) | Set(key: K, value: V) | AddIfAbsent(key: K, value: V) | Erase(key: K) | EraseAll

  /** Got is a lookup's answer; Done says whether there was room. */
  datatype Outcome<V> = Got(found: Option<V>) | Done(ok: bool)

  /** The answers a finite map allows; only adding an absent key may fail. */
  ghost predicate Answers<K, V>(m: map<K, V>, op: Op<K, V>, out: Outcome<V>) {
    match op
    case Get(k) => out == Got(if k in m then Some(m[k]) else None)
    case Set(k, _) => out.Done? && (k in m ==> out.ok)
    case AddIfAbsent(k, _) => out.Done? && (k in m ==> out.ok)
    case Erase(_) => out == Done(true)
    case EraseAll => out == Done(true)
  }

  ghost function NextMap<K, V>(m: map<K, V>, op: Op<K, V>, out: Outcome<V>): map<K, V> {
    match op
    case Get(_) => m
    case Set(k, v) => if out == Done(true) then m[k := v] else m
    case AddIfAbsent(k, v) => if out == Done(true) && k !in m then m[k := v] else m
    case Erase(k) => m - {k}
    case EraseAll => map[]
  }

  ghost function AfterOps<K, V>(m: map<K, V>, ops: seq<Op<K, V>>, outs: seq<Outcome<V>>): map<K, V>
    requires |outs| == |ops|
  {
    if ops == [] then m
    else
      var n := |ops| - 1;
      NextMap(AfterOps(m, ops[..n], outs[..n]), ops[n], outs[n])
  }

  ghost predicate AllAnswer<K, V>(m: map<K, V>, ops: seq<Op<K, V>>, outs: seq<Outcome<V>>)
    requires |outs| == |ops|
  {
    forall i | 0 <= i < |ops| :: Answers(AfterOps(m, ops[..i], outs[..i]), ops[i], outs[i])
  }

  lemma NoAnswers<K, V>(m: map<K, V>)
    ensures AllAnswer<K, V>(m, [], []) && AfterOps<K, V>(m, [], []) == m
  {
  }

  lemma OneMoreAnswer<K, V>(m: map<K, V>, ops: seq<Op<K, V>>, outs: seq<Outcome<V>>, op: Op<K, V>, out: Outcome<V>)
    requires |outs| == |ops| && AllAnswer(m, ops, outs) && Answers(AfterOps(m, ops, outs), op, out)
    ensures AllAnswer(m, ops + [op], outs + [out])
    ensures AfterOps(m, ops + [op], outs + [out]) == NextMap(AfterOps(m, ops, outs), op, out)
  {
    var ops', outs' := ops + [op], outs + [out];
    assert ops'[..|ops|] == ops && outs'[..|ops|] == outs;
    forall i | 0 <= i < |ops'|
      ensures Answers(AfterOps(m, ops'[..i], outs'[..i]), ops'[i], outs'[i])
    {
      if i < |ops| {
        assert ops'[..i] == ops[..i] && outs'[..i] == outs[..i];
      }
    }
  }

  /** Live entries, tombstones and capacity of a table, and whether the allocator would
      grant a new one. */
  datatype Load = Load(entries: nat, removed: nat, capacity: nat, memory: bool) {
    /** Within the bound, and at it exactly if the next add has to rebuild. */
    predicate Allowed() { 4 * (entries + removed) <= 3 * capacity }

    predicate Full() { 4 * (entries + removed) >= 3 * capacity }

    /** No rebuild is possible: there is no memory, or no larger size and too few
        tombstones to gain from. */
    predicate Stuck() { !memory || (4 * removed < capacity && capacity == 0x100_0000) }
  }

  /** Before each operation the load is within the bound and its entries are those of the
      map; an operation fails only on a full table that cannot be rebuilt. */
  ghost predicate FailsOnlyFull<K, V>(m: map<K, V>, ops: seq<Op<K, V>>, outs: seq<Outcome<V>>, loads: seq<Load>)
    requires |loads| == |outs| == |ops|
  {
    forall i | 0 <= i < |ops| ::
      loads[i].entries == |AfterOps(m, ops[..i], outs[..i])| && loads[i].Allowed()
        && (outs[i] == Done(false) ==> loads[i].Full() && loads[i].Stuck())
  }

  lemma NoLoads<K, V>(m: map<K, V>)
    ensures FailsOnlyFull<K, V>(m, [], [], [])
  {
  }

  lemma OneMoreLoad<K, V>(m: map<K, V>, ops: seq<Op<K, V>>, outs: seq<Outcome<V>>, loads: seq<Load>,
                          op: Op<K, V>, out: Outcome<V>, load: Load)
    requires |loads| == |outs| == |ops| && FailsOnlyFull(m, ops, outs, loads)
    requires load.entries == |AfterOps(m, ops, outs)| && load.Allowed()
    requires out == Done(false) ==> load.Full() && load.Stuck()
    ensures FailsOnlyFull(m, ops + [op], outs + [out], loads + [load])
  {
    var ops', outs', loads' := ops + [op], outs + [out], loads + [load];
    assert ops'[..|ops|] == ops && outs'[..|ops|] == outs;
    forall i | 0 <= i < |ops'|
      ensures loads'[i].entries == |AfterOps(m, ops'[..i], outs'[..i])| && loads'[i].Allowed()
              && (outs'[i] == Done(false) ==> loads'[i].Full() && loads'[i].Stuck())
    {
      if i < |ops| {
        assert ops'[..i] == ops[..i] && outs'[..i] == outs[..i] && loads'[i] == loads[i];
      }
    }
  }

  ghost function LoadOf<K, V>(ht: HashTable<K, V>, memory: bool): Load
    requires ht.table != null
    reads ht
  {
    Load(ht.entryCount, ht.removedCount, ht.table.Length, memory)
  }

  lemma LoadFacts<K, V>(ht: HashTable<K, V>, memory: bool)
    requires ht.Valid()
    ensures var load := LoadOf(ht, memory);
            && load.entries == |ht.Contents()| && load.Allowed() && (load.Full() <==> ht.Overloaded())
            && (load.Stuck() <==> !ht.CanRebuild(memory)) && load.memory == memory
  {
    hide Probe, Placed, AllPlaced, Indexed, Removed, MapOf;
    ht.LoadBounds(0, 0);
    Largest(ht.SizeLog2());
    assert ht.Count() == ht.entryCount;
  }

  lemma Largest(log2: nat)
    requires MIN_CAPACITY_LOG2 <= log2 <= MAX_CAPACITY_LOG2
    ensures Pow2(log2) == 0x100_0000 <==> log2 == MAX_CAPACITY_LOG2
  {
    Pow2Of24();
    Pow2Monotone(log2, 24);
  }

  method RunOp<K(==), V>(ht: HashTable<K, V>, op: Op<K, V>, memory: bool) returns (out: Outcome<V>)
    requires ht.Valid()
    modifies ht, ht.table
    ensures ht.Valid() && (ht.table == old(ht.table) || fresh(ht.table))
    ensures Answers(old(ht.Contents()), op, out)
    ensures out == Done(false) ==> old(ht.Overloaded() && !ht.CanRebuild(memory))
    ensures ht.Contents() == NextMap(old(ht.Contents()), op, out)
  {
    hide Probe, Placed, TableInv, MapOf, Removed;
    match op {
      case Get(k) =>
        var p := ht.Lookup(k);
        out := Got(if ht.table[p].IsLive() then Some(ht.table[p].mem.value.value) else None);
      case Set(k, v) =>
        var ok := Put(ht, k, v, memory);
        out := Done(ok);
      case AddIfAbsent(k, v) =>
        var p := ht.LookupForAdd(k);
        var ok, _ := ht.RelookupOrAdd(p, k, v, memory);
        out := Done(ok);
      case Erase(k) =>
        RemoveKey(ht, k, memory);
        out := Done(true);
      case EraseAll =>
        ht.Clear();
        out := Done(true);
    }
  }

  /** Every run of operations, with allocations failing anywhere, answers exactly as a
      finite map does and leaves the table valid. Only an add to a table at its load bound
      that cannot be rebuilt fails. memory[i] is what the allocator answers in operation i. */
  method Run<K(==), V>(ht: HashTable<K, V>, ops: seq<Op<K, V>>, memory: seq<bool>)
      returns (outs: seq<Outcome<V>>, ghost loads: seq<Load>)
    requires ht.Valid() && |memory| == |ops|
    modifies ht, ht.table
    ensures ht.Valid() && |outs| == |loads| == |ops|
    ensures forall i | 0 <= i < |ops| :: loads[i].memory == memory[i]
    ensures FailsOnlyFull(old(ht.Contents()), ops, outs, loads)
    ensures AllAnswer(old(ht.Contents()), ops, outs)
    ensures ht.Contents() == AfterOps(old(ht.Contents()), ops, outs)
  {
    hide Probe, Placed, TableInv, MapOf, Removed, Answers, NextMap, AfterOps, AllAnswer, FailsOnlyFull, LoadOf;
    ghost var m := ht.Contents();
    outs, loads := [], [];
    NoAnswers(m);
    NoLoads(m);
    for i := 0 to |ops|
      invariant ht.Valid() && |outs| == |loads| == i && FailsOnlyFull(m, ops[..i], outs, loads)
      invariant forall j | 0 <= j < i :: loads[j].memory == memory[j]
      invariant ht.table == old(ht.table) || fresh(ht.table)
      invariant AllAnswer(m, ops[..i], outs) && ht.Contents() == AfterOps(m, ops[..i], outs)
    {
      ghost var load := LoadOf(ht, memory[i]);
      LoadFacts(ht, memory[i]);
      var out := RunOp(ht, ops[i], memory[i]);
      OneMoreLoad(m, ops[..i], outs, loads, ops[i], out, load);
      OneMoreAnswer(m, ops[..i], outs, ops[i], out);
      assert ops[..i + 1] == ops[..i] + [ops[i]];
      outs, loads := outs + [out], loads + [load];
    }
    assert ops[..|ops|] == ops;
  }

  // ---------- filling after init ----------

  ghost function ItemsMap<K, V>(items: seq<HashMapEntry<K, V>>): map<K, V> {
    if items == [] then map[]
    else ItemsMap(items[..|items| - 1])[items[|items| - 1].key := items[|items| - 1].value]
  }

  ghost predicate DistinctKeys<K, V>(items: seq<HashMapEntry<K, V>>) {
    forall i, j | 0 <= i < j < |items| :: items[i].key != items[j].key
  }

  lemma {:induction false} ItemsMapKeys<K, V>(items: seq<HashMapEntry<K, V>>)
    ensures forall k :: k in ItemsMap(items) <==> exists i | 0 <= i < |items| :: items[i].key == k
  {
    if items != [] {
      ItemsMapKeys(items[..|items| - 1]);
    }
  }

  /** After a successful init(length), adding up to length distinct keys never fails and
      never resizes: no more memory is needed and the generation stays what it was. */
  method InitAndFill<K(==), V>(hashOf: K -> HashNumber, length: nat, items: seq<HashMapEntry<K, V>>, memory: bool)
      returns (ok: bool, ht: HashTable<K, V>)
    requires length < TWO32 && |items| <= length && DistinctKeys(items)
    ensures fresh(ht)
    ensures ok ==> ht.Valid() && ht.gen == 0 && ht.Contents() == ItemsMap(items)
    ensures ok <==> length <= MAX_INIT && memory
  {
    hide Probe, Placed, TableInv, MapOf, Removed;
    ht := new HashTable(hashOf);
    ok := ht.Init(length, memory);
    if !ok {
      return;
    }
    for i := 0 to |items|
      invariant ht.Valid() && fresh(ht.table) && ht.hashShift <= HASH_BITS
      invariant ht.gen == 0 && ht.entryCount == i && ht.removedCount == 0
      invariant 4 * length <= 3 * ht.Capacity()
      invariant ht.Contents() == ItemsMap(items[..i])
    {
      ItemsMapKeys(items[..i]);
      RoomBelowLength(ht.Capacity(), length, i);
      assert !ht.Overloaded();
      var added := ht.PutNew(items[i].key, items[i].value, false);
      assert added;
      assert items[..i + 1][..i] == items[..i];
    }
    assert items[..|items|] == items;
  }

  lemma RoomBelowLength(capacity: nat, length: nat, n: nat)
    requires n < length && 4 * length <= 3 * capacity
    ensures n < (192 * capacity) / 256
  {
  }
}

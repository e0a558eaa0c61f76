/** Mutating enumeration of js/public/HashTable.h: Range and Enum, whose destructor
    performs the deferred rehash. */
module HashEnum {
  import opened Arith
  import opened HashCore
  import opened HashInvariant
  import opened HashTable

  datatype EnumOp<K> = RemovedFront(key: K) | RekeyedFront(key: K, newKey: K)

  ghost function ApplyOp<K, V>(m: map<K, V>, op: EnumOp<K>): map<K, V> {
    match op
    case RemovedFront(k) => m - {k}
    case RekeyedFront(k, k') => if k in m then (m - {k})[k' := m[k]] else m
  }

  /** The removals and renames of log, in order, applied to m. */
  ghost function ApplyOps<K, V>(m: map<K, V>, log: seq<EnumOp<K>>): map<K, V> {
    if log == [] then m
    else ApplyOp(ApplyOps(m, log[..|log| - 1]), log[|log| - 1])
  }

  lemma ApplyOpsStep<K, V>(m: map<K, V>, log: seq<EnumOp<K>>, op: EnumOp<K>)
    ensures ApplyOps(m, log + [op]) == ApplyOp(ApplyOps(m, log), op)
  {
    assert (log + [op])[..|log|] == log;
  }

  class Enum<K(==), V> {
    const table: HashTable<K, V>
    var cur: nat
    var validEntry: bool
    var rekeyed: bool
    var removed: bool

    ghost const start: map<K, V>
    ghost const storage: array<Entry<K, V>>
    ghost var log: seq<EnumOp<K>>
    /** Keys whose front has been passed, removed or rekeyed, in order. */
    ghost var seen: seq<K>

    /** The map is the opening map with the logged operations applied; every key of the
        opening map is seen or still ahead of the cursor; and while nothing has been
        rekeyed the seen keys are behind it, each of them once. */
    ghost predicate Valid()
      reads this, table, storage
    {
      && table.table == storage && cur <= storage.Length
      && table.Loose() && table.Contents() == ApplyOps(start, log)
      && (validEntry ==> cur == storage.Length || storage[cur].IsLive())
      && (!validEntry ==> cur < storage.Length && (rekeyed || !storage[cur].IsLive()))
      && Ahead(start.Keys, table.at, Bound(), seen)
      && (!rekeyed ==> InBound(table) && table.at.Keys <= start.Keys && Behind(start.Keys, table.at, cur, seen))
      && (!removed && !rekeyed ==> table.Contents() == start)
    }

    /** Slots before this one are done with. */
    ghost function Bound(): nat
      reads this
    {
      if validEntry then cur else cur + 1
    }

    constructor (table: HashTable<K, V>)
      requires table.Valid()
      ensures Valid() && this.table == table && start == table.Contents() && log == [] && seen == []
      ensures !rekeyed && !removed && validEntry
    {
      hide TableInv, MapOf, Removed, Ahead, Behind;
      this.table := table;
      start := table.Contents();
      storage := table.table;
      var c := 0;
      while c < table.table.Length && !table.table[c].IsLive()
        invariant c <= table.table.Length
        invariant forall i | 0 <= i < c :: !table.table[i].IsLive()
      {
        c := c + 1;
      }
      ProgressStarts(table, c);
      cur, validEntry, rekeyed, removed, log, seen := c, true, false, false, [], [];
    }

    predicate Empty()
      reads this, table, table.table
      requires table.table != null
    {
      cur == table.table.Length
    }

    function Front(): (r: HashMapEntry<K, V>)
      reads this, table, storage
      requires Valid() && validEntry && cur < storage.Length
      ensures r.key in table.Contents() && table.Contents()[r.key] == r.value
      ensures r.key in table.at && table.at[r.key] == cur
    {
      FrontIsMapped();
      table.table[cur].mem.value
    }

    lemma FrontIsMapped()
      requires Valid() && validEntry && cur < storage.Length
      ensures storage[cur].mem.Some?
      ensures storage[cur].mem.value.key in table.Contents()
      ensures table.Contents()[storage[cur].mem.value.key] == storage[cur].mem.value.value
      ensures storage[cur].mem.value.key in table.at && table.at[storage[cur].mem.value.key] == cur
    {
      EntryIsMapped(table, cur);
    }

    /** To the next live entry or the end. */
    method Advance()
      requires table.table == storage && cur < storage.Length
      modifies this`cur
      ensures old(cur) < cur <= storage.Length && (cur < storage.Length ==> storage[cur].IsLive())
      ensures forall j | old(cur) < j < cur :: !storage[j].IsLive()
    {
      cur := cur + 1;
      while cur < table.table.Length && !table.table[cur].IsLive()
        invariant old(cur) < cur <= storage.Length
        invariant forall j | old(cur) < j < cur :: !storage[j].IsLive()
      {
        cur := cur + 1;
      }
    }

    /** Goes to the next live entry, whatever has been removed or rekeyed. */
    method PopFront()
      requires Valid() && cur < storage.Length
      modifies this
      ensures Valid() && validEntry && old(cur) < cur <= storage.Length
      ensures cur < storage.Length ==> storage[cur].IsLive()
      ensures forall j | old(cur) < j < cur :: !storage[j].IsLive()
      ensures rekeyed == old(rekeyed) && removed == old(removed) && log == old(log)
      ensures seen == if old(validEntry) then old(seen) + [old(Front().key)] else old(seen)
    {
      hide ApplyOps, ApplyOp, TableInv, MapOf, Removed, Indexed, Ahead, Behind, Pow2;
      ghost var i, was := cur, seen;
      if validEntry {
        FrontIsMapped();
        seen := seen + [table.table[cur].mem.value.key];
      }
      Advance();
      IsIndexed(table);
      if validEntry {
        AheadPop(start.Keys, storage[..], table.hashOf, table.at, i, cur, was);
      } else {
        AheadMoves(start.Keys, storage[..], table.hashOf, table.at, i + 1, cur, was);
      }
      if !rekeyed {
        BehindPop(start.Keys, storage[..], table.hashOf, table.at, i, cur, was);
      }
      validEntry := true;
    }

    method RemoveFront()
      requires Valid() && validEntry && cur < storage.Length
      modifies this, table, storage
      ensures Valid() && !validEntry && removed && rekeyed == old(rekeyed) && cur == old(cur)
      ensures log == old(log) + [RemovedFront(old(Front().key))]
      ensures seen == old(seen) + [old(Front().key)]
    {
      hide ApplyOps, ApplyOp, TableInv, MapOf, Removed, Indexed, Ahead, Behind, Pow2;
      FrontIsMapped();
      IsIndexed(table);
      ghost var k, at := table.table[cur].mem.value.key, table.at;
      AheadRemove(start.Keys, storage[..], table.hashOf, at, cur, seen, k);
      ApplyOpsStep(start, log, RemovedFront(k));
      BehindRemove(start.Keys, at, cur, seen, k);
      seen, log := seen + [k], log + [RemovedFront(k)];
      removed, validEntry := true, false;
      RemoveAt(table, cur);
    }

    /** Re-inserts the front under a key the rest of the table does not hold. */
    method RekeyFront(k: K)
      requires Valid() && validEntry && cur < storage.Length
      requires k !in table.Contents() || k == Front().key
      modifies this, table, storage
      ensures Valid() && !validEntry && rekeyed && removed == old(removed) && cur == old(cur)
      ensures log == old(log) + [RekeyedFront(old(Front().key), k)]
      ensures seen == old(seen) + [old(Front().key)]
    {
      hide ApplyOps, ApplyOp, TableInv, MapOf, Removed, Indexed, Ahead, Behind, Pow2;
      FrontIsMapped();
      IsIndexed(table);
      ghost var was, at := table.table[cur].mem.value.key, table.at;
      AheadRemove(start.Keys, storage[..], table.hashOf, at, cur, seen, was);
      ApplyOpsStep(start, log, RekeyedFront(was, k));
      seen, log := seen + [was], log + [RekeyedFront(was, k)];
      rekeyed, validEntry := true, false;
      RekeyAt(table, cur, k);
      AheadAdd(start.Keys, at - {was}, cur + 1, seen, k, table.at[k]);
    }

    /** The destructor: restores the load bound, by a new table or in place, and then
        shrinks. The map is the opening one with exactly the logged operations. A
        generation read before shows whether entries may have moved. */
    method Close(memory: bool, memoryToShrink: bool)
      requires Valid()
      modifies table, storage
      ensures table.Valid() && table.Contents() == ApplyOps(start, log)
      ensures table.table == storage || fresh(table.table)
      ensures rekeyed || table.table != storage ==> table.gen != old(table.gen)
      ensures !rekeyed && table.table == storage ==> table.gen == old(table.gen) && storage[..] == old(storage[..])
      ensures removed && memoryToShrink ==> !table.Underloaded()
    {
      hide ApplyOps, TableInv, MapOf, Removed, Ahead, Behind, Pow2;
      if rekeyed {
        table.gen := (table.gen + 1) % TWO32;
        table.CheckOverRemoved(memory);
      }
      if removed {
        table.CompactIfUnderloaded(memoryToShrink);
      }
    }

    /** An exhausted enumeration has seen every opening key: each was passed at the front,
        removed or rekeyed, even if keys that were rekeyed came by again. */
    lemma SawEveryKey()
      requires Valid() && cur == storage.Length
      ensures forall k | k in start :: k in seen
    {
      IsIndexed(table);
      forall k | k in start ensures k in seen {
        if k in table.at {
          assert table.at[k] < storage.Length;
        }
      }
    }

    /** If it has not rekeyed it has seen each of them once, and no other. */
    lemma SawEverything()
      requires Valid() && cur == storage.Length && !rekeyed
      ensures multiset(seen) == multiset(start.Keys)
    {
      SawEveryKey();
      forall k ensures multiset(seen)[k] == multiset(start.Keys)[k] {
        DistinctCount(seen, k);
      }
    }
  }

  /** The load bound, which only rekeying can break. */
  ghost predicate InBound<K, V>(table: HashTable<K, V>)
    reads table
  {
    table.table != null && 4 * (table.entryCount + table.removedCount) <= 3 * table.table.Length
  }

  lemma EntryIsMapped<K, V>(table: HashTable<K, V>, e: nat)
    requires table.Loose() && e < table.table.Length && table.table[e].IsLive()
    ensures table.table[e].mem.Some?
    ensures var (k, v) := (table.table[e].mem.value.key, table.table[e].mem.value.value);
            k in table.Contents() && table.Contents()[k] == v && k in table.at && table.at[k] == e
  {
    assert SlotIndexed(table.table[e], e, table.hashOf, table.at);
  }

  /** What removeFront does to the table. */
  method RemoveAt<K, V>(table: HashTable<K, V>, e: nat)
    requires table.Loose() && e < table.table.Length && table.table[e].IsLive() && table.table[e].mem.Some?
    modifies table, table.table
    ensures table.Loose() && table.table == old(table.table) && (old(InBound(table)) ==> InBound(table))
    ensures !table.table[e].IsLive()
    ensures var k := old(table.table[e].mem.value.key);
            table.Contents() == ApplyOp(old(table.Contents()), RemovedFront(k)) && table.at == old(table.at) - {k}
  {
    hide TableInv, MapOf, Removed, Pow2;
    table.RemoveEntry(e);
  }

  /** What rekeyFront does to it: the entry goes to any slot that is free for k. */
  method RekeyAt<K, V>(table: HashTable<K, V>, e: nat, k: K)
    requires table.Loose() && e < table.table.Length && table.table[e].IsLive() && table.table[e].mem.Some?
    requires k !in table.Contents() || k == table.table[e].mem.value.key
    modifies table, table.table
    ensures table.Loose() && table.table == old(table.table)
    ensures var was, at := old(table.table[e].mem.value.key), old(table.at);
            && table.Contents() == ApplyOp(old(table.Contents()), RekeyedFront(was, k))
            && k !in at - {was} && k in table.at && table.at == (at - {was})[k := table.at[k]]
  {
    hide TableInv, MapOf, Removed, Pow2;
    EntryIsMapped(table, e);
    var t := table.table[e].mem.value;
    table.RemoveEntry(e);
    KeysAreIndexed(table);
    table.PutNewInfallible(k, t.value);
  }

  /** Every opening key is seen, or in a slot that is not done with. */
  ghost predicate Ahead<K>(opening: set<K>, at: map<K, nat>, bound: nat, seen: seq<K>) {
    forall k | k in opening :: k in seen || (k in at && at[k] >= bound)
  }

  /** The seen keys are opening keys, distinct, and behind the cursor. */
  ghost predicate Behind<K>(opening: set<K>, at: map<K, nat>, cur: nat, seen: seq<K>) {
    && (forall k | k in seen :: k in opening && (k in at ==> at[k] < cur))
    && (forall i, j | 0 <= i < j < |seen| :: seen[i] != seen[j])
  }

  lemma ProgressStarts<K, V>(table: HashTable<K, V>, c: nat)
    requires table.Loose() && c <= table.table.Length && forall i | 0 <= i < c :: !table.table[i].IsLive()
    ensures Ahead(table.Contents().Keys, table.at, c, []) && Behind(table.Contents().Keys, table.at, c, [])
    ensures table.at.Keys == table.Contents().Keys
  {
    hide Probe, Placed, AllPlaced, Removed;
    assert table.Contents().Keys == table.at.Keys;
    forall k | k in table.at ensures table.at[k] >= c {
      assert table.table[..][table.at[k]].IsLive();
    }
  }

  lemma IsIndexed<K, V>(table: HashTable<K, V>)
    requires table.Loose()
    ensures Indexed(table.table[..], table.hashOf, table.at)
  {
  }

  lemma KeysAreIndexed<K, V>(table: HashTable<K, V>)
    requires table.Loose()
    ensures table.Contents().Keys == table.at.Keys
  {
    MapOfKeys(table.table[..], table.SizeLog2(), table.hashOf, table.at);
  }

  // No live entry is skipped, so no opening key is.
  lemma AheadMoves<K, V>(opening: set<K>, t: seq<Entry<K, V>>, hashOf: K -> HashNumber, at: map<K, nat>,
                         bound: nat, cur: nat, seen: seq<K>)
    requires Ahead(opening, at, bound, seen) && Indexed(t, hashOf, at)
    requires cur <= |t| && forall j | bound <= j < cur :: !t[j].IsLive()
    ensures Ahead(opening, at, cur, seen)
  {
  }

  lemma AheadPop<K, V>(opening: set<K>, t: seq<Entry<K, V>>, hashOf: K -> HashNumber, at: map<K, nat>,
                       i: nat, cur: nat, seen: seq<K>)
    requires Ahead(opening, at, i, seen) && Indexed(t, hashOf, at)
    requires i < cur <= |t| && t[i].IsLive() && forall j | i < j < cur :: !t[j].IsLive()
    ensures t[i].mem.Some? && Ahead(opening, at, cur, seen + [t[i].mem.value.key])
  {
    assert SlotIndexed(t[i], i, hashOf, at);
    var k := t[i].mem.value.key;
    forall x | x in opening ensures x in seen + [k] || (x in at && at[x] >= cur) {
      if x !in seen && at[x] == i {
        assert x == k;
      }
    }
  }

  lemma AheadRemove<K, V>(opening: set<K>, t: seq<Entry<K, V>>, hashOf: K -> HashNumber, at: map<K, nat>,
                          cur: nat, seen: seq<K>, k: K)
    requires Ahead(opening, at, cur, seen) && Indexed(t, hashOf, at) && k in at && at[k] == cur
    ensures Ahead(opening, at - {k}, cur + 1, seen + [k])
  {
    forall x | x in opening ensures x in seen + [k] || (x in at - {k} && (at - {k})[x] >= cur + 1) {
      if x !in seen && at[x] == cur {
        assert t[at[x]] == t[at[k]];
      }
    }
  }

  lemma AheadAdd<K>(opening: set<K>, at: map<K, nat>, bound: nat, seen: seq<K>, k: K, slot: nat)
    requires Ahead(opening, at, bound, seen) && k !in at
    ensures Ahead(opening, at[k := slot], bound, seen)
  {
  }

  lemma BehindPop<K, V>(opening: set<K>, t: seq<Entry<K, V>>, hashOf: K -> HashNumber, at: map<K, nat>,
                        i: nat, cur: nat, seen: seq<K>)
    requires Behind(opening, at, i, seen) && Indexed(t, hashOf, at) && at.Keys <= opening && i < cur && i < |t|
    ensures !t[i].IsLive() ==> Behind(opening, at, cur, seen)
    ensures t[i].IsLive() ==> t[i].mem.Some? && Behind(opening, at, cur, seen + [t[i].mem.value.key])
  {
    if t[i].IsLive() {
      assert SlotIndexed(t[i], i, hashOf, at);
    }
  }

  lemma BehindRemove<K>(opening: set<K>, at: map<K, nat>, cur: nat, seen: seq<K>, k: K)
    requires k in at && at[k] == cur
    ensures Behind(opening, at, cur, seen) && at.Keys <= opening ==>
              Behind(opening, at - {k}, cur, seen + [k]) && (at - {k}).Keys <= opening
  {
  }

  lemma {:induction false} DistinctCount<K>(s: seq<K>, k: K)
    requires forall i, j | 0 <= i < j < |s| :: s[i] != s[j]
    ensures multiset(s)[k] == if k in s then 1 else 0
  {
    if s != [] {
      var front, last := s[..|s| - 1], s[|s| - 1];
      assert s == front + [last];
      DistinctCount(front, k);
    }
  }
}

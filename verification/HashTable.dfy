/** js::detail::HashTable of js/public/HashTable.h: open addressing with double
    hashing, tombstones and collision bits, mutated in place. */
module HashTable {
  import opened Arith
  import opened HashCore
  import opened HashInvariant
  import opened HashSearch
  import opened HashRebuild
  import opened Wrappers

  const MAX_INIT: nat := 0x80_0000

  datatype RebuildStatus = NotOverloaded | Rehashed | RehashFailed

  /** The result of lookupForAdd: a slot, the prepared hash and, as in debug builds,
      the mutation count at which the slot was found. */
  datatype AddPtr = AddPtr(entry: nat, keyHash: HashNumber, mutationCount: nat)

  lemma Pow2Of24()
    ensures Pow2(24) == 0x100_0000
  {
    Pow2Add(12, 12);
    Pow2Add(6, 6);
  }

  lemma CapacityBounds(log2: nat)
    requires MIN_CAPACITY_LOG2 <= log2 <= MAX_CAPACITY_LOG2
    ensures Pow2(log2) % 4 == 0 && 4 <= Pow2(log2) <= 0x100_0000
  {
    Pow2Add(log2 - 2, 2);
    Pow2Of24();
    Pow2Monotone(2, log2);
    Pow2Monotone(log2, 24);
  }

  /** The init formula (length * 171) >> 7, rounded up to a power of two, leaves length
      entries at or below three quarters of the capacity. */
  lemma InitLeavesRoom(length: nat, capacity: nat)
    requires capacity % 4 == 0 && capacity >= (length * 171) / 128
    ensures 4 * length <= 3 * capacity
  {
  }

  lemma Quarters(capacity: nat, n: nat)
    ensures capacity % 4 == 0 ==> (n >= (192 * capacity) / 256 <==> 4 * n >= 3 * capacity)
    ensures n <= (64 * capacity) / 256 <==> 4 * n <= capacity
  {
    var c, r := Quotient(capacity, 4);
    QuotientIs(64 * capacity, c, 64 * r, 256);
    if r == 0 {
      QuotientIs(192 * capacity, 3 * c, 0, 256);
    } else {
      assert capacity % 4 == r;
    }
  }

  class HashTable<K(==), V> {
    const hashOf: K -> HashNumber
    var hashShift: nat
    var entryCount: nat
    var removedCount: nat
    var gen: HashNumber
    var table: array?<Entry<K, V>>
    var mutationCount: nat

    /** The slot of each key. */
    ghost var at: map<K, nat>

    constructor (hashOf: K -> HashNumber)
      ensures this.hashOf == hashOf && Unallocated() && gen == 0
    {
      this.hashOf := hashOf;
      hashShift, entryCount, removedCount, gen, mutationCount := HASH_BITS, 0, 0, 0, 0;
      table := null;
      at := map[];
    }

    // ---------- abstraction ----------

    function SizeLog2(): int
      reads this`hashShift
    {
      HASH_BITS - hashShift
    }

    ghost predicate Unallocated()
      reads this
    {
      table == null && entryCount == removedCount == 0 && at == map[]
    }

    /** Slots and index agree and the counters are exact, but tombstones may fill
        the table, as they can while an Enum that has rekeyed is open. */
    ghost predicate Loose()
      reads this, table
    {
      && table != null && hashShift <= HASH_BITS
      && TableInv(table[..], SizeLog2(), hashOf, at)
      && entryCount == |at|
      && removedCount == |Removed(table[..])|
      && 4 * entryCount <= 3 * table.Length
    }

    /** Loose, and the load bound leaves a quarter of the slots free. */
    ghost predicate Valid()
      reads this, table
    {
      Loose() && 4 * (entryCount + removedCount) <= 3 * table.Length
    }

    /** The finite map this table implements. */
    ghost function Contents(): map<K, V>
      reads this, table
      requires Loose()
    {
      MapOf(table[..], at)
    }

    /** p is the slot for the absent key k, over a marked path, and no mutation has
        happened since it was found. */
    ghost predicate AddPtrValid(p: AddPtr, k: K)
      reads this, table
      requires Loose()
    {
      && p.mutationCount == mutationCount
      && p.entry < table.Length && !table[p.entry].IsLive()
      && p.keyHash == PrepareHash(hashOf(k)) && k !in at
      && Placed(table[..], SizeLog2(), p.keyHash, p.entry)
    }

    function Capacity(): nat
      reads this`hashShift
      requires hashShift <= HASH_BITS
    {
      Pow2(SizeLog2())
    }

    predicate Overloaded()
      reads this
      requires hashShift <= HASH_BITS
    {
      entryCount + removedCount >= (192 * Capacity()) / 256
    }

    static predicate WouldBeUnderloaded(capacity: nat, entryCount: nat) {
      capacity > 4 && entryCount <= (64 * capacity) / 256
    }

    predicate Underloaded()
      reads this
      requires hashShift <= HASH_BITS
    {
      WouldBeUnderloaded(Capacity(), entryCount)
    }

    /** count() is the size of the map. */
    function Count(): (n: nat)
      reads this, table
      requires Loose()
      ensures n == |Contents()|
    {
      assert Contents().Keys == at.Keys;
      entryCount
    }

    /** The size that a rebuild goes to: the same if a quarter of the slots are
        tombstones, else the double. */
    ghost function RebuildLog2(): int
      reads this
      requires hashShift <= HASH_BITS
    {
      if 4 * removedCount >= Capacity() then SizeLog2() else SizeLog2() + 1
    }

    /** What a rebuild needs: a size that is allowed, and memory. */
    ghost predicate CanRebuild(memory: bool)
      reads this
      requires hashShift <= HASH_BITS
    {
      RebuildLog2() <= MAX_CAPACITY_LOG2 && memory
    }

    /** The load bounds in quarters: a rebuild at three, a smaller table at one. */
    lemma LoadBounds(capacity: nat, n: nat)
      requires Loose()
      ensures Overloaded() <==> 4 * (entryCount + removedCount) >= 3 * table.Length
      ensures WouldBeUnderloaded(capacity, n) <==> capacity > 4 && 4 * n <= capacity
      ensures Underloaded() <==> table.Length > 4 && 4 * entryCount <= table.Length
    {
      hide TableInv, Pow2, Removed;
      TableCapacity();
      Quarters(table.Length, entryCount + removedCount);
      Quarters(table.Length, entryCount);
      Quarters(capacity, n);
    }

    lemma TableCapacity()
      requires Loose()
      ensures Capacity() == table.Length && table.Length % 4 == 0
    {
      hide AllPlaced, Indexed, Removed;
      CapacityBounds(SizeLog2());
    }

    // ---------- allocation ----------

    // The allocator is outside the model: memory says what it answers if it is asked.

    /** calloc: all slots free, or null when there is no memory. */
    method CreateTable(capacity: nat, memory: bool) returns (t: array?<Entry<K, V>>)
      ensures t != null <==> memory
      ensures t != null ==> fresh(t) && t.Length == capacity
      ensures t != null ==> forall i | 0 <= i < capacity :: t[i].IsFree()
    {
      if memory {
        t := new Entry<K, V>[capacity](_ => FreeEntry());
      } else {
        t := null;
      }
    }

    /** The rounding loop of init: the least capacity of at least 4 that is a power of
        two and not below newCapacity. */
    static method RoundUpLog2(newCapacity: nat) returns (roundUpLog2: nat)
      requires 4 <= newCapacity <= 0x100_0000
      ensures MIN_CAPACITY_LOG2 <= roundUpLog2 <= MAX_CAPACITY_LOG2
      ensures newCapacity <= Pow2(roundUpLog2) && Pow2(roundUpLog2) % 4 == 0
      ensures roundUpLog2 > 2 ==> Pow2(roundUpLog2 - 1) < newCapacity
    {
      Pow2Of24();
      var roundUp := 4;
      roundUpLog2 := 2;
      assert Pow2(2) == 4;
      while roundUp < newCapacity
        invariant 2 <= roundUpLog2 <= 24 && roundUp == Pow2(roundUpLog2)
        invariant roundUpLog2 > 2 ==> Pow2(roundUpLog2 - 1) < newCapacity
        decreases 24 - roundUpLog2
      {
        roundUp := roundUp * 2;
        roundUpLog2 := roundUpLog2 + 1;
      }
      CapacityBounds(roundUpLog2);
    }

    /** On success the table is empty, and of the least capacity at which length entries
        fit without a resize, or 4. */
    method Init(length: nat, memory: bool) returns (ok: bool)
      requires Unallocated() && length < TWO32
      modifies this
      ensures ok ==> Valid() && fresh(table) && Contents() == map[]
      ensures ok ==> entryCount == removedCount == 0 && 4 * length <= 3 * Capacity()
      ensures ok ==> Capacity() == 4 || Capacity() / 2 < (length * 171) / 128
      ensures ok <==> length <= MAX_INIT && memory
      ensures !ok ==> unchanged(this)
      ensures gen == old(gen) && mutationCount == old(mutationCount)
    {
      if length > MAX_INIT {
        return false;
      }
      assert length * 171 < TWO32;
      var newCapacity := (length * 171) / 128;
      if newCapacity < 4 {
        newCapacity := 4;
      }
      var roundUpLog2 := RoundUpLog2(newCapacity);
      newCapacity := Pow2(roundUpLog2);
      InitLeavesRoom(length, newCapacity);
      var t := CreateTable(newCapacity, memory);
      if t == null {
        return false;
      }
      table := t;
      hashShift := HASH_BITS - roundUpLog2;
      EmptyTableInv(table[..], roundUpLog2, hashOf);
      return true;
    }

    // ---------- resizing ----------

    /** A second table of 2^newLog2 slots with the live entries, or null without memory. */
    method CopyInto(newLog2: nat, memory: bool)
        returns (newTable: array?<Entry<K, V>>, ghost at': map<K, nat>)
      requires Loose() && MIN_CAPACITY_LOG2 <= newLog2 <= MAX_CAPACITY_LOG2 && 4 * entryCount <= 3 * Pow2(newLog2)
      ensures newTable != null <==> memory
      ensures newTable != null ==> fresh(newTable) && newTable.Length == Pow2(newLog2)
      ensures newTable != null ==>
        && TableInv(newTable[..], newLog2, hashOf, at') && Removed(newTable[..]) == {} && |at'| == |at|
        && (forall k | k in at' :: at'[k] < newTable.Length && newTable[at'[k]].mem.Some?)
        && MapOf(newTable[..], at') == Contents()
    {
      hide Probe, Placed, AllPlaced, Indexed, Removed;
      var newCapacity := Pow2(newLog2);
      newTable := CreateTable(newCapacity, memory);
      at' := at;
      if newTable != null {
        at' := CopyLive(table, newTable, newLog2, SizeLog2(), hashOf, at);
        MapOfKeys(newTable[..], newLog2, hashOf, at');
      }
    }

    method ChangeTableSize(deltaLog2: int, memory: bool) returns (status: RebuildStatus)
      requires Loose()
      requires MIN_CAPACITY_LOG2 <= SizeLog2() + deltaLog2
      requires 4 * entryCount <= 3 * Pow2(SizeLog2() + deltaLog2)
      modifies this
      ensures status == if old(SizeLog2()) + deltaLog2 <= MAX_CAPACITY_LOG2 && memory then Rehashed else RehashFailed
      ensures status == RehashFailed ==> unchanged(this)
      ensures status == Rehashed ==> Loose() && fresh(table) && Contents() == old(Contents())
      ensures status == Rehashed ==> removedCount == 0 && entryCount == old(entryCount)
      ensures status == Rehashed ==> SizeLog2() == old(SizeLog2()) + deltaLog2
      ensures status == Rehashed ==> gen == (old(gen) + 1) % TWO32 && gen != old(gen)
      ensures mutationCount == old(mutationCount)
    {
      hide TableInv, MapOf, Removed;
      var newLog2 := SizeLog2() + deltaLog2;
      if newLog2 > MAX_CAPACITY_LOG2 {
        return RehashFailed;
      }
      var newTable;
      ghost var at';
      newTable, at' := CopyInto(newLog2, memory);
      if newTable == null {
        return RehashFailed;
      }
      hashShift := HASH_BITS - newLog2;
      removedCount := 0;
      gen := (gen + 1) % TWO32;
      table := newTable;
      at := at';
      return Rehashed;
    }

    /** Compresses when a quarter of the table is tombstones, otherwise doubles. */
    method CheckOverloaded(memory: bool) returns (status: RebuildStatus)
      requires Loose()
      modifies this
      ensures status == if !old(Overloaded()) then NotOverloaded
                        else if old(CanRebuild(memory)) then Rehashed else RehashFailed
      ensures status != Rehashed ==> unchanged(this)
      ensures status == Rehashed ==> Valid() && fresh(table) && Contents() == old(Contents())
      ensures status == Rehashed ==> removedCount == 0 && entryCount == old(entryCount)
      ensures status == Rehashed ==> SizeLog2() == old(RebuildLog2())
      ensures status == Rehashed ==> gen == (old(gen) + 1) % TWO32 && gen != old(gen)
      ensures status == NotOverloaded ==> 4 * (entryCount + removedCount) < 3 * table.Length
      ensures status == Rehashed && old(Valid()) ==> 4 * entryCount < 3 * table.Length
      ensures mutationCount == old(mutationCount)
    {
      hide Probe, Placed, AllPlaced, Indexed;
      CapacityBounds(SizeLog2());
      if !Overloaded() {
        return NotOverloaded;
      }
      var deltaLog2 := if removedCount >= Capacity() / 4 then 0 else 1;
      status := ChangeTableSize(deltaLog2, memory);
    }

    method RehashTableInPlace()
      requires Loose()
      modifies this, table
      ensures Valid() && Contents() == old(Contents())
      ensures table == old(table) && hashShift == old(hashShift) && gen == old(gen)
      ensures removedCount == 0 && entryCount == old(entryCount)
      ensures mutationCount == old(mutationCount)
    {
      hide Probe, Placed, AllPlaced, Indexed;
      removedCount := 0;
      at := HashRebuild.RehashTableInPlace(table, SizeLog2(), hashOf, at);
    }

    /** Infallible: falls back to the in-place rehash when no new table can be had. */
    method CheckOverRemoved(memory: bool)
      requires Loose()
      modifies this, table
      ensures Valid() && Contents() == old(Contents())
      ensures if old(Overloaded() && CanRebuild(memory)) then fresh(table) && SizeLog2() == old(RebuildLog2())
              else table == old(table) && hashShift == old(hashShift)
      ensures gen == if table == old(table) then old(gen) else (old(gen) + 1) % TWO32
      ensures removedCount == if old(Overloaded()) then 0 else old(removedCount)
      ensures !old(Overloaded()) ==> unchanged(this) && unchanged(table)
      ensures entryCount == old(entryCount) && mutationCount == old(mutationCount)
    {
      hide Probe, Placed, AllPlaced, Indexed;
      CapacityBounds(SizeLog2());
      if Overloaded() {
        var status := CheckOverloaded(memory);
        if status == RehashFailed {
          RehashTableInPlace();
        }
      }
    }

    /** Halves an underloaded table, if there is memory. */
    method CheckUnderloaded(memory: bool)
      requires Valid()
      modifies this
      ensures Valid() && Contents() == old(Contents())
      ensures if old(Underloaded()) && memory
              then fresh(table) && SizeLog2() == old(SizeLog2()) - 1 && removedCount == 0
              else unchanged(this)
      ensures gen == if table == old(table) then old(gen) else (old(gen) + 1) % TWO32
      ensures entryCount == old(entryCount) && mutationCount == old(mutationCount)
    {
      hide Probe, Placed, AllPlaced, Indexed;
      CapacityBounds(SizeLog2());
      if Underloaded() {
        assert SizeLog2() > 2;
        var _ := ChangeTableSize(-1, memory);
      }
    }

    /** Shrinks to the largest capacity that is not underloaded, if there is memory. */
    method CompactIfUnderloaded(memory: bool)
      requires Valid()
      modifies this
      ensures Valid() && Contents() == old(Contents())
      ensures if old(Underloaded()) && memory
              then fresh(table) && !Underloaded() && WouldBeUnderloaded(2 * Capacity(), entryCount)
                   && Capacity() < old(Capacity()) && 2 * entryCount <= Capacity() && removedCount == 0
              else unchanged(this)
      ensures gen == if table == old(table) then old(gen) else (old(gen) + 1) % TWO32
      ensures entryCount == old(entryCount) && mutationCount == old(mutationCount)
    {
      hide Probe, Placed, AllPlaced, Indexed;
      CapacityBounds(SizeLog2());
      var resizeLog2 := 0;
      var newCapacity := Capacity();
      while WouldBeUnderloaded(newCapacity, entryCount)
        invariant MIN_CAPACITY_LOG2 <= SizeLog2() + resizeLog2 <= SizeLog2()
        invariant newCapacity == Pow2(SizeLog2() + resizeLog2)
        invariant resizeLog2 != 0 ==> WouldBeUnderloaded(2 * newCapacity, entryCount)
        decreases newCapacity
      {
        assert SizeLog2() + resizeLog2 > 2;
        newCapacity := newCapacity / 2;
        resizeLog2 := resizeLog2 - 1;
      }
      if resizeLog2 != 0 {
        CapacityBounds(SizeLog2() + resizeLog2);
        Pow2Monotone(SizeLog2() + resizeLog2, SizeLog2());
        var _ := ChangeTableSize(resizeLog2, memory);
      }
    }

    // ---------- lookup ----------

    /** lookup(l): the slot of l, live exactly when l is mapped. The table is not written. */
    method Lookup(l: K) returns (p: nat)
      requires Valid()
      modifies table
      ensures table[..] == old(table[..]) && Valid() && Contents() == old(Contents())
      ensures p < table.Length
      ensures table[p].IsLive() <==> l in Contents()
      ensures l in Contents() ==> table[p].mem == Some(HashMapEntry(l, Contents()[l]))
    {
      hide Probe, Placed, AllPlaced;
      LoadLeavesRoom(table[..], hashOf, at);
      p := HashSearch.Lookup(table, SizeLog2(), l, PrepareHash(hashOf(l)), false, hashOf, at);
    }

    /** lookupForAdd(l): as lookup, but a miss yields an AddPtr for l. */
    method LookupForAdd(l: K) returns (p: AddPtr)
      requires Valid()
      modifies table
      ensures Valid() && Contents() == old(Contents())
      ensures p.entry < table.Length
      ensures table[p.entry].IsLive() <==> l in Contents()
      ensures l in Contents() ==> table[p.entry].mem == Some(HashMapEntry(l, Contents()[l]))
      ensures l !in Contents() ==> AddPtrValid(p, l)
      ensures p.keyHash == PrepareHash(hashOf(l)) && p.mutationCount == mutationCount
    {
      hide Probe, Placed, AllPlaced;
      LoadLeavesRoom(table[..], hashOf, at);
      ghost var t0 := table[..];
      var keyHash := PrepareHash(hashOf(l));
      var e := HashSearch.Lookup(table, SizeLog2(), l, keyHash, true, hashOf, at);
      MarksKeepInv(t0, table[..], SizeLog2(), hashOf, at);
      p := AddPtr(e, keyHash, mutationCount);
    }

    // ---------- adding ----------

    /** setLive on a non-live slot at the end of the key's marked path. */
    method SetLive(e: nat, keyHash: HashNumber, k: K, v: V)
      requires Loose() && 4 * (entryCount + 1) <= 3 * table.Length
      requires e < table.Length && !table[e].IsLive() && k !in Contents()
      requires keyHash > 1 && keyHash - keyHash % 2 == PrepareHash(hashOf(k))
      requires keyHash % 2 == (if table[e].IsRemoved() then 1 else 0)
      requires Placed(table[..], SizeLog2(), PrepareHash(hashOf(k)), e)
      modifies this, table
      ensures Loose() && Contents() == old(Contents())[k := v]
      ensures table == old(table) && hashShift == old(hashShift) && gen == old(gen)
      ensures entryCount == old(entryCount) + 1 && mutationCount == old(mutationCount) + 1
      ensures removedCount == old(if table[e].IsRemoved() then removedCount - 1 else removedCount)
      ensures table[e].mem == Some(HashMapEntry(k, v)) && table[e].IsLive() && at == old(at)[k := e]
    {
      hide Probe, Placed, AllPlaced, Indexed, Removed, Sized;
      var live := Entry(keyHash, Some(HashMapEntry(k, v)));
      ghost var t0 := table[..];
      SetLiveKeepsInv(t0, SizeLog2(), hashOf, at, e, live);
      SetLiveCounts(t0, at, e, live);
      if table[e].IsRemoved() {
        removedCount := removedCount - 1;
      }
      table[e] := live;
      assert table[..] == t0[e := live];
      at := at[k := e];
      entryCount := entryCount + 1;
      mutationCount := mutationCount + 1;
    }

    /** add(p, ...) after lookupForAdd found k absent. It rebuilds an overloaded table
        unless p is a tombstone, and fails exactly if that rebuild does. */
    method Add(p: AddPtr, k: K, v: V, memory: bool) returns (ok: bool, q: AddPtr)
      requires Valid() && AddPtrValid(p, k)
      modifies this, table
      ensures Valid()
      ensures ok <==> old(table[p.entry].IsRemoved() || !Overloaded() || CanRebuild(memory))
      ensures ok ==> Contents() == old(Contents())[k := v]
      ensures ok ==> q.entry < table.Length && table[q.entry].mem == Some(HashMapEntry(k, v)) && table[q.entry].IsLive()
      ensures !ok ==> unchanged(this) && unchanged(table)
      ensures if old(!table[p.entry].IsRemoved() && Overloaded() && CanRebuild(memory))
              then fresh(table) && SizeLog2() == old(RebuildLog2())
              else table == old(table) && hashShift == old(hashShift)
      ensures gen == if table == old(table) then old(gen) else (old(gen) + 1) % TWO32
      ensures ok ==> entryCount == old(entryCount) + 1 && mutationCount == old(mutationCount) + 1
    {
      hide Probe, Placed, AllPlaced, Indexed, PrepareHash;
      CapacityBounds(SizeLog2());
      q := p;
      if table[q.entry].IsRemoved() {
        OddSuccessor(q.keyHash);
        RemovedCounts(table[..], q.entry);
        q := q.(keyHash := q.keyHash + 1);
      } else {
        var status := CheckOverloaded(memory);
        if status == RehashFailed {
          return false, q;
        }
        if status == Rehashed {
          var e := FindFree(q.keyHash);
          if table[e].IsRemoved() {
            RemovedCounts(table[..], e);
          }
          q := q.(entry := e);
        }
      }
      SetLive(q.entry, q.keyHash, k, v);
      return true, q;
    }

    /** findFreeEntry on this table: only collision bits change. */
    method FindFree(keyHash: HashNumber) returns (e: nat)
      requires Loose()
      modifies table
      ensures Loose() && Contents() == old(Contents())
      ensures e < table.Length && !table[e].IsLive()
      ensures Removed(table[..]) == old(Removed(table[..]))
      ensures Placed(table[..], SizeLog2(), keyHash, e)
    {
      hide Probe, Placed, AllPlaced;
      CapacityBounds(SizeLog2());
      LoadLeavesRoom(table[..], hashOf, at);
      ghost var t0 := table[..];
      e := FindFreeEntry(table, SizeLog2(), keyHash);
      MarksKeepInv(t0, table[..], SizeLog2(), hashOf, at);
    }

    /** Adds a key known to be absent to a table known to have room for it. Reusing a
        tombstone keeps its collision bit. */
    method PutNewInfallible(k: K, v: V)
      requires Loose() && 4 * (entryCount + 1) <= 3 * table.Length
      requires k !in Contents()
      modifies this, table
      ensures Loose() && Contents() == old(Contents())[k := v]
      ensures table == old(table) && hashShift == old(hashShift) && gen == old(gen)
      ensures entryCount == old(entryCount) + 1 && mutationCount == old(mutationCount) + 1
      ensures removedCount <= old(removedCount) && k in at && at == old(at)[k := at[k]]
    {
      hide Probe, Placed, TableInv, PrepareHash;
      var keyHash := PrepareHash(hashOf(k));
      var e := FindFree(keyHash);
      if table[e].IsRemoved() {
        OddSuccessor(keyHash);
        RemovedCounts(table[..], e);
        keyHash := keyHash + 1;
      }
      SetLive(e, keyHash, k, v);
    }

    /** Adds an absent key, resizing first if the table is overloaded. */
    method PutNew(k: K, v: V, memory: bool) returns (ok: bool)
      requires Valid() && k !in Contents()
      modifies this, table
      ensures Valid()
      ensures Contents() == if ok then old(Contents())[k := v] else old(Contents())
      ensures ok <==> old(!Overloaded() || CanRebuild(memory))
      ensures !ok ==> unchanged(this) && unchanged(table)
      ensures if old(Overloaded() && CanRebuild(memory)) then fresh(table) && SizeLog2() == old(RebuildLog2())
              else table == old(table) && hashShift == old(hashShift)
      ensures gen == if table == old(table) then old(gen) else (old(gen) + 1) % TWO32
      ensures removedCount <= old(removedCount)
      ensures ok ==> entryCount == old(entryCount) + 1
    {
      hide Probe, Placed, AllPlaced, Indexed;
      var status := CheckOverloaded(memory);
      if status == RehashFailed {
        return false;
      }
      CapacityBounds(SizeLog2());
      PutNewInfallible(k, v);
      return true;
    }

    /** Finds l again after arbitrary mutations, or adds it. */
    method RelookupOrAdd(p: AddPtr, l: K, v: V, memory: bool) returns (ok: bool, q: AddPtr)
      requires Valid() && p.keyHash == PrepareHash(hashOf(l))
      modifies this, table
      ensures Valid()
      ensures ok ==> Contents() == if l in old(Contents()) then old(Contents()) else old(Contents())[l := v]
      ensures ok ==> q.entry < table.Length && table[q.entry].mem == Some(HashMapEntry(l, Contents()[l]))
      ensures !ok ==> Contents() == old(Contents()) && l !in Contents() && old(Overloaded() && !CanRebuild(memory))
      ensures table == old(table) || (fresh(table) && l !in old(Contents()))
      ensures gen == if table == old(table) then old(gen) else (old(gen) + 1) % TWO32
    {
      hide Probe, Placed, AllPlaced;
      q := LookupForAdd(l);
      if table[q.entry].IsLive() {
        return true, q;
      }
      ok, q := Add(q, l, v, memory);
    }

    // ---------- removing ----------

    /** The private remove: a tombstone if some path runs over the slot, else free. */
    method RemoveEntry(e: nat)
      requires Loose() && e < table.Length && table[e].IsLive() && table[e].mem.Some?
      modifies this, table
      ensures Loose() && old(Valid()) ==> Valid()
      ensures old(table[e].mem.value.key in Contents())
      ensures Loose() && Contents() == old(Contents()) - {old(table[e].mem.value.key)}
      ensures at == old(at) - {old(table[e].mem.value.key)}
      ensures table == old(table) && hashShift == old(hashShift) && gen == old(gen)
      ensures entryCount == old(entryCount) - 1 && mutationCount == old(mutationCount) + 1
      ensures removedCount == old(removedCount + if table[e].HasCollision() then 1 else 0)
      ensures !table[e].IsLive() && forall i | 0 <= i < table.Length && i != e :: table[i] == old(table[i])
    {
      hide TableInv, MapOf, Removed;
      ghost var k, was := table[e].mem.value.key, at;
      at := was - {k};
      var tombstone := ClearSlot(table, e, SizeLog2(), hashOf, was);
      if tombstone {
        removedCount := removedCount + 1;
      }
      entryCount := entryCount - 1;
      mutationCount := mutationCount + 1;
    }

    /** remove(p) for a found p: halves a table that this leaves underloaded, if there is
        memory. */
    method Remove(p: nat, memory: bool)
      requires Valid() && p < table.Length && table[p].IsLive() && table[p].mem.Some?
      modifies this, table
      ensures Valid()
      ensures Contents() == old(Contents()) - {old(table[p].mem.value.key)}
      ensures entryCount == old(entryCount) - 1
      ensures if WouldBeUnderloaded(old(Capacity()), old(entryCount) - 1) && memory
              then fresh(table) && SizeLog2() == old(SizeLog2()) - 1
              else table == old(table) && hashShift == old(hashShift)
      ensures gen == if table == old(table) then old(gen) else (old(gen) + 1) % TWO32
    {
      hide Probe, Placed, AllPlaced, Indexed;
      RemoveEntry(p);
      CheckUnderloaded(memory);
    }

    method Clear()
      requires Loose()
      modifies this, table
      ensures Valid() && Contents() == map[]
      ensures table == old(table) && hashShift == old(hashShift) && gen == old(gen)
      ensures entryCount == 0 && removedCount == 0
      ensures mutationCount == old(mutationCount) + 1
    {
      hide Probe, Placed, AllPlaced, Indexed;
      for i := 0 to table.Length
        invariant forall j | 0 <= j < i :: table[j].IsFree()
        modifies table
      {
        table[i] := FreeEntry();
      }
      removedCount, entryCount := 0, 0;
      mutationCount := mutationCount + 1;
      at := map[];
      EmptyTableInv(table[..], SizeLog2(), hashOf);
    }

    method Finish()
      requires Unallocated() || Loose()
      modifies this
      ensures Unallocated()
      ensures if old(table) == null then unchanged(this)
              else gen == (old(gen) + 1) % TWO32 && mutationCount == old(mutationCount) + 1
    {
      if table == null {
        return;
      }
      table := null;
      gen := (gen + 1) % TWO32;
      entryCount, removedCount := 0, 0;
      mutationCount := mutationCount + 1;
      at := map[];
    }
  }

  /** removeLive or clearLive on slot e of a table. */
  method ClearSlot<K, V>(table: array<Entry<K, V>>, e: nat, log2: nat, ghost hashOf: K -> HashNumber,
                         ghost at: map<K, nat>)
      returns (tombstone: bool)
    requires TableInv(table[..], log2, hashOf, at) && e < table.Length && table[e].IsLive() && table[e].mem.Some?
    modifies table
    ensures !table[e].IsLive() && forall i | 0 <= i < table.Length && i != e :: table[i] == old(table[i])
    ensures var k := old(table[e].mem.value.key);
            && k in at && k in old(MapOf(table[..], at)) && |at - {k}| == |at| - 1
            && TableInv(table[..], log2, hashOf, at - {k})
            && MapOf(table[..], at - {k}) == old(MapOf(table[..], at)) - {k}
    ensures |Removed(table[..])| == old(|Removed(table[..])|) + if tombstone then 1 else 0
    ensures tombstone == old(table[e].HasCollision())
  {
    hide TableInv, MapOf, Removed;
    ghost var t0 := table[..];
    ghost var gone := if table[e].HasCollision() then RemovedEntry<K, V>() else FreeEntry();
    RemoveKeepsInv(t0, log2, hashOf, at, e, gone);
    RemoveCounts(t0, at, e, gone);
    MapOfKeys(t0, log2, hashOf, at);
    tombstone := table[e].HasCollision();
    table[e] := if tombstone then RemovedEntry() else FreeEntry();
    assert table[..] == t0[e := gone];
  }

  lemma MapOfKeys<K, V>(t: seq<Entry<K, V>>, log2: nat, hashOf: K -> HashNumber, at: map<K, nat>)
    requires TableInv(t, log2, hashOf, at)
    ensures forall k | k in at :: at[k] < |t| && t[at[k]].mem.Some?
    ensures MapOf(t, at).Keys == at.Keys
  {
  }

  lemma OddSuccessor(h: HashNumber)
    requires h % 2 == 0
    ensures h + 1 < TWO32 && (h + 1) % 2 == 1
  {
  }

  lemma RemovedCounts<K, V>(t: seq<Entry<K, V>>, e: nat)
    requires e < |t| && t[e].IsRemoved()
    ensures |Removed(t)| >= 1
  {
    assert e in Removed(t);
  }
}

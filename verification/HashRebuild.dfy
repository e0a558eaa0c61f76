/** Rebuilding the table of js/public/HashTable.h: findFreeEntry, the copy loop of
    changeTableSize, and rehashTableInPlace. */
module HashRebuild {
  import opened Arith
  import opened HashCore
  import opened HashInvariant
  import opened HashSearch

  // ---------- findFreeEntry ----------

  lemma FreeWalkStep<K, V>(t0: seq<Entry<K, V>>, t: seq<Entry<K, V>>, log2: nat, h: HashNumber, j: nat)
    requires log2 <= HASH_BITS && |t| == Pow2(log2)
    requires Marks(t0, t) && PathMarked(t, log2, h, j) && t[Probe(h, log2, j)].IsLive()
    ensures var e := Probe(h, log2, j);
            var u := t[e := t[e].WithCollision(true)];
            Marks(t0, u) && PathMarked(u, log2, h, j + 1)
    ensures var e := Probe(h, log2, j);
            forall i | 0 <= i < |t| :: t[e := t[e].WithCollision(true)][i].IsLive() == t[i].IsLive()
  {
    hide Probe;
  }

  /** The first non-live slot on the path of keyHash, marking the live ones before it. */
  method FindFreeEntry<K, V>(table: array<Entry<K, V>>, log2: nat, keyHash: HashNumber) returns (e: nat)
    requires log2 <= HASH_BITS && table.Length == Pow2(log2) && HasNonLive(table[..])
    modifies table
    ensures Marks(old(table[..]), table[..])
    ensures e < table.Length && !table[e].IsLive()
    ensures Placed(table[..], log2, keyHash, e)
  {
    hide Probe, Hash1, Hash2, ApplyDoubleHash, Placed;
    ghost var t0 := table[..];
    ghost var last := StepsToNonLive(t0, log2, keyHash);
    ghost var j := 0;
    ProbeStart(keyHash, log2);
    var h1 := Hash1(keyHash, log2);
    e := h1;
    if !table[e].IsLive() {
      EndOfPath(table[..], log2, keyHash, j);
      return;
    }
    var h2 := Hash2(keyHash, log2);
    while true
      invariant e == h1 == Probe(keyHash, log2, j) && e < table.Length && j < last
      invariant Marks(t0, table[..]) && PathMarked(table[..], log2, keyHash, j)
      invariant table[e].IsLive() && !table[Probe(keyHash, log2, last)].IsLive()
      decreases last - j
    {
      assert !table[e].IsRemoved();
      FreeWalkStep(t0, table[..], log2, keyHash, j);
      ghost var next := table[..][e := table[e].WithCollision(true)];
      table[e] := table[e].WithCollision(true);
      assert table[..] == next;
      ProbeNext(keyHash, log2, j);
      h1 := ApplyDoubleHash(h1, h2, log2);
      j := j + 1;
      e := h1;
      if !table[e].IsLive() {
        EndOfPath(table[..], log2, keyHash, j);
        return;
      }
    }
  }

  // ---------- the copy loop of changeTableSize ----------

  /** dst holds exactly the mappings of src whose slots are below i. */
  ghost predicate Copied<K, V>(src: seq<Entry<K, V>>, at: map<K, nat>, dst: seq<Entry<K, V>>, log2: nat,
                               hashOf: K -> HashNumber, at': map<K, nat>, i: nat)
  {
    && TableInv(dst, log2, hashOf, at')
    && Removed(dst) == {}
    && (forall k | k in at :: at[k] < |src| && src[at[k]].mem.Some?)
    && (forall k | k in at' :: k in at && at[k] < i && dst[at'[k]].mem == src[at[k]].mem)
    && (forall k | k in at && at[k] < i :: k in at')
  }

  lemma CopyStep<K, V>(src: seq<Entry<K, V>>, log2Old: nat, at: map<K, nat>, dst: seq<Entry<K, V>>,
                       marked: seq<Entry<K, V>>, log2: nat, hashOf: K -> HashNumber, at': map<K, nat>, i: nat, e: nat)
    requires TableInv(src, log2Old, hashOf, at) && i < |src| && src[i].IsLive() && src[i].mem.Some?
    requires Copied(src, at, dst, log2, hashOf, at', i)
    requires Marks(dst, marked) && e < |marked| && !marked[e].IsLive()
    requires Placed(marked, log2, src[i].GetKeyHash(), e)
    ensures var k := src[i].mem.value.key;
            Copied(src, at, marked[e := Entry(src[i].GetKeyHash(), src[i].mem)], log2, hashOf, at'[k := e], i + 1)
  {
    hide Probe, Placed, AllPlaced, PrepareHash;
    assert SlotIndexed(src[i], i, hashOf, at);
    var k := src[i].mem.value.key;
    var live := Entry(src[i].GetKeyHash(), src[i].mem);
    MarksKeepInv(dst, marked, log2, hashOf, at');
    assert forall x | x in at' :: marked[at'[x]].mem == dst[at'[x]].mem;
    assert e !in Removed(dst);
    SetLiveKeepsInv(marked, log2, hashOf, at', e, live);
    var u := marked[e := live];
    forall x | x in at'[k := e]
      ensures x in at && at[x] < i + 1 && u[at'[k := e][x]].mem == src[at[x]].mem
    {
      if x != k {
        assert at'[x] != e;
      }
    }
  }

  lemma CopyDone<K, V>(src: seq<Entry<K, V>>, at: map<K, nat>, dst: seq<Entry<K, V>>, log2: nat,
                       hashOf: K -> HashNumber, at': map<K, nat>)
    requires Copied(src, at, dst, log2, hashOf, at', |src|)
    ensures MapOf(dst, at') == MapOf(src, at) && |at'| == |at|
  {
    assert at'.Keys == at.Keys;
  }

  method CopyLive<K, V>(oldTable: array<Entry<K, V>>, newTable: array<Entry<K, V>>, newLog2: nat,
                        ghost oldLog2: nat, ghost hashOf: K -> HashNumber, ghost at: map<K, nat>)
      returns (ghost at': map<K, nat>)
    requires oldTable != newTable
    requires TableInv(oldTable[..], oldLog2, hashOf, at)
    requires Sized(newTable[..], newLog2) && |at| < newTable.Length
    requires forall i | 0 <= i < newTable.Length :: newTable[i].IsFree()
    modifies newTable
    ensures TableInv(newTable[..], newLog2, hashOf, at')
    ensures MapOf(newTable[..], at') == MapOf(oldTable[..], at)
    ensures |at'| == |at|
    ensures Removed(newTable[..]) == {}
  {
    hide Probe, Placed;
    ghost var src := oldTable[..];
    at' := map[];
    EmptyTableInv(newTable[..], newLog2, hashOf);
    for i := 0 to oldTable.Length
      invariant oldTable[..] == src
      invariant Copied(src, at, newTable[..], newLog2, hashOf, at', i)
    {
      if oldTable[i].IsLive() {
        assert SlotIndexed(src[i], i, hashOf, at);
        var hn := oldTable[i].GetKeyHash();
        SubsetCard(at'.Keys, at.Keys);
        LoadLeavesRoom(newTable[..], hashOf, at');
        ghost var dst := newTable[..];
        var e := FindFreeEntry(newTable, newLog2, hn);
        CopyStep(src, oldLog2, at, dst, newTable[..], newLog2, hashOf, at', i, e);
        ghost var next := newTable[..][e := Entry(hn, oldTable[i].mem)];
        newTable[e] := Entry(hn, oldTable[i].mem);
        assert newTable[..] == next;
        at' := at'[src[i].mem.value.key := e];
      }
    }
    CopyDone(src, at, newTable[..], newLog2, hashOf, at');
  }

  // ---------- rehashTableInPlace ----------

  /** Live entries whose collision bit is clear: those still to be placed. */
  ghost function Pending<K, V>(t: seq<Entry<K, V>>): set<nat> {
    set i: nat | i < |t| && t[i].IsLive() && !t[i].HasCollision()
  }

  /** State of the in-place rehash: a collision bit now means "already placed". */
  ghost predicate Rehashing<K, V>(t: seq<Entry<K, V>>, log2: nat, hashOf: K -> HashNumber, at: map<K, nat>)
  {
    && Sized(t, log2) && Indexed(t, hashOf, at)
    && Removed(t) == {}
    && forall i | 0 <= i < |t| && t[i].HasCollision() :: Placed(t, log2, t[i].GetKeyHash(), i)
  }

  /** Swapping src into tgt and marking it, as the loop body does. */
  function Placing<K, V>(t: seq<Entry<K, V>>, src: nat, tgt: nat): seq<Entry<K, V>>
    requires src < |t| && tgt < |t|
  {
    t[src := t[tgt]][tgt := t[src].WithCollision(true)]
  }

  /** The index after the swap. */
  ghost function Reindexed<K, V>(t: seq<Entry<K, V>>, at: map<K, nat>, src: nat, tgt: nat): map<K, nat>
    requires src < |t| && tgt < |t| && t[src].mem.Some?
    requires t[tgt].IsLive() ==> t[tgt].mem.Some?
  {
    var k := t[src].mem.value.key;
    if t[tgt].IsLive() then at[t[tgt].mem.value.key := src][k := tgt] else at[k := tgt]
  }

  lemma PlacingIndexed<K, V>(t: seq<Entry<K, V>>, hashOf: K -> HashNumber, at: map<K, nat>, src: nat, tgt: nat)
    requires Indexed(t, hashOf, at)
    requires src in Pending(t) && tgt < |t| && !t[tgt].HasCollision()
    ensures t[src].mem.Some? && (t[tgt].IsLive() ==> t[tgt].mem.Some?)
    ensures Indexed(Placing(t, src, tgt), hashOf, Reindexed(t, at, src, tgt))
  {
    assert SlotIndexed(t[src], src, hashOf, at);
    assert t[tgt].IsLive() ==> SlotIndexed(t[tgt], tgt, hashOf, at);
    var u, at' := Placing(t, src, tgt), Reindexed(t, at, src, tgt);
    forall i | 0 <= i < |u| && u[i].IsLive()
      ensures SlotIndexed(u[i], i, hashOf, at')
    {
      assert i != src && i != tgt ==> SlotIndexed(t[i], i, hashOf, at);
    }
  }

  lemma PlacingKeepsMap<K, V>(t: seq<Entry<K, V>>, hashOf: K -> HashNumber, at: map<K, nat>, src: nat, tgt: nat)
    requires src < |t| && tgt < |t| && t[src].IsLive() && t[src].mem.Some?
    requires t[tgt].IsLive() ==> t[tgt].mem.Some?
    requires Indexed(t, hashOf, at) && Indexed(Placing(t, src, tgt), hashOf, Reindexed(t, at, src, tgt))
    ensures MapOf(Placing(t, src, tgt), Reindexed(t, at, src, tgt)) == MapOf(t, at)
    ensures |Reindexed(t, at, src, tgt)| == |at|
  {
    assert SlotIndexed(t[src], src, hashOf, at);
    assert t[tgt].IsLive() ==> SlotIndexed(t[tgt], tgt, hashOf, at);
    assert Reindexed(t, at, src, tgt).Keys == at.Keys;
  }

  lemma PlacingKeeps<K, V>(t: seq<Entry<K, V>>, log2: nat, hashOf: K -> HashNumber, at: map<K, nat>, src: nat, tgt: nat)
    requires Rehashing(t, log2, hashOf, at)
    requires src in Pending(t) && tgt < |t| && !t[tgt].HasCollision()
    requires Placed(t, log2, t[src].GetKeyHash(), tgt)
    ensures t[src].mem.Some? && (t[tgt].IsLive() ==> t[tgt].mem.Some?)
    ensures Rehashing(Placing(t, src, tgt), log2, hashOf, Reindexed(t, at, src, tgt))
    ensures MapOf(Placing(t, src, tgt), Reindexed(t, at, src, tgt)) == MapOf(t, at)
    ensures |Reindexed(t, at, src, tgt)| == |at|
    ensures Pending(Placing(t, src, tgt)) < Pending(t)
    ensures forall i | 0 <= i < src && i !in Pending(t) :: i !in Pending(Placing(t, src, tgt))
  {
    hide Probe, Placed, Indexed, MapOf, Reindexed;
    PlacingIndexed(t, hashOf, at, src, tgt);
    PlacingKeepsMap(t, hashOf, at, src, tgt);
    var u := Placing(t, src, tgt);
    assert forall i | 0 <= i < |t| :: t[i].HasCollision() ==> u[i] == t[i];
    forall i | 0 <= i < |u| && u[i].HasCollision()
      ensures Placed(u, log2, u[i].GetKeyHash(), i)
    {
      PlacedGrows(t, u, log2, u[i].GetKeyHash(), i);
    }
    assert forall i | 0 <= i < |t| :: !t[i].IsRemoved() by {
      assert forall i | 0 <= i < |t| && t[i].IsRemoved() :: i in Removed(t);
    }
    assert Pending(u) <= Pending(t);
    var gone := if t[tgt].IsLive() then tgt else src;
    assert gone in Pending(t) && gone !in Pending(u);
  }

  lemma UnmarkedIsRehashing<K, V>(t: seq<Entry<K, V>>, u: seq<Entry<K, V>>, log2: nat, hashOf: K -> HashNumber,
                                  at: map<K, nat>)
    requires TableInv(t, log2, hashOf, at)
    requires |u| == |t| && forall i | 0 <= i < |t| :: u[i] == t[i].WithoutCollision()
    ensures Rehashing(u, log2, hashOf, at) && MapOf(u, at) == MapOf(t, at)
  {
    hide Probe, Placed;
    forall i | 0 <= i < |u| && u[i].IsLive()
      ensures SlotIndexed(u[i], i, hashOf, at)
    {
      assert SlotIndexed(t[i], i, hashOf, at);
    }
  }

  lemma RehashedIsTable<K, V>(t: seq<Entry<K, V>>, log2: nat, hashOf: K -> HashNumber, at: map<K, nat>)
    requires Rehashing(t, log2, hashOf, at)
    requires forall i | 0 <= i < |t| :: i !in Pending(t)
    ensures TableInv(t, log2, hashOf, at)
    ensures forall i | 0 <= i < |t| && t[i].IsLive() :: t[i].HasCollision()
  {
    assert forall i | 0 <= i < |t| && t[i].IsLive() && !t[i].HasCollision() :: i in Pending(t);
  }

  /** The first slot on the path of keyHash that holds no placed entry. The search ends
      because src itself is such a slot. */
  method FindUnplaced<K, V>(table: array<Entry<K, V>>, log2: nat, keyHash: HashNumber, ghost src: nat)
      returns (tgt: nat)
    requires log2 <= HASH_BITS && table.Length == Pow2(log2)
    requires src < table.Length && !table[src].HasCollision()
    ensures tgt < table.Length && !table[tgt].HasCollision()
    ensures Placed(table[..], log2, keyHash, tgt)
  {
    hide Probe, Hash1, Hash2, ApplyDoubleHash, Placed;
    var h1 := Hash1(keyHash, log2);
    var h2 := Hash2(keyHash, log2);
    tgt := h1;
    ghost var j := 0;
    ghost var last := ProbeCovers(keyHash, log2, src);
    ProbeStart(keyHash, log2);
    while table[tgt].HasCollision()
      invariant tgt == h1 == Probe(keyHash, log2, j) && tgt < table.Length && j <= last
      invariant PathMarked(table[..], log2, keyHash, j)
      decreases last - j
    {
      ProbeNext(keyHash, log2, j);
      h1 := ApplyDoubleHash(h1, h2, log2);
      tgt := h1;
      j := j + 1;
    }
    EndOfPath(table[..], log2, keyHash, j);
  }

  /** The loop body for a pending entry: walk over the already placed entries on its
      path, then swap it into the first slot that does not hold one. */
  method PlaceEntry<K, V>(table: array<Entry<K, V>>, log2: nat, src: nat,
                          ghost hashOf: K -> HashNumber, ghost at: map<K, nat>)
      returns (ghost at': map<K, nat>)
    requires Rehashing(table[..], log2, hashOf, at)
    requires src in Pending(table[..])
    modifies table
    ensures Rehashing(table[..], log2, hashOf, at')
    ensures MapOf(table[..], at') == old(MapOf(table[..], at)) && |at'| == |at|
    ensures Pending(table[..]) < old(Pending(table[..]))
    ensures forall i | 0 <= i < src && i !in old(Pending(table[..])) :: i !in Pending(table[..])
  {
    hide Placed;
    ghost var t := table[..];
    var tgt := FindUnplaced(table, log2, table[src].GetKeyHash(), src);
    PlacingKeeps(t, log2, hashOf, at, src, tgt);
    at' := Reindexed(t, at, src, tgt);
    table[src], table[tgt] := table[tgt], table[src];
    table[tgt] := table[tgt].WithCollision(true);
    assert table[..] == Placing(t, src, tgt);
  }

  lemma PendingSlot<K, V>(t: seq<Entry<K, V>>, i: nat)
    requires i < |t|
    ensures i in Pending(t) <==> t[i].IsLive() && !t[i].HasCollision()
  {
  }

  /** The first pass: every tombstone becomes free, every live entry pending. */
  method ClearCollisionBits<K, V>(table: array<Entry<K, V>>, log2: nat,
                                  ghost hashOf: K -> HashNumber, ghost at: map<K, nat>)
    requires TableInv(table[..], log2, hashOf, at)
    modifies table
    ensures Rehashing(table[..], log2, hashOf, at)
    ensures MapOf(table[..], at) == old(MapOf(table[..], at))
  {
    hide Probe, Placed;
    ghost var t0 := table[..];
    for i := 0 to table.Length
      invariant forall j | 0 <= j < i :: table[j] == t0[j].WithoutCollision()
      invariant forall j | i <= j < table.Length :: table[j] == t0[j]
    {
      table[i] := table[i].WithoutCollision();
    }
    UnmarkedIsRehashing(t0, table[..], log2, hashOf, at);
  }

  /** Rebuilds the table without a second one: the map is kept, every tombstone goes,
      and each entry ends on a marked path from its own hash. */
  method RehashTableInPlace<K, V>(table: array<Entry<K, V>>, log2: nat,
                                  ghost hashOf: K -> HashNumber, ghost at: map<K, nat>)
      returns (ghost at': map<K, nat>)
    requires TableInv(table[..], log2, hashOf, at)
    modifies table
    ensures TableInv(table[..], log2, hashOf, at')
    ensures MapOf(table[..], at') == old(MapOf(table[..], at)) && |at'| == |at|
    ensures Removed(table[..]) == {}
    ensures forall i | 0 <= i < table.Length && table[i].IsLive() :: table[i].HasCollision()
  {
    hide Probe, Placed, AllPlaced, Removed, Pending;
    ClearCollisionBits(table, log2, hashOf, at);
    at' := at;
    ghost var contents := MapOf(table[..], at);
    var i := 0;
    while i < table.Length
      invariant i <= table.Length
      invariant Rehashing(table[..], log2, hashOf, at') && MapOf(table[..], at') == contents
      invariant |at'| == |at|
      invariant forall j | 0 <= j < i :: j !in Pending(table[..])
      decreases Pending(table[..]), table.Length - i
    {
      PendingSlot(table[..], i);
      if !table[i].IsLive() || table[i].HasCollision() {
        i := i + 1;
        continue;
      }
      at' := PlaceEntry(table, log2, i, hashOf, at');
    }
    RehashedIsTable(table[..], log2, hashOf, at');
  }
}

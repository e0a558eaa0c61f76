/** The global invariant that makes the open-addressed table of
    js/public/HashTable.h a finite map, and the single-slot changes that keep it. */
module HashInvariant {
  import opened Arith
  import opened HashCore

  /** Every slot probed for h before step d is removed or carries the collision bit. */
  ghost predicate PathMarked<K, V>(t: seq<Entry<K, V>>, log2: nat, h: HashNumber, d: nat)
    requires log2 <= HASH_BITS && |t| == Pow2(log2)
  {
    forall j | 0 <= j < d :: t[Probe(h, log2, j)].HasCollision()
  }

  /** Slot i is what the probe for h reaches at step d, over a marked path. */
  ghost predicate OnPath<K, V>(t: seq<Entry<K, V>>, log2: nat, h: HashNumber, d: nat, i: nat)
    requires log2 <= HASH_BITS && |t| == Pow2(log2)
  {
    Probe(h, log2, d) == i && PathMarked(t, log2, h, d)
  }

  ghost predicate Placed<K, V>(t: seq<Entry<K, V>>, log2: nat, h: HashNumber, i: nat)
    requires log2 <= HASH_BITS && |t| == Pow2(log2)
  {
    exists d: nat :: OnPath(t, log2, h, d, i)
  }

  ghost predicate Sized<K, V>(t: seq<Entry<K, V>>, log2: nat) {
    MIN_CAPACITY_LOG2 <= log2 <= MAX_CAPACITY_LOG2 && |t| == Pow2(log2)
  }

  /** A live slot holds a key stored under its own hash, and at names its index. */
  ghost predicate SlotIndexed<K, V>(e: Entry<K, V>, i: nat, hashOf: K -> HashNumber, at: map<K, nat>) {
    && e.mem.Some?
    && e.mem.value.key in at && at[e.mem.value.key] == i
    && e.GetKeyHash() == PrepareHash(hashOf(e.mem.value.key))
  }

  /** The live slots are exactly the slots named by at, one per key. */
  ghost predicate Indexed<K, V>(t: seq<Entry<K, V>>, hashOf: K -> HashNumber, at: map<K, nat>) {
    && (forall i | 0 <= i < |t| && t[i].IsLive() :: SlotIndexed(t[i], i, hashOf, at))
    && (forall k | k in at :: at[k] < |t| && t[at[k]].IsLive()
                              && t[at[k]].mem.Some? && t[at[k]].mem.value.key == k)
  }

  ghost predicate AllPlaced<K, V>(t: seq<Entry<K, V>>, log2: nat)
    requires log2 <= HASH_BITS && |t| == Pow2(log2)
  {
    forall i | 0 <= i < |t| && t[i].IsLive() :: Placed(t, log2, t[i].GetKeyHash(), i)
  }

  ghost predicate TableInv<K, V>(t: seq<Entry<K, V>>, log2: nat, hashOf: K -> HashNumber, at: map<K, nat>) {
    Sized(t, log2) && Indexed(t, hashOf, at) && AllPlaced(t, log2)
  }

  /** The finite map a table stands for. */
  ghost function MapOf<K, V>(t: seq<Entry<K, V>>, at: map<K, nat>): map<K, V>
    requires forall k | k in at :: at[k] < |t| && t[at[k]].mem.Some?
  {
    map k | k in at :: t[at[k]].mem.value.value
  }

  ghost function Removed<K, V>(t: seq<Entry<K, V>>): set<nat> {
    set i: nat | i < |t| && t[i].IsRemoved()
  }

  // ---------- marking ----------

  /** u is t with some collision bits of live entries set. */
  ghost predicate Marks<K, V>(t: seq<Entry<K, V>>, u: seq<Entry<K, V>>) {
    |u| == |t| && forall i | 0 <= i < |t| ::
      u[i] == t[i] || (t[i].IsLive() && u[i] == t[i].WithCollision(true))
  }

  lemma PlacedGrows<K, V>(t: seq<Entry<K, V>>, u: seq<Entry<K, V>>, log2: nat, h: HashNumber, i: nat)
    requires log2 <= HASH_BITS && |t| == |u| == Pow2(log2)
    requires forall j | 0 <= j < |t| :: t[j].HasCollision() ==> u[j].HasCollision()
    requires Placed(t, log2, h, i)
    ensures Placed(u, log2, h, i)
  {
    var d: nat :| OnPath(t, log2, h, d, i);
    assert OnPath(u, log2, h, d, i);
  }

  lemma MarksKeepInv<K, V>(t: seq<Entry<K, V>>, u: seq<Entry<K, V>>, log2: nat, hashOf: K -> HashNumber,
                           at: map<K, nat>)
    requires TableInv(t, log2, hashOf, at) && Marks(t, u)
    ensures TableInv(u, log2, hashOf, at)
    ensures MapOf(u, at) == MapOf(t, at)
    ensures Removed(u) == Removed(t)
  {
    forall i | 0 <= i < |u|
      ensures u[i].IsLive() == t[i].IsLive() && u[i].mem == t[i].mem
      ensures u[i].GetKeyHash() == t[i].GetKeyHash()
      ensures u[i].IsRemoved() == t[i].IsRemoved()
      ensures t[i].HasCollision() ==> u[i].HasCollision()
    {
    }
    assert Removed(u) == Removed(t);
    forall i | 0 <= i < |u| && u[i].IsLive()
      ensures Placed(u, log2, u[i].GetKeyHash(), i)
    {
      assert t[i].IsLive() && Placed(t, log2, t[i].GetKeyHash(), i);
      PlacedGrows(t, u, log2, t[i].GetKeyHash(), i);
    }
    forall i | 0 <= i < |u| && u[i].IsLive()
      ensures SlotIndexed(u[i], i, hashOf, at)
    {
      assert SlotIndexed(t[i], i, hashOf, at);
    }
  }

  // ---------- filling and emptying one slot ----------

  /** Storing a new key in a non-live slot at the end of a marked path. */
  lemma SetLiveKeepsInv<K, V>(t: seq<Entry<K, V>>, log2: nat, hashOf: K -> HashNumber, at: map<K, nat>,
                              i: nat, e: Entry<K, V>)
    requires TableInv(t, log2, hashOf, at)
    requires i < |t| && !t[i].IsLive()
    requires e.IsLive() && e.mem.Some? && e.mem.value.key !in at
    requires e.GetKeyHash() == PrepareHash(hashOf(e.mem.value.key))
    requires t[i].IsRemoved() ==> e.HasCollision()
    requires Placed(t, log2, e.GetKeyHash(), i)
    ensures TableInv(t[i := e], log2, hashOf, at[e.mem.value.key := i])
    ensures MapOf(t[i := e], at[e.mem.value.key := i]) == MapOf(t, at)[e.mem.value.key := e.mem.value.value]
    ensures Removed(t[i := e]) == Removed(t) - {i}
  {
    hide Probe, Placed;
    var u, k := t[i := e], e.mem.value.key;
    forall j | 0 <= j < |u| && u[j].IsLive()
      ensures SlotIndexed(u[j], j, hashOf, at[k := i])
      ensures Placed(u, log2, u[j].GetKeyHash(), j)
    {
      if j != i {
        assert SlotIndexed(t[j], j, hashOf, at);
      }
      PlacedGrows(t, u, log2, u[j].GetKeyHash(), j);
    }
  }

  lemma SetLiveCounts<K, V>(t: seq<Entry<K, V>>, at: map<K, nat>, i: nat, e: Entry<K, V>)
    requires i < |t| && !t[i].IsLive() && e.IsLive() && e.mem.Some? && e.mem.value.key !in at
    ensures |at[e.mem.value.key := i]| == |at| + 1
    ensures |Removed(t[i := e])| == if t[i].IsRemoved() then |Removed(t)| - 1 else |Removed(t)|
  {
    assert Removed(t[i := e]) == Removed(t) - {i};
    assert t[i].IsRemoved() <==> i in Removed(t);
  }

  /** Removing a live entry: a tombstone if its collision bit was set, free otherwise. */
  lemma RemoveKeepsInv<K, V>(t: seq<Entry<K, V>>, log2: nat, hashOf: K -> HashNumber, at: map<K, nat>,
                             i: nat, e: Entry<K, V>)
    requires TableInv(t, log2, hashOf, at)
    requires i < |t| && t[i].IsLive() && t[i].mem.Some?
    requires e == if t[i].HasCollision() then RemovedEntry() else FreeEntry()
    ensures t[i].mem.value.key in at
    ensures TableInv(t[i := e], log2, hashOf, at - {t[i].mem.value.key})
    ensures MapOf(t[i := e], at - {t[i].mem.value.key}) == MapOf(t, at) - {t[i].mem.value.key}
    ensures Removed(t[i := e]) == if t[i].HasCollision() then Removed(t) + {i} else Removed(t)
    ensures i !in Removed(t)
  {
    hide Probe, Placed;
    assert SlotIndexed(t[i], i, hashOf, at);
    var u, k := t[i := e], t[i].mem.value.key;
    forall j | 0 <= j < |u| && u[j].IsLive()
      ensures SlotIndexed(u[j], j, hashOf, at - {k})
      ensures Placed(u, log2, u[j].GetKeyHash(), j)
    {
      assert SlotIndexed(t[j], j, hashOf, at);
      PlacedGrows(t, u, log2, u[j].GetKeyHash(), j);
    }
  }

  lemma RemoveCounts<K, V>(t: seq<Entry<K, V>>, at: map<K, nat>, i: nat, e: Entry<K, V>)
    requires i < |t| && t[i].IsLive() && t[i].mem.Some? && t[i].mem.value.key in at
    requires e == if t[i].HasCollision() then RemovedEntry() else FreeEntry()
    ensures |at - {t[i].mem.value.key}| == |at| - 1
    ensures |Removed(t[i := e])| == if t[i].HasCollision() then |Removed(t)| + 1 else |Removed(t)|
  {
    var k := t[i].mem.value.key;
    assert at == (at - {k})[k := at[k]];
    assert i !in Removed(t);
    assert Removed(t[i := e]) == if t[i].HasCollision() then Removed(t) + {i} else Removed(t);
  }

  // ---------- an all-free table ----------

  lemma EmptyTableInv<K, V>(t: seq<Entry<K, V>>, log2: nat, hashOf: K -> HashNumber)
    requires Sized(t, log2) && forall i | 0 <= i < |t| :: t[i].IsFree()
    ensures TableInv(t, log2, hashOf, map[])
    ensures MapOf(t, map[]) == map[]
    ensures Removed(t) == {}
  {
  }

  // ---------- counting ----------

  ghost predicate HasFree<K, V>(t: seq<Entry<K, V>>) {
    exists i :: 0 <= i < |t| && t[i].IsFree()
  }

  ghost predicate HasNonLive<K, V>(t: seq<Entry<K, V>>) {
    exists i :: 0 <= i < |t| && !t[i].IsLive()
  }

  /** The slot numbers below n. */
  ghost function Slots(n: nat): (s: set<nat>)
    ensures |s| == n
    ensures forall i: nat :: i in s <==> i < n
  {
    if n == 0 then {} else Slots(n - 1) + {n - 1}
  }

  lemma {:induction false} SubsetCard<T>(a: set<T>, b: set<T>)
    requires a <= b
    ensures |a| <= |b|
  {
    if a != {} {
      var x :| x in a;
      SubsetCard(a - {x}, b - {x});
    }
  }

  lemma {:induction false} ValuesCard<K>(at: map<K, nat>)
    ensures |at.Values| <= |at|
  {
    if |at| > 0 {
      var k :| k in at;
      var rest := at - {k};
      ValuesCard(rest);
      forall v | v in at.Values ensures v in rest.Values + {at[k]} {
        var x :| x in at && at[x] == v;
        assert x != k ==> x in rest && rest[x] == v;
      }
      SubsetCard(at.Values, rest.Values + {at[k]});
    }
  }

  /** The load bound leaves a free slot; without it there is still a non-live one. */
  lemma LoadLeavesRoom<K, V>(t: seq<Entry<K, V>>, hashOf: K -> HashNumber, at: map<K, nat>)
    requires Indexed(t, hashOf, at)
    ensures |at| + |Removed(t)| < |t| ==> HasFree(t)
    ensures |at| < |t| ==> HasNonLive(t)
  {
    var all := Slots(|t|);
    ValuesCard(at);
    if !HasFree(t) {
      assert all <= at.Values + Removed(t) by {
        forall i | i in all ensures i in at.Values + Removed(t) {
          assert !t[i].IsFree();
          if t[i].IsLive() {
            assert SlotIndexed(t[i], i, hashOf, at);
          }
        }
      }
      SubsetCard(all, at.Values + Removed(t));
    }
    if !HasNonLive(t) {
      assert all <= at.Values by {
        forall i | i in all ensures i in at.Values {
          assert t[i].IsLive();
          assert SlotIndexed(t[i], i, hashOf, at);
        }
      }
      SubsetCard(all, at.Values);
    }
  }
}

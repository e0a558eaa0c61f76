/** The proof of the search loop of js/public/HashTable.h: what a probe sequence has
    learnt and marked after j steps. */
module HashSearch {
  import opened Arith
  import opened HashCore
  import opened HashInvariant
  import opened Wrappers

  predicate Match<K(==), V>(e: Entry<K, V>, l: K) {
    e.mem.Some? && e.mem.value.key == l
  }

  /** The table t was t0 when the search for l began. The first j probed slots are
      occupied by something other than l; with the collision bit requested they are
      now marked, and the first tombstone among them is remembered. */
  ghost predicate Searched<K, V>(t0: seq<Entry<K, V>>, t: seq<Entry<K, V>>, log2: nat, at: map<K, nat>,
                                 l: K, h: HashNumber, bit: bool, firstRemoved: Option<nat>, j: nat)
  {
    && log2 <= HASH_BITS && |t0| == Pow2(log2)
    && Marks(t0, t)
    && (!bit ==> t == t0)
    && (l in at ==> forall i | 0 <= i < j :: Probe(h, log2, i) != at[l])
    && (bit ==> PathMarked(t, log2, h, j))
    && (firstRemoved.Some? ==> firstRemoved.value < |t| && t[firstRemoved.value].IsRemoved())
    && (firstRemoved.Some? && bit ==> Placed(t, log2, h, firstRemoved.value))
  }

  lemma StepsToFree<K, V>(t: seq<Entry<K, V>>, log2: nat, h: HashNumber) returns (last: nat)
    requires log2 <= HASH_BITS && |t| == Pow2(log2) && HasFree(t)
    ensures t[Probe(h, log2, last)].IsFree()
  {
    var free: nat :| free < |t| && t[free].IsFree();
    last := ProbeCovers(h, log2, free);
  }

  lemma StepsToNonLive<K, V>(t: seq<Entry<K, V>>, log2: nat, h: HashNumber) returns (last: nat)
    requires log2 <= HASH_BITS && |t| == Pow2(log2) && HasNonLive(t)
    ensures !t[Probe(h, log2, last)].IsLive()
  {
    var slot: nat :| slot < |t| && !t[slot].IsLive();
    last := ProbeCovers(h, log2, slot);
  }

  lemma SearchStart<K, V>(t: seq<Entry<K, V>>, log2: nat, at: map<K, nat>, l: K, h: HashNumber, bit: bool)
    requires log2 <= HASH_BITS && |t| == Pow2(log2)
    ensures Searched(t, t, log2, at, l, h, bit, None, 0)
    ensures Probe(h, log2, 0) == Hash1(h, log2)
  {
  }

  lemma SearchFrame<K, V>(t0: seq<Entry<K, V>>, t: seq<Entry<K, V>>, log2: nat, at: map<K, nat>,
                          l: K, h: HashNumber, bit: bool, firstRemoved: Option<nat>, j: nat)
    requires Searched(t0, t, log2, at, l, h, bit, firstRemoved, j)
    ensures Marks(t0, t) && (!bit ==> t == t0)
    ensures firstRemoved.Some? ==> firstRemoved.value < |t|
  {
  }

  /** The table after the loop body has dealt with an occupied slot e. */
  function MarkSlot<K, V>(t: seq<Entry<K, V>>, e: nat, bit: bool): seq<Entry<K, V>>
    requires e < |t|
  {
    if t[e].IsRemoved() then t else t[e := t[e].WithCollision(bit)]
  }

  lemma MarkSlotMarks<K, V>(t0: seq<Entry<K, V>>, t: seq<Entry<K, V>>, e: nat, bit: bool)
    requires Marks(t0, t) && e < |t| && !t0[e].IsFree()
    requires !bit ==> t == t0
    ensures Marks(t0, MarkSlot(t, e, bit)) && (!bit ==> MarkSlot(t, e, bit) == t0)
    ensures bit ==> MarkSlot(t, e, bit)[e].HasCollision()
    ensures forall i | 0 <= i < |t| :: t[i].HasCollision() ==> MarkSlot(t, e, bit)[i].HasCollision()
    ensures forall i | 0 <= i < |t| :: t[i].IsRemoved() ==> MarkSlot(t, e, bit)[i].IsRemoved()
  {
  }

  lemma SearchStep<K, V>(t0: seq<Entry<K, V>>, t: seq<Entry<K, V>>, log2: nat, hashOf: K -> HashNumber,
                         at: map<K, nat>, l: K, h: HashNumber, bit: bool, firstRemoved: Option<nat>, j: nat)
    requires TableInv(t0, log2, hashOf, at) && h == PrepareHash(hashOf(l))
    requires Searched(t0, t, log2, at, l, h, bit, firstRemoved, j)
    requires var e := Probe(h, log2, j); !t[e].IsFree() && !(t[e].MatchHash(h) && Match(t[e], l))
    ensures forall i | 0 <= i < |t| :: MarkSlot(t, Probe(h, log2, j), bit)[i].IsFree() == t[i].IsFree()
    ensures var e := Probe(h, log2, j);
            var f := if t[e].IsRemoved() && firstRemoved == None then Some(e) else firstRemoved;
            Searched(t0, MarkSlot(t, e, bit), log2, at, l, h, bit, f, j + 1)
  {
    hide Probe;
    var e := Probe(h, log2, j);
    var u := MarkSlot(t, e, bit);
    assert t0[e].MatchHash(h) == t[e].MatchHash(h) && t0[e].mem == t[e].mem;
    MarkSlotMarks(t0, t, e, bit);
    if t0[e].IsLive() {
      assert SlotIndexed(t0[e], e, hashOf, at);
    }
    assert bit ==> PathMarked(u, log2, h, j + 1);
    assert OnPath(t, log2, h, j, e) || !bit;
    if firstRemoved.Some? && bit {
      PlacedGrows(t, u, log2, h, firstRemoved.value);
    } else if bit {
      PlacedGrows(t, u, log2, h, e);
    }
  }

  lemma EndOfPath<K, V>(t: seq<Entry<K, V>>, log2: nat, h: HashNumber, j: nat)
    requires log2 <= HASH_BITS && |t| == Pow2(log2) && PathMarked(t, log2, h, j)
    ensures Placed(t, log2, h, Probe(h, log2, j))
  {
    assert OnPath(t, log2, h, j, Probe(h, log2, j));
  }

  /** A mapped key is met no later than the first unmarked slot of its path. */
  lemma MappedIsProbed<K, V>(t: seq<Entry<K, V>>, log2: nat, hashOf: K -> HashNumber, at: map<K, nat>,
                             l: K, h: HashNumber, j: nat)
    requires TableInv(t, log2, hashOf, at) && h == PrepareHash(hashOf(l)) && l in at
    requires !t[Probe(h, log2, j)].HasCollision()
    ensures exists i | 0 <= i <= j :: Probe(h, log2, i) == at[l]
  {
    hide Probe;
    assert SlotIndexed(t[at[l]], at[l], hashOf, at);
    assert Placed(t, log2, h, at[l]);
    var d: nat :| OnPath(t, log2, h, d, at[l]);
  }

  /** A probe that met neither l nor a free slot before step j, and meets a free
      slot at j, shows that l is absent and ends on a slot that can take it. */
  lemma SearchMisses<K, V>(t0: seq<Entry<K, V>>, t: seq<Entry<K, V>>, log2: nat, hashOf: K -> HashNumber,
                           at: map<K, nat>, l: K, h: HashNumber, bit: bool, firstRemoved: Option<nat>, j: nat)
    requires TableInv(t0, log2, hashOf, at) && h == PrepareHash(hashOf(l))
    requires Searched(t0, t, log2, at, l, h, bit, firstRemoved, j)
    requires t[Probe(h, log2, j)].IsFree()
    ensures l !in at
    ensures var e := if firstRemoved.Some? then firstRemoved.value else Probe(h, log2, j);
            e < |t| && !t[e].IsLive() && (bit ==> Placed(t, log2, h, e))
  {
    hide Probe, Placed, PathMarked, SlotIndexed;
    var e := Probe(h, log2, j);
    assert t0[e] == t[e] && !t0[e].IsLive();
    if bit {
      EndOfPath(t, log2, h, j);
    }
    if l in at {
      MappedIsProbed(t0, log2, hashOf, at, l, h, j);
    }
  }

  lemma SearchHits<K, V>(t0: seq<Entry<K, V>>, t: seq<Entry<K, V>>, log2: nat, hashOf: K -> HashNumber,
                         at: map<K, nat>, l: K, h: HashNumber, e: nat)
    requires TableInv(t0, log2, hashOf, at) && h == PrepareHash(hashOf(l)) && Marks(t0, t)
    requires e < |t| && t[e].MatchHash(h) && Match(t[e], l)
    ensures l in at && at[l] == e
  {
    assert t0[e].IsLive();
    assert SlotIndexed(t0[e], e, hashOf, at);
  }

  /** The private lookup on a table of 2^log2 entries. It returns the slot of l when l
      is present, and otherwise a slot that can take it; with the collision bit
      requested, the path to that slot has been marked. */
  method Lookup<K(==), V>(table: array<Entry<K, V>>, log2: nat, l: K, keyHash: HashNumber, collisionBit: bool,
                          ghost hashOf: K -> HashNumber, ghost at: map<K, nat>)
      returns (e: nat)
    requires TableInv(table[..], log2, hashOf, at)
    requires keyHash == PrepareHash(hashOf(l))
    requires HasFree(table[..])
    modifies table
    ensures Marks(old(table[..]), table[..])
    ensures !collisionBit ==> table[..] == old(table[..])
    ensures e < table.Length
    ensures l in at ==> e == at[l]
    ensures l !in at ==> !table[e].IsLive()
    ensures l !in at && collisionBit ==> Placed(table[..], log2, keyHash, e)
  {
    hide Probe, Hash1, Hash2, ApplyDoubleHash, Placed, PathMarked, Searched, Indexed, AllPlaced, Marks;
    ghost var t0 := table[..];
    ghost var last := StepsToFree(t0, log2, keyHash);
    ghost var j := 0;
    SearchStart(t0, log2, at, l, keyHash, collisionBit);
    SearchFrame(t0, t0, log2, at, l, keyHash, collisionBit, None, j);

    var h1 := Hash1(keyHash, log2);
    e := h1;
    if table[e].IsFree() {
      SearchMisses(t0, t0, log2, hashOf, at, l, keyHash, collisionBit, None, j);
      return;
    }
    if table[e].MatchHash(keyHash) && Match(table[e], l) {
      SearchHits(t0, t0, log2, hashOf, at, l, keyHash, e);
      return;
    }
    var h2 := Hash2(keyHash, log2);
    var firstRemoved: Option<nat> := None;
    while true
      invariant e == h1 == Probe(keyHash, log2, j) && e < table.Length && j < last
      invariant Searched(t0, table[..], log2, at, l, keyHash, collisionBit, firstRemoved, j)
      invariant !table[e].IsFree() && !(table[e].MatchHash(keyHash) && Match(table[e], l))
      invariant table[Probe(keyHash, log2, last)].IsFree()
      decreases last - j
    {
      SearchStep(t0, table[..], log2, hashOf, at, l, keyHash, collisionBit, firstRemoved, j);
      ghost var next := MarkSlot(table[..], e, collisionBit);
      if table[e].IsRemoved() {
        if firstRemoved == None {
          firstRemoved := Some(e);
        }
      } else {
        table[e] := table[e].WithCollision(collisionBit);
      }
      assert table[..] == next;
      ProbeNext(keyHash, log2, j);
      h1 := ApplyDoubleHash(h1, h2, log2);
      j := j + 1;
      e := h1;
      SearchFrame(t0, table[..], log2, at, l, keyHash, collisionBit, firstRemoved, j);
      if table[e].IsFree() {
        SearchMisses(t0, table[..], log2, hashOf, at, l, keyHash, collisionBit, firstRemoved, j);
        e := if firstRemoved.Some? then firstRemoved.value else e;
        return;
      }
      if table[e].MatchHash(keyHash) && Match(table[e], l) {
        SearchHits(t0, table[..], log2, hashOf, at, l, keyHash, e);
        return;
      }
    }
  }
}

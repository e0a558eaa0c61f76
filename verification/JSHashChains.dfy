/** The chains of js/jsd/jshash.cpp: linked entries hanging off a bucket vector, and
    the pointer surgery that lookup, add, remove and resize perform on them. */
module JSHashChains {
  import opened Arith
  import opened HashCore

  const MIN_BUCKETS_LOG2: nat := 4
  /** With 32-bit sizes and pointers, Resize refuses vectors of 2^30 buckets. */
  const MAX_BUCKETS_LOG2: nat := 29

  class JSHashEntry<K, V> {
    var next: JSHashEntry?<K, V>
    const keyHash: HashNumber
    const key: K
    var value: V

    constructor (keyHash: HashNumber, key: K, value: V)
      ensures this.keyHash == keyHash && this.key == key && this.value == value && next == null
    {
      this.keyHash, this.key, this.value, next := keyHash, key, value, null;
    }
  }

  type Chain<!K, !V> = seq<JSHashEntry<K, V>>

  /** BUCKET_HEAD: the multiplicative hash's bucket among 2^log2. */
  function BucketOf(keyHash: HashNumber, log2: nat): (b: nat)
    requires log2 <= HASH_BITS
    ensures b < Pow2(log2)
  {
    Hash1(ScrambleHashCode(keyHash), log2)
  }

  /** The entries from head on are chain, ending with null. */
  ghost predicate Linked<K, V>(head: JSHashEntry?<K, V>, chain: Chain<K, V>)
    reads chain
  {
    && head == (if chain == [] then null else chain[0])
    && forall i | 0 <= i < |chain| :: LinkedAt(chain, i)
  }

  ghost predicate LinkedAt<K, V>(chain: Chain<K, V>, i: nat)
    requires i < |chain|
    reads chain
  {
    chain[i].next == if i + 1 < |chain| then chain[i + 1] else null
  }

  ghost predicate DistinctEntries<K, V>(chain: Chain<K, V>) {
    forall i, j | 0 <= i < j < |chain| :: chain[i] != chain[j]
  }

  /** Chain b holds entries of keys in owned, each in the bucket of its hash. */
  ghost predicate ChainHolds<K, V>(chain: Chain<K, V>, b: nat, log2: nat, hashOf: K -> HashNumber,
                                   entries: map<K, JSHashEntry<K, V>>, owned: set<K>)
    requires log2 <= HASH_BITS
  {
    && DistinctEntries(chain)
    && forall e | e in chain ::
         e.key in owned && e.key in entries && entries[e.key] == e
         && e.keyHash == hashOf(e.key) && BucketOf(e.keyHash, log2) == b
  }

  /** The chains hold exactly the entries of the keys in owned, one per key. */
  ghost predicate Placement<K, V>(chains: seq<Chain<K, V>>, log2: nat, hashOf: K -> HashNumber,
                                  entries: map<K, JSHashEntry<K, V>>, owned: set<K>)
  {
    && log2 <= MAX_BUCKETS_LOG2 && |chains| == Pow2(log2) && owned <= entries.Keys
    && (forall b | 0 <= b < |chains| :: ChainHolds(chains[b], b, log2, hashOf, entries, owned))
    && (forall k | k in owned :: entries[k].key == k && entries[k] in chains[BucketOf(hashOf(k), log2)])
  }

  ghost predicate AllLinked<K, V>(heads: seq<JSHashEntry?<K, V>>, chains: seq<Chain<K, V>>,
                                  nodes: set<JSHashEntry<K, V>>)
    reads nodes
  {
    |heads| == |chains| && forall b | 0 <= b < |chains| ::
      (forall i | 0 <= i < |chains[b]| :: chains[b][i] in nodes) && Linked(heads[b], chains[b])
  }

  ghost function Values<K, V>(entries: map<K, JSHashEntry<K, V>>, nodes: set<JSHashEntry<K, V>>): map<K, V>
    requires forall k | k in entries :: entries[k] in nodes
    reads nodes
  {
    map k | k in entries :: entries[k].value
  }

  /** A hep: the bucket vector's element b, or the next field of an entry. */
  datatype Link<!K, !V> = Head(b: nat) | NextOf(e: JSHashEntry<K, V>)

  /** The chain with its i-th entry moved to the front. */
  ghost function Fronted<K, V>(chain: Chain<K, V>, i: nat): Chain<K, V>
    requires i < |chain|
  {
    [chain[i]] + chain[..i] + chain[i + 1..]
  }

  lemma FrontedKeeps<K, V>(chains: seq<Chain<K, V>>, log2: nat, hashOf: K -> HashNumber,
                           entries: map<K, JSHashEntry<K, V>>, owned: set<K>, b: nat, i: nat)
    requires Placement(chains, log2, hashOf, entries, owned) && b < |chains| && i < |chains[b]|
    ensures Placement(chains[b := Fronted(chains[b], i)], log2, hashOf, entries, owned)
  {
    var chain, moved := chains[b], Fronted(chains[b], i);
    assert forall e :: e in moved <==> e in chain by {
      assert chain == chain[..i] + [chain[i]] + chain[i + 1..];
    }
    assert ChainHolds(moved, b, log2, hashOf, entries, owned);
  }

  // ---------- chains of one bucket ----------

  /** Walks a chain for a key: the entry, its index and the one before it, or null. */
  method Search<K(==), V>(head: JSHashEntry?<K, V>, keyHash: HashNumber, key: K, ghost chain: Chain<K, V>)
      returns (he: JSHashEntry?<K, V>, prev: JSHashEntry?<K, V>, ghost i: nat)
    requires Linked(head, chain)
    ensures i <= |chain| && he == if i < |chain| then chain[i] else null
    ensures prev == if i > 0 then chain[i - 1] else null
    ensures he != null ==> he.keyHash == keyHash && he.key == key
    ensures forall j | 0 <= j < i :: !(chain[j].keyHash == keyHash && chain[j].key == key)
  {
    he, prev, i := head, null, 0;
    while he != null
      invariant i <= |chain| && he == if i < |chain| then chain[i] else null
      invariant prev == if i > 0 then chain[i - 1] else null
      invariant forall j | 0 <= j < i :: !(chain[j].keyHash == keyHash && chain[j].key == key)
      decreases |chain| - i
    {
      if he.keyHash == keyHash && he.key == key {
        return;
      }
      assert LinkedAt(chain, i);
      prev := he;
      he := he.next;
      i := i + 1;
    }
  }

  /** *hep = he->next; he->next = *hep0; *hep0 = he, for an entry that is not first. */
  method MoveToFront<K, V>(buckets: array<JSHashEntry?<K, V>>, b: nat, he: JSHashEntry<K, V>, prev: JSHashEntry<K, V>,
                           ghost chain: Chain<K, V>, ghost i: nat)
    requires b < buckets.Length && Linked(buckets[b], chain) && DistinctEntries(chain)
    requires 0 < i < |chain| && he == chain[i] && prev == chain[i - 1]
    modifies buckets, he`next, prev`next
    ensures Linked(buckets[b], Fronted(chain, i))
    ensures forall c | 0 <= c < buckets.Length && c != b :: buckets[c] == old(buckets[c])
  {
    assert LinkedAt(chain, i);
    assert forall j | 0 <= j < |chain| && j != i && j != i - 1 :: chain[j] != he && chain[j] != prev;
    prev.next := he.next;
    he.next := buckets[b];
    buckets[b] := he;
    ghost var u := Fronted(chain, i);
    forall j | 0 <= j < |u| ensures LinkedAt(u, j) {
      if j == 0 {
        assert u[1] == chain[0];
      } else if j < i {
        assert u[j] == chain[j - 1] && u[j + 1] == chain[j];
        assert old(LinkedAt(chain, j - 1));
      } else if j == i {
        assert u[j] == prev;
        assert i + 1 < |chain| ==> u[j + 1] == chain[i + 1];
      } else {
        assert u[j] == chain[j];
        assert old(LinkedAt(chain, j));
        assert j + 1 < |chain| ==> u[j + 1] == chain[j + 1];
      }
    }
  }

  /** Entries of different buckets' chains are different. */
  lemma ChainsApart<K, V>(chains: seq<Chain<K, V>>, log2: nat, hashOf: K -> HashNumber,
                          entries: map<K, JSHashEntry<K, V>>, owned: set<K>, b: nat, c: nat, e: JSHashEntry<K, V>)
    requires Placement(chains, log2, hashOf, entries, owned)
    requires b < |chains| && c < |chains| && b != c && e in chains[b]
    ensures e !in chains[c]
  {
    assert ChainHolds(chains[b], b, log2, hashOf, entries, owned);
    assert ChainHolds(chains[c], c, log2, hashOf, entries, owned);
  }

  /** The same on a whole bucket vector: the other chains are untouched. */
  method Front<K, V>(buckets: array<JSHashEntry?<K, V>>, b: nat, he: JSHashEntry<K, V>, prev: JSHashEntry<K, V>,
                     ghost i: nat, ghost chains: seq<Chain<K, V>>, ghost log2: nat, ghost hashOf: K -> HashNumber,
                     ghost entries: map<K, JSHashEntry<K, V>>, ghost owned: set<K>, ghost nodes: set<JSHashEntry<K, V>>)
    requires Placement(chains, log2, hashOf, entries, owned) && AllLinked(buckets[..], chains, nodes)
    requires b < |chains| && 0 < i < |chains[b]| && he == chains[b][i] && prev == chains[b][i - 1]
    modifies buckets, he`next, prev`next
    ensures AllLinked(buckets[..], chains[b := Fronted(chains[b], i)], nodes)
  {
    hide BucketOf, Placement;
    forall c | 0 <= c < |chains| && c != b ensures he !in chains[c] && prev !in chains[c] {
      ChainsApart(chains, log2, hashOf, entries, owned, b, c, he);
      ChainsApart(chains, log2, hashOf, entries, owned, b, c, prev);
    }
    PlacementDistinct(chains, log2, hashOf, entries, owned, b);
    assert Linked(buckets[b], chains[b]);
    MoveToFront(buckets, b, he, prev, chains[b], i);
    ghost var u := chains[b := Fronted(chains[b], i)];
    forall c | 0 <= c < |u|
      ensures (forall j | 0 <= j < |u[c]| :: u[c][j] in nodes) && Linked(buckets[c], u[c])
    {
      if c == b {
        FrontedMembers(chains[b], i);
      }
    }
  }

  lemma FrontedMembers<K, V>(chain: Chain<K, V>, i: nat)
    requires i < |chain|
    ensures forall j | 0 <= j < |chain| :: Fronted(chain, i)[j] in chain
  {
  }

  lemma PlacementSize<K, V>(chains: seq<Chain<K, V>>, log2: nat, hashOf: K -> HashNumber,
                            entries: map<K, JSHashEntry<K, V>>, owned: set<K>)
    requires Placement(chains, log2, hashOf, entries, owned)
    ensures |chains| == Pow2(log2)
  {
  }

  lemma PlacementDistinct<K, V>(chains: seq<Chain<K, V>>, log2: nat, hashOf: K -> HashNumber,
                                entries: map<K, JSHashEntry<K, V>>, owned: set<K>, b: nat)
    requires Placement(chains, log2, hashOf, entries, owned) && b < |chains|
    ensures DistinctEntries(chains[b])
  {
    assert ChainHolds(chains[b], b, log2, hashOf, entries, owned);
  }

  /** A key with an entry is on the chain of its bucket, under its own hash. */
  lemma EntryOnChain<K, V>(chains: seq<Chain<K, V>>, log2: nat, hashOf: K -> HashNumber,
                           entries: map<K, JSHashEntry<K, V>>, owned: set<K>, k: K) returns (i: nat)
    requires Placement(chains, log2, hashOf, entries, owned) && k in owned
    ensures var b := BucketOf(hashOf(k), log2);
            i < |chains[b]| && chains[b][i] == entries[k] && entries[k].key == k && entries[k].keyHash == hashOf(k)
  {
    var b := BucketOf(hashOf(k), log2);
    assert ChainHolds(chains[b], b, log2, hashOf, entries, owned);
    i :| i < |chains[b]| && chains[b][i] == entries[k];
  }

  /** An entry on a chain is the one its key maps to. */
  lemma ChainEntry<K, V>(chains: seq<Chain<K, V>>, log2: nat, hashOf: K -> HashNumber,
                         entries: map<K, JSHashEntry<K, V>>, owned: set<K>, b: nat, i: nat)
    requires Placement(chains, log2, hashOf, entries, owned) && b < |chains| && i < |chains[b]|
    ensures var e := chains[b][i];
            e.key in owned && e.key in entries && entries[e.key] == e && e.keyHash == hashOf(e.key)
  {
    assert ChainHolds(chains[b], b, log2, hashOf, entries, owned);
    assert chains[b][i] in chains[b];
  }

  // ---------- moving entries between bucket vectors ----------

  /** The loop of Resize that hangs he at the end of a chain. */
  method AppendEntry<K, V>(buckets: array<JSHashEntry?<K, V>>, b: nat, he: JSHashEntry<K, V>, ghost chain: Chain<K, V>)
    requires b < buckets.Length && Linked(buckets[b], chain) && DistinctEntries(chain) && he !in chain
    modifies buckets, he`next, (set e | e in chain)`next
    ensures Linked(buckets[b], chain + [he])
    ensures forall c | 0 <= c < buckets.Length && c != b :: buckets[c] == old(buckets[c])
  {
    ghost var u := chain + [he];
    var cur := buckets[b];
    if cur == null {
      he.next := null;
      buckets[b] := he;
      assert LinkedAt(u, 0);
      return;
    }
    ghost var i := 0;
    assert LinkedAt(chain, 0);
    while cur.next != null
      invariant i < |chain| && cur == chain[i] && LinkedAt(chain, i)
      decreases |chain| - i
    {
      cur := cur.next;
      i := i + 1;
      assert LinkedAt(chain, i);
    }
    he.next := null;
    cur.next := he;
    forall j | 0 <= j < |u| ensures LinkedAt(u, j) {
      if j < i {
        assert old(LinkedAt(chain, j)) && chain[j] != cur;
      }
    }
  }

  lemma InsertPlacement<K, V>(chains: seq<Chain<K, V>>, log2: nat, hashOf: K -> HashNumber,
                              entries: map<K, JSHashEntry<K, V>>, owned: set<K>, e: JSHashEntry<K, V>, i: nat)
    requires Placement(chains, log2, hashOf, entries, owned)
    requires e.key !in owned && e.key in entries && entries[e.key] == e && e.keyHash == hashOf(e.key)
    requires i <= |chains[BucketOf(e.keyHash, log2)]|
    ensures var b := BucketOf(e.keyHash, log2);
            Placement(chains[b := Inserted(chains[b], i, e)], log2, hashOf, entries, owned + {e.key})
            && e !in chains[b] && DistinctEntries(chains[b])
  {
    hide BucketOf;
    var b := BucketOf(e.keyHash, log2);
    var u := chains[b := Inserted(chains[b], i, e)];
    assert ChainHolds(chains[b], b, log2, hashOf, entries, owned);
    InsertedMembers(chains[b], i, e);
    forall c | 0 <= c < |u| ensures ChainHolds(u[c], c, log2, hashOf, entries, owned + {e.key}) {
      assert ChainHolds(chains[c], c, log2, hashOf, entries, owned);
    }
  }

  lemma InsertedMembers<K, V>(chain: Chain<K, V>, i: nat, e: JSHashEntry<K, V>)
    requires i <= |chain|
    ensures forall x :: x in Inserted(chain, i, e) <==> x == e || x in chain
    ensures DistinctEntries(chain) && e !in chain ==> DistinctEntries(Inserted(chain, i, e))
  {
    var u := Inserted(chain, i, e);
    forall x | x in chain ensures x in u {
      var k :| 0 <= k < |chain| && chain[k] == x;
      assert u[if k < i then k else k + 1] == x;
    }
    assert u[i] == e;
  }

  lemma AppendPlacement<K, V>(chains: seq<Chain<K, V>>, log2: nat, hashOf: K -> HashNumber,
                              entries: map<K, JSHashEntry<K, V>>, owned: set<K>, e: JSHashEntry<K, V>)
    requires Placement(chains, log2, hashOf, entries, owned)
    requires e.key !in owned && e.key in entries && entries[e.key] == e && e.keyHash == hashOf(e.key)
    ensures var b := BucketOf(e.keyHash, log2);
            Placement(chains[b := chains[b] + [e]], log2, hashOf, entries, owned + {e.key})
            && e !in chains[b] && DistinctEntries(chains[b])
  {
    hide BucketOf, ChainHolds;
    var chain := chains[BucketOf(e.keyHash, log2)];
    InsertPlacement(chains, log2, hashOf, entries, owned, e, |chain|);
    assert Inserted(chain, |chain|, e) == chain + [e];
  }

  lemma PopPlacement<K, V>(chains: seq<Chain<K, V>>, log2: nat, hashOf: K -> HashNumber,
                           entries: map<K, JSHashEntry<K, V>>, owned: set<K>, b: nat)
    requires Placement(chains, log2, hashOf, entries, owned) && b < |chains| && chains[b] != []
    ensures var e := chains[b][0];
            e.key in owned && e.key in entries && entries[e.key] == e && e.keyHash == hashOf(e.key)
            && Placement(chains[b := chains[b][1..]], log2, hashOf, entries, owned - {e.key})
  {
    hide BucketOf;
    var e := chains[b][0];
    ChainEntry(chains, log2, hashOf, entries, owned, b, 0);
    var u := chains[b := chains[b][1..]];
    forall c | 0 <= c < |u| ensures ChainHolds(u[c], c, log2, hashOf, entries, owned - {e.key}) {
      assert ChainHolds(chains[c], c, log2, hashOf, entries, owned);
      assert e in chains[b];
      if c == b {
        assert forall x | x in u[c] :: x in chains[b];
      }
    }
    forall k | k in owned - {e.key} ensures entries[k] in u[BucketOf(hashOf(k), log2)] {
      var i := EntryOnChain(chains, log2, hashOf, entries, owned, k);
      assert chains[b] == [e] + chains[b][1..];
    }
  }

  lemma NothingLeft<K, V>(chains: seq<Chain<K, V>>, log2: nat, hashOf: K -> HashNumber,
                          entries: map<K, JSHashEntry<K, V>>, owned: set<K>)
    requires Placement(chains, log2, hashOf, entries, owned) && forall b | 0 <= b < |chains| :: chains[b] == []
    ensures owned == {}
  {
    hide BucketOf;
  }

  /** How far Resize has come: what the new chains hold and what is still to move. */
  datatype Transfer<!K, !V> = Transfer(
    chains: seq<Chain<K, V>>, moved: set<K>,
    heads: seq<JSHashEntry?<K, V>>, pending: seq<Chain<K, V>>, left: set<K>)

  ghost predicate Moving<K, V>(t: seq<JSHashEntry?<K, V>>, s: Transfer<K, V>, log2: nat, oldLog2: nat,
                               hashOf: K -> HashNumber, entries: map<K, JSHashEntry<K, V>>,
                               nodes: set<JSHashEntry<K, V>>)
    reads nodes
  {
    && Placement(s.chains, log2, hashOf, entries, s.moved) && AllLinked(t, s.chains, nodes)
    && Placement(s.pending, oldLog2, hashOf, entries, s.left) && AllLinked(s.heads, s.pending, nodes)
    && s.moved + s.left == entries.Keys && s.moved !! s.left
  }

  /** Takes the head he of pending chain b off and appends it to the new vector. */
  method MoveEntry<K, V>(buckets: array<JSHashEntry?<K, V>>, he: JSHashEntry<K, V>, log2: nat, ghost s: Transfer<K, V>,
                         ghost oldLog2: nat, ghost b: nat, ghost hashOf: K -> HashNumber,
                         ghost entries: map<K, JSHashEntry<K, V>>, ghost nodes: set<JSHashEntry<K, V>>)
      returns (next: JSHashEntry?<K, V>, ghost s': Transfer<K, V>)
    requires log2 <= HASH_BITS && Moving(buckets[..], s, log2, oldLog2, hashOf, entries, nodes)
    requires b < |s.pending| && s.pending[b] != [] && s.pending[b][0] == he
    modifies buckets, nodes`next
    ensures Moving(buckets[..], s', log2, oldLog2, hashOf, entries, nodes)
    ensures s'.pending == s.pending[b := s.pending[b][1..]] && s'.heads == s.heads[b := next]
    ensures |s'.left| == |s.left| - 1
  {
    hide BucketOf, Placement;
    PopPlacement(s.pending, oldLog2, hashOf, entries, s.left, b);
    AppendPlacement(s.chains, log2, hashOf, entries, s.moved, he);
    PlacementSize(s.chains, log2, hashOf, entries, s.moved);
    assert Linked(s.heads[b], s.pending[b]) && LinkedAt(s.pending[b], 0);
    next := he.next;
    ghost var heads', pending' := s.heads[b := next], s.pending[b := s.pending[b][1..]];
    assert AllLinked(heads', pending', nodes) by {
      TailLinked(he, s.pending[b]);
    }
    var c := BucketOf(he.keyHash, log2);
    s' := Transfer(s.chains[c := s.chains[c] + [he]], s.moved + {he.key}, heads', pending', s.left - {he.key});
    KeysApart(s.chains, log2, pending', oldLog2, hashOf, entries, s.moved, s'.left, he, c);
    AppendInto(buckets, c, he, s.chains, heads', pending', nodes);
  }

  /** Appending he to chain c of a whole bucket vector touches no other chain. */
  method AppendInto<K, V>(buckets: array<JSHashEntry?<K, V>>, c: nat, he: JSHashEntry<K, V>,
                          ghost chains: seq<Chain<K, V>>, ghost heads: seq<JSHashEntry?<K, V>>,
                          ghost pending: seq<Chain<K, V>>, ghost nodes: set<JSHashEntry<K, V>>)
    requires AllLinked(buckets[..], chains, nodes) && AllLinked(heads, pending, nodes)
    requires c < |chains| && he in nodes && he !in chains[c] && DistinctEntries(chains[c])
    requires forall b, e | 0 <= b < |chains| && b != c && e in chains[b] :: e != he && e !in chains[c]
    requires forall b, e | 0 <= b < |pending| && e in pending[b] :: e != he && e !in chains[c]
    modifies buckets, nodes`next
    ensures AllLinked(buckets[..], chains[c := chains[c] + [he]], nodes)
    ensures AllLinked(heads, pending, nodes)
  {
    assert Linked(buckets[c], chains[c]);
    AppendEntry(buckets, c, he, chains[c]);
    ghost var u := chains[c := chains[c] + [he]];
    forall x | 0 <= x < |u|
      ensures (forall j | 0 <= j < |u[x]| :: u[x][j] in nodes) && Linked(buckets[x], u[x])
    {
    }
  }

  /** Moves the whole of pending chain i, counting entries down in n. */
  method MoveBucket<K, V>(t: array<JSHashEntry?<K, V>>, head: JSHashEntry?<K, V>, n0: nat, log2: nat,
                          ghost s0: Transfer<K, V>,
                          ghost oldLog2: nat, ghost i: nat, ghost hashOf: K -> HashNumber,
                          ghost entries: map<K, JSHashEntry<K, V>>, ghost nodes: set<JSHashEntry<K, V>>)
      returns (n: nat, ghost s: Transfer<K, V>)
    requires log2 <= HASH_BITS && Moving(t[..], s0, log2, oldLog2, hashOf, entries, nodes)
    requires i < |s0.heads| && head == s0.heads[i] && n0 == |s0.left|
    modifies t, nodes`next
    ensures Moving(t[..], s, log2, oldLog2, hashOf, entries, nodes) && n == |s.left|
    ensures |s.heads| == |s0.heads| && |s.pending| == |s0.pending| == |s.heads| && s.pending[i] == []
    ensures forall b | 0 <= b < |s.heads| && b != i :: s.heads[b] == s0.heads[b] && s.pending[b] == s0.pending[b]
  {
    hide BucketOf, Placement, AllLinked;
    s, n := s0, n0;
    var he := head;
    HeadOfPending(s.heads, s.pending, nodes, i);
    while he != null
      invariant Moving(t[..], s, log2, oldLog2, hashOf, entries, nodes) && n == |s.left|
      invariant |s.heads| == |s0.heads| && |s.pending| == |s0.pending| == |s.heads| && he == s.heads[i]
      invariant forall b | 0 <= b < |s.heads| && b != i :: s.heads[b] == s0.heads[b] && s.pending[b] == s0.pending[b]
      invariant he == if s.pending[i] == [] then null else s.pending[i][0]
      decreases |s.pending[i]|
    {
      he, s := MoveEntry(t, he, log2, s, oldLog2, i, hashOf, entries, nodes);
      n := n - 1;
      HeadOfPending(s.heads, s.pending, nodes, i);
    }
  }

  lemma HeadOfPending<K, V>(heads: seq<JSHashEntry?<K, V>>, pending: seq<Chain<K, V>>, nodes: set<JSHashEntry<K, V>>,
                            i: nat)
    requires AllLinked(heads, pending, nodes) && i < |heads|
    ensures |heads| == |pending| && heads[i] == if pending[i] == [] then null else pending[i][0]
  {
    assert Linked(heads[i], pending[i]);
  }

  /** The outer loop of Resize. It has no bound of its own: it stops because the count
      of entries is exact. */
  method MoveAll<K, V>(oldbuckets: array<JSHashEntry?<K, V>>, t: array<JSHashEntry?<K, V>>, n0: nat, log2: nat,
                       ghost s0: Transfer<K, V>, ghost oldLog2: nat, ghost hashOf: K -> HashNumber,
                       ghost entries: map<K, JSHashEntry<K, V>>, ghost nodes: set<JSHashEntry<K, V>>)
      returns (ghost chains: seq<Chain<K, V>>)
    requires log2 <= HASH_BITS && Moving(t[..], s0, log2, oldLog2, hashOf, entries, nodes)
    requires oldbuckets != t && s0.heads == oldbuckets[..] && n0 == |s0.left|
    modifies t, nodes`next
    ensures Placement(chains, log2, hashOf, entries, entries.Keys) && AllLinked(t[..], chains, nodes)
  {
    hide BucketOf, Placement, AllLinked, Moving;
    var i, n := 0, n0;
    ghost var s := s0;
    MovingSizes(t[..], s, log2, oldLog2, hashOf, entries, nodes);
    while n != 0
      invariant i <= oldbuckets.Length == |s.heads| == |s.pending| && n == |s.left|
      invariant Moving(t[..], s, log2, oldLog2, hashOf, entries, nodes)
      invariant forall b | 0 <= b < i :: s.pending[b] == []
      invariant forall b | i <= b < |s.heads| :: s.heads[b] == oldbuckets[b]
      decreases oldbuckets.Length - i
    {
      if i == oldbuckets.Length {
        NothingToMove(t[..], s, log2, oldLog2, hashOf, entries, nodes);
      }
      n, s := MoveBucket(t, oldbuckets[i], n, log2, s, oldLog2, i, hashOf, entries, nodes);
      i := i + 1;
    }
    AllMoved(t[..], s, log2, oldLog2, hashOf, entries, nodes);
    chains := s.chains;
  }

  lemma MovingSizes<K, V>(t: seq<JSHashEntry?<K, V>>, s: Transfer<K, V>, log2: nat, oldLog2: nat,
                          hashOf: K -> HashNumber, entries: map<K, JSHashEntry<K, V>>, nodes: set<JSHashEntry<K, V>>)
    requires Moving(t, s, log2, oldLog2, hashOf, entries, nodes)
    ensures |s.heads| == |s.pending|
  {
  }

  lemma NothingToMove<K, V>(t: seq<JSHashEntry?<K, V>>, s: Transfer<K, V>, log2: nat, oldLog2: nat,
                            hashOf: K -> HashNumber, entries: map<K, JSHashEntry<K, V>>, nodes: set<JSHashEntry<K, V>>)
    requires Moving(t, s, log2, oldLog2, hashOf, entries, nodes)
    requires forall b | 0 <= b < |s.pending| :: s.pending[b] == []
    ensures s.left == {}
  {
    hide BucketOf, Placement, AllLinked;
    NothingLeft(s.pending, oldLog2, hashOf, entries, s.left);
  }

  lemma AllMoved<K, V>(t: seq<JSHashEntry?<K, V>>, s: Transfer<K, V>, log2: nat, oldLog2: nat,
                       hashOf: K -> HashNumber, entries: map<K, JSHashEntry<K, V>>, nodes: set<JSHashEntry<K, V>>)
    requires Moving(t, s, log2, oldLog2, hashOf, entries, nodes) && |s.left| == 0
    ensures Placement(s.chains, log2, hashOf, entries, entries.Keys) && AllLinked(t, s.chains, nodes)
  {
    hide BucketOf, Placement, AllLinked;
    assert s.moved == entries.Keys;
  }

  lemma TailLinked<K, V>(he: JSHashEntry<K, V>, chain: Chain<K, V>)
    requires Linked(he, chain)
    ensures chain != [] && Linked(he.next, chain[1..])
  {
    assert LinkedAt(chain, 0);
    forall i | 0 <= i < |chain[1..]| ensures LinkedAt(chain[1..], i) {
      assert LinkedAt(chain, i + 1);
    }
  }

  /** What is written when he is appended to chain c is on no other chain. */
  lemma KeysApart<K, V>(chains: seq<Chain<K, V>>, log2: nat, pending: seq<Chain<K, V>>, oldLog2: nat,
                        hashOf: K -> HashNumber, entries: map<K, JSHashEntry<K, V>>, owned: set<K>, left: set<K>,
                        he: JSHashEntry<K, V>, c: nat)
    requires Placement(chains, log2, hashOf, entries, owned) && Placement(pending, oldLog2, hashOf, entries, left)
    requires he.key !in owned && he.key !in left && owned !! left && c < |chains|
    ensures forall b, e | 0 <= b < |chains| && b != c && e in chains[b] :: e != he && e !in chains[c]
    ensures forall b, e | 0 <= b < |pending| && e in pending[b] :: e != he && e !in chains[c]
  {
    hide BucketOf;
    assert ChainHolds(chains[c], c, log2, hashOf, entries, owned);
    forall b, e | 0 <= b < |chains| && b != c && e in chains[b] ensures e != he && e !in chains[c] {
      assert ChainHolds(chains[b], b, log2, hashOf, entries, owned);
    }
    forall b, e | 0 <= b < |pending| && e in pending[b] ensures e != he && e !in chains[c] {
      assert ChainHolds(pending[b], b, oldLog2, hashOf, entries, left);
    }
  }

  // ---------- adding and removing one entry ----------

  /** he->next = *hep; *hep = he, where hep is the link to position i of the chain. */
  method LinkAt<K, V>(buckets: array<JSHashEntry?<K, V>>, ghost b: nat, hep: Link<K, V>, he: JSHashEntry<K, V>,
                      ghost chain: Chain<K, V>, ghost i: nat)
    requires b < buckets.Length && Linked(buckets[b], chain) && DistinctEntries(chain) && he !in chain
    requires LinksTo(chain, b, hep, i) && he.next == null
    modifies buckets, he`next, (set e | e in chain)`next
    ensures Linked(buckets[b], Inserted(chain, i, he))
    ensures forall c | 0 <= c < buckets.Length && c != b :: buckets[c] == old(buckets[c])
  {
    ghost var u := Inserted(chain, i, he);
    assert i > 0 ==> LinkedAt(chain, i - 1);
    match hep {
      case Head(x) =>
        he.next := buckets[x];
        buckets[x] := he;
      case NextOf(e) =>
        he.next := e.next;
        e.next := he;
    }
    forall j | 0 <= j < |u| ensures LinkedAt(u, j) {
      assert j < i ==> old(LinkedAt(chain, j)) && u[j] == chain[j];
      assert j > i ==> old(LinkedAt(chain, j - 1)) && u[j] == chain[j - 1];
      assert j + 1 < |u| ==> u[j + 1] == if j + 1 < i then chain[j + 1] else if j + 1 == i then he else chain[j];
    }
  }

  /** *hep = he->next, where he is entry i of the chain. */
  method Unlink<K, V>(buckets: array<JSHashEntry?<K, V>>, hep: Link<K, V>, he: JSHashEntry<K, V>, ghost b: nat,
                      ghost chain: Chain<K, V>, ghost i: nat)
    requires b < buckets.Length && Linked(buckets[b], chain) && DistinctEntries(chain)
    requires i < |chain| && he == chain[i] && LinksTo(chain, b, hep, i)
    modifies buckets, (set e | e in chain)`next
    ensures Linked(buckets[b], chain[..i] + chain[i + 1..])
    ensures forall c | 0 <= c < buckets.Length && c != b :: buckets[c] == old(buckets[c])
  {
    ghost var u := chain[..i] + chain[i + 1..];
    assert LinkedAt(chain, i);
    match hep {
      case Head(x) => buckets[x] := he.next;
      case NextOf(e) => e.next := he.next;
    }
    forall j | 0 <= j < |u| ensures LinkedAt(u, j) {
      assert old(LinkedAt(chain, if j < i then j else j + 1));
      assert u[j] == chain[if j < i then j else j + 1];
      assert j + 1 < |u| ==> u[j + 1] == chain[if j + 1 < i then j + 1 else j + 2];
    }
  }

  /** The same on a whole bucket vector: the chains left and pending are linked. */
  method UnlinkFrom<K, V>(buckets: array<JSHashEntry?<K, V>>, hep: Link<K, V>, he: JSHashEntry<K, V>,
                          ghost b: nat, ghost i: nat, ghost chains: seq<Chain<K, V>>, ghost log2: nat,
                          ghost hashOf: K -> HashNumber, ghost entries: map<K, JSHashEntry<K, V>>,
                          ghost nodes: set<JSHashEntry<K, V>>)
    requires Placement(chains, log2, hashOf, entries, entries.Keys) && AllLinked(buckets[..], chains, nodes)
    requires b < |chains| && i < |chains[b]| && he == chains[b][i] && LinksTo(chains[b], b, hep, i)
    modifies buckets, nodes`next
    requires forall k | k in entries :: entries[k] in nodes
    ensures AllLinked(buckets[..], chains[b := chains[b][..i] + chains[b][i + 1..]], nodes)
    ensures Values(entries - {he.key}, nodes) == old(Values(entries, nodes)) - {he.key}
    ensures he.key in entries && entries[he.key] == he
    ensures Placement(chains[b := chains[b][..i] + chains[b][i + 1..]], log2, hashOf, entries - {he.key},
                      entries.Keys - {he.key})
  {
    hide BucketOf, Placement;
    UnlinkPlacement(chains, log2, hashOf, entries, b, i);
    PlacementDistinct(chains, log2, hashOf, entries, entries.Keys, b);
    forall c, e | 0 <= c < |chains| && c != b && e in chains[c] ensures e !in chains[b] {
      ChainsApart(chains, log2, hashOf, entries, entries.Keys, c, b, e);
    }
    assert Linked(buckets[b], chains[b]);
    Unlink(buckets, hep, he, b, chains[b], i);
    ghost var u := chains[b := chains[b][..i] + chains[b][i + 1..]];
    forall c | 0 <= c < |u|
      ensures (forall j | 0 <= j < |u[c]| :: u[c][j] in nodes) && Linked(buckets[c], u[c])
    {
    }
  }

  /** Linking a fresh entry into its bucket's chain, on a whole bucket vector. */
  method LinkInto<K, V>(buckets: array<JSHashEntry?<K, V>>, hep: Link<K, V>, he: JSHashEntry<K, V>, ghost log2: nat,
                        ghost i: nat,
                        ghost chains: seq<Chain<K, V>>, ghost hashOf: K -> HashNumber,
                        ghost entries: map<K, JSHashEntry<K, V>>, ghost nodes: set<JSHashEntry<K, V>>)
    requires log2 <= HASH_BITS
    requires Placement(chains, log2, hashOf, entries, entries.Keys) && AllLinked(buckets[..], chains, nodes)
    requires he.key !in entries && he.keyHash == hashOf(he.key) && he.next == null && he !in nodes
    requires var b := BucketOf(he.keyHash, log2); b < |chains| && LinksTo(chains[b], b, hep, i)
    requires forall k | k in entries :: entries[k] in nodes
    modifies buckets, nodes`next, he`next
    ensures Values(entries[he.key := he], nodes + {he}) == old(Values(entries, nodes))[he.key := he.value]
    ensures var b := BucketOf(he.keyHash, log2);
            AllLinked(buckets[..], chains[b := Inserted(chains[b], i, he)], nodes + {he})
            && Placement(chains[b := Inserted(chains[b], i, he)], log2, hashOf, entries[he.key := he],
                         entries.Keys + {he.key})
  {
    hide BucketOf, Placement;
    ghost var b := BucketOf(he.keyHash, log2);
    ExtendEntries(chains, log2, hashOf, entries, he);
    InsertPlacement(chains, log2, hashOf, entries[he.key := he], entries.Keys, he, i);
    forall c, e | 0 <= c < |chains| && c != b && e in chains[c] ensures e !in chains[b] {
      ChainsApart(chains, log2, hashOf, entries, entries.Keys, c, b, e);
    }
    forall c | 0 <= c < |chains| ensures he !in chains[c] {
      NotOnChain(chains, log2, hashOf, entries, entries.Keys, he, c);
    }
    assert Linked(buckets[b], chains[b]);
    LinkAt(buckets, b, hep, he, chains[b], i);
    ghost var u := chains[b := Inserted(chains[b], i, he)];
    forall c | 0 <= c < |u|
      ensures (forall j | 0 <= j < |u[c]| :: u[c][j] in nodes + {he}) && Linked(buckets[c], u[c])
    {
    }
  }

  lemma UnlinkPlacement<K, V>(chains: seq<Chain<K, V>>, log2: nat, hashOf: K -> HashNumber,
                              entries: map<K, JSHashEntry<K, V>>, b: nat, i: nat)
    requires Placement(chains, log2, hashOf, entries, entries.Keys) && b < |chains| && i < |chains[b]|
    ensures var e, rest := chains[b][i], chains[b := chains[b][..i] + chains[b][i + 1..]];
            e.key in entries && entries[e.key] == e
            && Placement(rest, log2, hashOf, entries - {e.key}, entries.Keys - {e.key})
  {
    hide BucketOf;
    ChainEntry(chains, log2, hashOf, entries, entries.Keys, b, i);
    var e, rest := chains[b][i], chains[b := chains[b][..i] + chains[b][i + 1..]];
    var keys := entries.Keys - {e.key};
    PlacementDistinct(chains, log2, hashOf, entries, entries.Keys, b);
    assert forall x | x in rest[b] :: x in chains[b] && x != e;
    forall c | 0 <= c < |rest| ensures ChainHolds(rest[c], c, log2, hashOf, entries - {e.key}, keys) {
      assert ChainHolds(chains[c], c, log2, hashOf, entries, entries.Keys);
      assert e in chains[b];
    }
    forall k | k in keys ensures entries[k] in rest[BucketOf(hashOf(k), log2)] && entries[k].key == k {
      var j := EntryOnChain(chains, log2, hashOf, entries, entries.Keys, k);
      assert chains[b] == chains[b][..i] + [e] + chains[b][i + 1..];
    }
  }

  /** A new entry for an absent key changes nothing about the others. */
  lemma ExtendEntries<K, V>(chains: seq<Chain<K, V>>, log2: nat, hashOf: K -> HashNumber,
                            entries: map<K, JSHashEntry<K, V>>, e: JSHashEntry<K, V>)
    requires Placement(chains, log2, hashOf, entries, entries.Keys) && e.key !in entries
    ensures Placement(chains, log2, hashOf, entries[e.key := e], entries.Keys)
  {
    hide BucketOf;
    forall c | 0 <= c < |chains| ensures ChainHolds(chains[c], c, log2, hashOf, entries[e.key := e], entries.Keys) {
      assert ChainHolds(chains[c], c, log2, hashOf, entries, entries.Keys);
    }
  }

  lemma NotOnChain<K, V>(chains: seq<Chain<K, V>>, log2: nat, hashOf: K -> HashNumber,
                         entries: map<K, JSHashEntry<K, V>>, owned: set<K>, e: JSHashEntry<K, V>, c: nat)
    requires Placement(chains, log2, hashOf, entries, owned) && e.key !in owned && c < |chains|
    ensures e !in chains[c]
  {
    assert ChainHolds(chains[c], c, log2, hashOf, entries, owned);
  }

  /** The chain with e put in at position i. */
  ghost function Inserted<K, V>(chain: Chain<K, V>, i: nat, e: JSHashEntry<K, V>): Chain<K, V>
    requires i <= |chain|
  {
    chain[..i] + [e] + chain[i..]
  }

  /** hep is the link to position i of chain, which hangs off bucket b. */
  ghost predicate LinksTo<K, V>(chain: Chain<K, V>, b: nat, hep: Link<K, V>, i: nat) {
    i <= |chain| && hep == if i == 0 then Head(b) else NextOf(chain[i - 1])
  }

  /** hep is the null link that ends chain, which hangs off bucket b. */
  ghost predicate EndOf<K, V>(chain: Chain<K, V>, b: nat, hep: Link<K, V>) {
    LinksTo(chain, b, hep, |chain|)
  }

  function Overloaded(n: nat): nat { n - n / 8 }

  function Underloaded(n: nat): nat { if n > 16 then n / 4 else 0 }

  /** he->value = value, for the entry of key k. */
  method SetValue<K, V>(he: JSHashEntry<K, V>, value: V, ghost k: K, ghost heads: seq<JSHashEntry?<K, V>>,
                        ghost chains: seq<Chain<K, V>>, ghost entries: map<K, JSHashEntry<K, V>>,
                        ghost nodes: set<JSHashEntry<K, V>>)
    requires AllLinked(heads, chains, nodes) && (forall x | x in entries :: entries[x] in nodes && entries[x].key == x)
    requires k in entries && entries[k] == he
    modifies he`value
    ensures he.value == value && AllLinked(heads, chains, nodes)
    ensures Values(entries, nodes) == old(Values(entries, nodes))[k := value]
  {
    he.value := value;
    forall b | 0 <= b < |chains|
      ensures (forall i | 0 <= i < |chains[b]| :: chains[b][i] in nodes) && Linked(heads[b], chains[b])
    {
      assert old(Linked(heads[b], chains[b]));
      forall i | 0 <= i < |chains[b]| ensures LinkedAt(chains[b], i) {
        assert old(LinkedAt(chains[b], i));
      }
    }
  }
}

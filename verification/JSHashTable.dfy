/** js/jsd/jshash.cpp: a chained hash table whose lookups move the entry found to the
    front of its chain, and which grows, shrinks and can be enumerated with removal. */
module JSHashTable {
  import opened Arith
  import opened HashCore
  import opened JSHashChains
  import opened JSHashWalk
  import opened Wrappers

  class JSHashTable<K(==), V> {
    const hashOf: K -> HashNumber
    const valueCompare: (V, V) -> bool
    var buckets: array<JSHashEntry?<K, V>>
    var nentries: nat
    var shift: nat

    ghost var chains: seq<Chain<K, V>>
    ghost var entries: map<K, JSHashEntry<K, V>>
    ghost var nodes: set<JSHashEntry<K, V>>

    constructor (log2: nat, hashOf: K -> HashNumber, valueCompare: (V, V) -> bool, t: array<JSHashEntry?<K, V>>)
      requires log2 <= HASH_BITS && forall i | 0 <= i < t.Length :: t[i] == null
      ensures buckets == t && nentries == 0 && entries == map[]
      ensures this.hashOf == hashOf && this.valueCompare == valueCompare && Log2() == log2
      ensures MIN_BUCKETS_LOG2 <= log2 <= MAX_BUCKETS_LOG2 && t.Length == Pow2(log2) ==> Valid() && Contents() == map[]
    {
      this.hashOf, this.valueCompare, buckets, nentries, shift := hashOf, valueCompare, t, 0, HASH_BITS - log2;
      chains, entries, nodes := seq(t.Length, _ => []), map[], {};
      new;
      hide BucketOf, Placement, AllLinked;
      if MIN_BUCKETS_LOG2 <= log2 <= MAX_BUCKETS_LOG2 && t.Length == Pow2(log2) {
        NoChains(log2, hashOf, entries, chains, buckets[..], nodes);
        assert Contents() == map[];
      }
    }

    function Log2(): int
      reads this`shift
    {
      HASH_BITS - shift
    }

    ghost predicate Valid()
      reads this, buckets, nodes
    {
      && 3 <= shift <= HASH_BITS - MIN_BUCKETS_LOG2
      && Placement(chains, Log2(), hashOf, entries, entries.Keys)
      && AllLinked(buckets[..], chains, nodes)
      && (forall k | k in entries :: entries[k] in nodes)
      && nentries == |entries| <= buckets.Length
    }

    /** At most about 90 percent of the buckets' number of entries. */
    predicate WithinLoad()
      reads this
    {
      nentries <= Overloaded(buckets.Length)
    }

    /** There is room for one more entry: the table is not overloaded, or it can double. */
    ghost predicate HasRoom(memory: bool)
      requires shift <= HASH_BITS
      reads this
    {
      nentries < Overloaded(Pow2(Log2())) || (Log2() < MAX_BUCKETS_LOG2 && memory)
    }

    /** The finite map the table implements. */
    ghost function Contents(): map<K, V>
      reads this, nodes
      requires forall k | k in entries :: entries[k] in nodes
    {
      Values(entries, nodes)
    }

    /** *hep */
    function Deref(hep: Link<K, V>): JSHashEntry?<K, V>
      reads this`buckets, buckets, if hep.NextOf? then {hep.e} else {}
      requires hep.Head? ==> hep.b < buckets.Length
    {
      if hep.Head? then buckets[hep.b] else hep.e.next
    }

    /** JS_HashTableRawLookup. On a hit the entry has been moved to the front of its
        chain; on a miss the link returned ends the chain. */
    method RawLookup(keyHash: HashNumber, key: K) returns (hep: Link<K, V>)
      requires Valid() && keyHash == hashOf(key)
      modifies this`chains, buckets, nodes`next
      ensures Valid() && Contents() == old(Contents())
      ensures hep.Head? ==> hep.b < buckets.Length
      ensures Deref(hep) == if key in entries then entries[key] else null
      ensures key in entries ==> hep == Head(BucketOf(keyHash, Log2()))
      ensures key in entries ==> Raised(old(chains), chains, BucketOf(keyHash, Log2()), entries[key])
      ensures key !in entries ==> chains == old(chains) && buckets[..] == old(buckets[..])
      ensures key !in entries ==> EndOf(chains[BucketOf(keyHash, Log2())], BucketOf(keyHash, Log2()), hep)
    {
      hide BucketOf, Placement;
      PlacementSize(chains, Log2(), hashOf, entries, entries.Keys);
      var b := BucketOf(keyHash, Log2());
      ghost var chain := chains[b];
      assert Linked(buckets[b], chain);
      var he, prev;
      ghost var i;
      he, prev, i := Search(buckets[b], keyHash, key, chain);
      if key in entries {
        ghost var _ := EntryOnChain(chains, Log2(), hashOf, entries, entries.Keys, key);
      }
      if he == null {
        assert prev != null ==> LinkedAt(chain, |chain| - 1);
        return if prev == null then Head(b) else NextOf(prev);
      }
      ChainEntry(chains, Log2(), hashOf, entries, entries.Keys, b, i);
      assert Fronted(chain, 0) == chain;
      if prev != null {
        FrontedKeeps(chains, Log2(), hashOf, entries, entries.Keys, b, i);
        Front(buckets, b, he, prev, i, chains, Log2(), hashOf, entries, entries.Keys, nodes);
        chains := chains[b := Fronted(chain, i)];
      }
      return Head(b);
    }

    /** The end of Resize: every entry moves to its bucket in t. */
    method MoveTo(t: array<JSHashEntry?<K, V>>, newshift: nat)
      requires Valid() && 3 <= newshift <= HASH_BITS - MIN_BUCKETS_LOG2 && t != buckets
      requires nentries <= t.Length == Pow2(HASH_BITS - newshift) && forall i | 0 <= i < t.Length :: t[i] == null
      modifies this`buckets, this`shift, this`chains, t, nodes`next
      ensures Valid() && Contents() == old(Contents()) && shift == newshift && buckets == t
    {
      hide BucketOf, Placement, AllLinked;
      ghost var oldLog2, newLog2 := Log2(), HASH_BITS - newshift;
      BucketCount();
      ghost var none: seq<Chain<K, V>> := seq(t.Length, _ => []);
      NoChains(newLog2, hashOf, entries, none, t[..], nodes);
      ghost var s := Transfer(none, {}, buckets[..], chains, entries.Keys);
      ghost var newChains := MoveAll(buckets, t, nentries, HASH_BITS - newshift, s, oldLog2, hashOf, entries, nodes);
      buckets := t;
      shift := newshift;
      chains := newChains;
    }

    /** Rehashes every entry into 32 - newshift bits of buckets. The loops have no bound
        of their own: they stop because nentries is exact. */
    method Resize(newshift: nat, memory: bool) returns (ok: bool)
      requires Valid() && newshift <= HASH_BITS - MIN_BUCKETS_LOG2
      requires nentries <= Pow2(HASH_BITS - newshift)
      modifies this, nodes`next
      ensures Valid() && Contents() == old(Contents())
      ensures entries == old(entries) && nodes == old(nodes) && nentries == old(nentries)
      ensures ok <==> HASH_BITS - newshift <= MAX_BUCKETS_LOG2 && memory
      ensures if ok then shift == newshift && fresh(buckets)
              else unchanged(this) && forall e | e in nodes :: e.next == old(e.next)
    {
      hide BucketOf, Placement, AllLinked, Values;
      var newLog2 := HASH_BITS - newshift;
      var nb := Pow2(newLog2);
      RefusedAbove29(newLog2);
      if nb > 0xFFFF_FFFF / 4 {
        return false;
      }
      var t := AllocTable(nb, memory);
      if t == null {
        return false;
      }
      MoveTo(t, newshift);
      return true;
    }

    /** The start of RawAdd: double a table that is overloaded and find the end of the
        key's chain again. */
    method GrowIfOverloaded(hep0: Link<K, V>, keyHash: HashNumber, key: K, memory: bool, ghost i0: nat)
        returns (ok: bool, hep: Link<K, V>, ghost i: nat)
      requires Valid() && key !in entries && keyHash == hashOf(key)
      requires LinksTo(chains[BucketOf(keyHash, Log2())], BucketOf(keyHash, Log2()), hep0, i0)
      modifies this, buckets, nodes`next
      ensures Valid() && Contents() == old(Contents()) && nodes == old(nodes) && entries == old(entries)
      ensures LinksTo(chains[BucketOf(keyHash, Log2())], BucketOf(keyHash, Log2()), hep, i)
      ensures nentries == old(nentries) && (buckets == old(buckets) || (ok && fresh(buckets)))
      ensures ok <==> old(HasRoom(memory))
      ensures if old(nentries) < Overloaded(Pow2(old(Log2())))
              then ok && buckets == old(buckets) && shift == old(shift)
              else shift == if ok then old(shift) - 1 else old(shift)
      ensures ok ==> nentries < Overloaded(buckets.Length)
    {
      hide BucketOf, Placement, AllLinked, LinksTo, Values;
      ok, hep, i := true, hep0, i0;
      var n := Pow2(Log2());
      BucketCount();
      RoomAbove(Log2());
      if nentries >= Overloaded(n) {
        ok := Resize(shift - 1, memory);
        if ok {
          hep := RawLookup(keyHash, key);
          BucketCount();
          i := |chains[BucketOf(keyHash, Log2())]|;
        }
      }
    }

    /** JS_HashTableRawAdd of an absent key at any link of its bucket's chain; null exactly
        if an overloaded table cannot double or there is no memory for the entry. */
    method RawAdd(hep0: Link<K, V>, keyHash: HashNumber, key: K, value: V, tableMemory: bool, entryMemory: bool,
                  ghost i0: nat)
        returns (he: JSHashEntry?<K, V>)
      requires Valid() && key !in entries && keyHash == hashOf(key)
      requires LinksTo(chains[BucketOf(keyHash, Log2())], BucketOf(keyHash, Log2()), hep0, i0)
      modifies this, buckets, nodes`next
      ensures Valid() && (buckets == old(buckets) || fresh(buckets)) && fresh(nodes - old(nodes))
      ensures he != null <==> old(HasRoom(tableMemory)) && entryMemory
      ensures he != null ==> Contents() == old(Contents())[key := value] && key in entries && he == entries[key]
      ensures he != null ==> WithinLoad() && nentries == old(nentries) + 1
      ensures he == null ==> Contents() == old(Contents()) && nentries == old(nentries)
      ensures old(WithinLoad()) ==> WithinLoad()
      ensures if old(HasRoom(tableMemory) && nentries >= Overloaded(Pow2(Log2())))
              then shift == old(shift) - 1 && fresh(buckets)
              else shift == old(shift) && buckets == old(buckets)
    {
      hide BucketOf, Placement, AllLinked, LinksTo, Values;
      BucketCount();
      var ok, hep;
      ghost var i;
      ok, hep, i := GrowIfOverloaded(hep0, keyHash, key, tableMemory, i0);
      he := null;
      if !ok || !entryMemory {
        return;
      }
      he := new JSHashEntry(keyHash, key, value);
      LinkNew(hep, he, i);
    }

    /** The end of RawAdd: link a fresh entry into its bucket's chain. */
    method LinkNew(hep: Link<K, V>, he: JSHashEntry<K, V>, ghost i: nat)
      requires Valid() && he.key !in entries && he.keyHash == hashOf(he.key) && he.next == null && he !in nodes
      requires LinksTo(chains[BucketOf(he.keyHash, Log2())], BucketOf(he.keyHash, Log2()), hep, i)
      requires nentries < buckets.Length
      modifies this`chains, this`entries, this`nodes, this`nentries, buckets, nodes`next, he`next
      ensures Valid() && nentries == old(nentries) + 1 && nodes == old(nodes) + {he}
      ensures Contents() == old(Contents())[he.key := he.value] && entries == old(entries)[he.key := he]
    {
      hide BucketOf, Placement, AllLinked, Values;
      PlacementSize(chains, Log2(), hashOf, entries, entries.Keys);
      ghost var b := BucketOf(he.keyHash, Log2());
      ghost var es, ns := entries, nodes;
      ghost var cs := chains;
      MapPlus(es, he.key, he);
      entries, chains, nodes := es[he.key := he], cs[b := Inserted(cs[b], i, he)], ns + {he};
      LinkInto(buckets, hep, he, Log2(), i, cs, hashOf, es, ns);
      nentries := nentries + 1;
    }

    /** he->value = value for the entry of a present key. */
    method Overwrite(he: JSHashEntry<K, V>, ghost key: K, value: V)
      requires Valid() && key in entries && entries[key] == he
      modifies he`value
      ensures Valid() && Contents() == old(Contents())[key := value]
    {
      hide BucketOf, AllLinked;
      SetValue(he, value, key, buckets[..], chains, entries, nodes);
    }

    /** JS_HashTableAdd: a present key gets the new value unless valueCompare says the
        values match; an absent one gets an entry if there is room and memory for it. */
    method Add(key: K, value: V, tableMemory: bool, entryMemory: bool) returns (he: JSHashEntry?<K, V>)
      requires Valid()
      modifies this, buckets, nodes
      ensures Valid() && (buckets == old(buckets) || fresh(buckets)) && fresh(nodes - old(nodes))
      ensures he != null <==> key in old(Contents()) || (old(HasRoom(tableMemory)) && entryMemory)
      ensures he != null ==> key in entries && he == entries[key]
      ensures old(WithinLoad()) ==> WithinLoad()
      ensures if key !in old(Contents()) && old(HasRoom(tableMemory) && nentries >= Overloaded(Pow2(Log2())))
              then shift == old(shift) - 1 && fresh(buckets)
              else shift == old(shift) && buckets == old(buckets)
      ensures Contents() ==
        if he == null || (key in old(Contents()) && valueCompare(old(Contents())[key], value))
        then old(Contents()) else old(Contents())[key := value]
    {
      hide BucketOf, Placement, AllLinked, LinksTo;
      var keyHash := hashOf(key);
      var hep := RawLookup(keyHash, key);
      he := Deref(hep);
      if he != null {
        if valueCompare(he.value, value) {
          return;
        }
        Overwrite(he, key, value);
        return;
      }
      BucketCount();
      he := RawAdd(hep, keyHash, key, value, tableMemory, entryMemory, |chains[BucketOf(keyHash, Log2())]|);
    }

    /** *hep = he->next and one entry fewer, where he is entry i of chain b. */
    method UnlinkEntry(hep: Link<K, V>, he: JSHashEntry<K, V>, ghost b: nat, ghost i: nat)
      requires Valid() && b < |chains| && i < |chains[b]| && he == chains[b][i] && LinksTo(chains[b], b, hep, i)
      modifies this`chains, this`entries, this`nentries, buckets, nodes`next
      ensures Valid() && Contents() == old(Contents()) - {he.key}
      ensures he.key in old(entries) && entries == old(entries) - {he.key} && nentries == old(nentries) - 1
      ensures chains == old(chains)[b := old(chains)[b][..i] + old(chains)[b][i + 1..]]
    {
      hide BucketOf, Placement, AllLinked, Values;
      UnlinkFrom(buckets, hep, he, b, i, chains, Log2(), hashOf, entries, nodes);
      MapMinus(entries, he.key);
      chains, entries, nentries := chains[b := chains[b][..i] + chains[b][i + 1..]], entries - {he.key}, nentries - 1;
    }

    /** JS_HashTableRawRemove of the entry a link leads to; halves a table that this leaves
        underloaded, if there is memory. */
    method RawRemove(hep: Link<K, V>, he: JSHashEntry<K, V>, memory: bool, ghost b: nat, ghost i: nat)
      requires Valid() && b < |chains| && i < |chains[b]| && he == chains[b][i] && LinksTo(chains[b], b, hep, i)
      modifies this, buckets, nodes`next
      ensures Valid() && Contents() == old(Contents()) - {he.key} && nodes == old(nodes)
      ensures nentries == old(nentries) - 1 && (old(WithinLoad()) ==> WithinLoad())
      ensures if nentries < Underloaded(Pow2(old(Log2()))) && memory then shift == old(shift) + 1 && fresh(buckets)
              else shift == old(shift) && buckets == old(buckets)
    {
      hide BucketOf, Placement, AllLinked, Values;
      UnlinkEntry(hep, he, b, i);
      BucketCount();
      var n := Pow2(Log2());
      if nentries < Underloaded(n) {
        RoomBelow(Log2());
        var _ := Resize(shift + 1, memory);
        BucketCount();
      }
    }

    lemma BucketCount()
      requires Valid()
      ensures buckets.Length == |chains| == Pow2(Log2())
    {
    }

    lemma HeadEntry(b: nat)
      requires Valid() && b < buckets.Length
      ensures |chains| == buckets.Length
      ensures buckets[b] == if chains[b] == [] then null else chains[b][0]
    {
      assert Linked(buckets[..][b], chains[b]);
    }

    /** JS_HashTableRemove: false when the key is absent. */
    method Remove(key: K, memory: bool) returns (ok: bool)
      requires Valid()
      modifies this, buckets, nodes`next
      ensures Valid() && ok == (key in old(Contents()))
      ensures Contents() == old(Contents()) - {key}
      ensures nodes == old(nodes) && (old(WithinLoad()) ==> WithinLoad())
      ensures if ok && nentries < Underloaded(Pow2(old(Log2()))) && memory
              then shift == old(shift) + 1 && fresh(buckets)
              else shift == old(shift) && buckets == old(buckets)
    {
      hide BucketOf, AllLinked, EndOf;
      var keyHash := hashOf(key);
      var hep := RawLookup(keyHash, key);
      var he := Deref(hep);
      if he == null {
        return false;
      }
      HeadEntry(hep.b);
      RawRemove(hep, he, memory, hep.b, 0);
      return true;
    }

    /** JS_HashTableLookup. */
    method Lookup(key: K) returns (value: Option<V>)
      requires Valid()
      modifies this`chains, buckets, nodes`next
      ensures Valid() && Contents() == old(Contents())
      ensures value == if key in Contents() then Some(Contents()[key]) else None
    {
      hide BucketOf, AllLinked, Placement, EndOf;
      var hep := RawLookup(hashOf(key), key);
      var he := Deref(hep);
      return if he != null then Some(he.value) else None;
    }

    // ---------- enumeration ----------

    /** The walk has made n visits, none of them a stop, stands before entry j of bucket b
        and has taken the flagged entries out of m. */
    ghost predicate OnWalk(f: Enumerator<K, V>, start: map<K, JSHashEntry<K, V>>, m: map<K, V>, w: Walk<K, V>,
                           n: nat, b: nat, j: nat)
      reads this, buckets, nodes
    {
      && Valid() && Walking(chains, Log2(), hashOf, entries, start, f, m, w, n, b, j)
      && NoStops(f, w.visited, m) && Contents() == m - Flagged(f, w.visited, m)
    }

    ghost predicate WalkDone(f: Enumerator<K, V>, m: map<K, V>, w: Walk<K, V>, n: nat)
      reads this, buckets, nodes
    {
      Valid() && n == |w.visited| <= |m| && Visited(f, w.visited, m) && Contents() == m - Flagged(f, w.visited, m)
    }

    /** One turn of the inner loop: calls f on entry j of bucket b and unlinks it if
        flagged. The walk then stands before entry j of what is left, or before entry
        j + 1. */
    method VisitEntry(b: nat, he: JSHashEntry<K, V>, prev0: JSHashEntry?<K, V>, f: Enumerator<K, V>, n: nat,
                      ghost w0: Walk<K, V>, ghost j0: nat, ghost start: map<K, JSHashEntry<K, V>>, ghost m: map<K, V>)
        returns (rv: EnumFlags, next: JSHashEntry?<K, V>, prev: JSHashEntry?<K, V>, ghost w: Walk<K, V>, ghost j: nat)
      requires OnWalk(f, start, m, w0, n, b, j0)
      requires b < |chains| && j0 < |chains[b]| && he == chains[b][j0]
      requires prev0 == if j0 > 0 then chains[b][j0 - 1] else null
      modifies this`chains, this`entries, this`nentries, buckets, nodes`next
      ensures |chains| == old(|chains|) && j <= |chains[b]| && |chains[b]| - j < old(|chains[b]|) - j0
      ensures prev == if j > 0 then chains[b][j - 1] else null
      ensures next == if j < |chains[b]| then chains[b][j] else null
      ensures if rv.stop then WalkDone(f, m, w, n + 1) else OnWalk(f, start, m, w, n + 1, b, j)
    {
      hide Valid, Contents, Flagged, NoStops, Visited, Walking, Stops, DistinctKeys;
      PositionIn(b, j0);
      ghost var k, u := he.key, w0.visited;
      WalkStep(chains, Log2(), hashOf, entries, start, f, m, w0, n, b, j0);
      WalkFacts(chains, Log2(), hashOf, entries, start, f, m, w0, n, b, j0);
      EntryValue(k);
      rv := f(he.key, he.value, n);
      FlaggedStep(f, u, m, k);
      StopsPrefix(f, u, m, k);
      w := Walk(u + [k], w0.unseen - {k}, w0.pending[b := w0.pending[b][1..]]);
      if rv.remove {
        UnlinkEntry(if prev0 == null then Head(b) else NextOf(prev0), he, b, j0);
        prev, j := prev0, j0;
      } else {
        prev, j := he, j0 + 1;
      }
      WalkFacts(chains, Log2(), hashOf, entries, start, f, m, w, n + 1, b, j);
      PositionIn(b, j);
      next := if prev == null then buckets[b] else prev.next;
      if rv.stop {
        StoppedVisit(f, u, m, k);
      }
    }

    /** The inner loop: walks bucket b, calling f on each entry and unlinking those it
        flags, until the chain ends or f says to stop. */
    method WalkBucket(b: nat, f: Enumerator<K, V>, n0: nat, ghost w0: Walk<K, V>,
                      ghost start: map<K, JSHashEntry<K, V>>, ghost m: map<K, V>)
        returns (n: nat, stopped: bool, ghost w: Walk<K, V>)
      requires OnWalk(f, start, m, w0, n0, b, 0) && b < |chains|
      modifies this`chains, this`entries, this`nentries, buckets, nodes`next
      ensures |chains| == old(|chains|)
      ensures if stopped then WalkDone(f, m, w, n) else OnWalk(f, start, m, w, n, b + 1, 0)
    {
      PositionIn(b, 0);
      hide OnWalk, WalkDone;
      w, n, stopped := w0, n0, false;
      var he := buckets[b];
      var prev: JSHashEntry?<K, V> := null;
      ghost var j: nat := 0;
      while he != null
        invariant OnWalk(f, start, m, w, n, b, j)
        invariant |chains| == old(|chains|) && j <= |chains[b]|
        invariant prev == if j > 0 then chains[b][j - 1] else null
        invariant he == if j < |chains[b]| then chains[b][j] else null
        decreases |chains[b]| - j
      {
        var rv;
        rv, he, prev, w, j := VisitEntry(b, he, prev, f, n, w, j, start, m);
        n := n + 1;
        if rv.stop {
          stopped := true;
          return;
        }
      }
      WalkOn(f, start, m, w, n, b);
    }

    lemma WalkOn(f: Enumerator<K, V>, start: map<K, JSHashEntry<K, V>>, m: map<K, V>, w: Walk<K, V>, n: nat, b: nat)
      requires b < |chains| && OnWalk(f, start, m, w, n, b, |chains[b]|)
      ensures OnWalk(f, start, m, w, n, b + 1, 0)
    {
      NextBucket(chains, Log2(), hashOf, entries, start, f, m, w, n, b);
    }

    lemma BeginWalk(f: Enumerator<K, V>)
      requires Valid()
      ensures OnWalk(f, entries, Contents(), Walk([], entries.Keys, chains), 0, 0, 0)
    {
      hide Placement;
      WalkStarts(chains, Log2(), hashOf, entries, f, Contents());
      assert Contents() - {} == Contents();
    }

    /** Until every entry is visited there is a bucket left to walk. */
    lemma WalkRoom(f: Enumerator<K, V>, start: map<K, JSHashEntry<K, V>>, m: map<K, V>, w: Walk<K, V>, n: nat, b: nat)
      requires OnWalk(f, start, m, w, n, b, 0)
      ensures b <= |chains| && n <= |m|
      ensures if n < |m| then b < |chains| else WalkDone(f, m, w, n)
    {
      hide Placement;
      WalkFacts(chains, Log2(), hashOf, entries, start, f, m, w, n, b, 0);
      if n == |m| {
        FinishedVisit(f, w, m);
      } else if b == |chains| {
        NothingLeft(w.pending, Log2(), hashOf, start, w.unseen);
      }
    }

    /** The outer loop, bounded only by the count of entries. */
    method WalkBuckets(f: Enumerator<K, V>) returns (n: nat, ghost w: Walk<K, V>)
      requires Valid()
      modifies this`chains, this`entries, this`nentries, buckets, nodes`next
      ensures WalkDone(f, old(Contents()), w, n) && nentries <= old(nentries)
    {
      hide Placement, AllLinked, Values, OnWalk, WalkDone, Contents;
      ghost var m, start := Contents(), entries;
      w := Walk([], entries.Keys, chains);
      BeginWalk(f);
      ContentsKeys();
      var nlimit, b := nentries, 0;
      n := 0;
      WalkRoom(f, start, m, w, n, 0);
      while n != nlimit
        invariant nlimit == |m| && OnWalk(f, start, m, w, n, b, 0)
        invariant n <= |m| && b <= |chains| && (if n < |m| then b < |chains| else WalkDone(f, m, w, n))
        decreases |chains| - b
      {
        var stopped;
        n, stopped, w := WalkBucket(b, f, n, w, start, m);
        if stopped {
          break;
        }
        b := b + 1;
        WalkRoom(f, start, m, w, n, b);
      }
      DoneShrinks(f, m, w, n);
    }

    lemma ContentsKeys()
      requires Valid()
      ensures Contents().Keys == entries.Keys && |Contents()| == nentries
    {
      hide Placement, AllLinked;
      assert Contents().Keys == entries.Keys;
      assert |Contents().Keys| == |Contents()| && |entries.Keys| == |entries|;
    }

    lemma DoneShrinks(f: Enumerator<K, V>, m: map<K, V>, w: Walk<K, V>, n: nat)
      requires WalkDone(f, m, w, n)
      ensures nentries <= |m|
    {
      hide Placement, AllLinked, Contents, Flagged, Visited;
      ContentsKeys();
      SubmapSize(Contents(), m);
    }

    /** The end of JS_HashTableEnumerateEntries: a table left underloaded shrinks to the
        least power of two that holds its entries, if memory allows. */
    method ShrinkToFit(nlimit: nat, memory: bool)
      requires Valid() && nentries <= nlimit
      modifies this, nodes`next
      ensures Valid() && Contents() == old(Contents()) && nodes == old(nodes) && nentries == old(nentries)
      ensures buckets == old(buckets) || fresh(buckets)
      ensures shift != old(shift) <==> nentries < nlimit && nentries < Underloaded(Pow2(old(Log2()))) && memory
      ensures shift != old(shift) ==>
        Log2() == (if nentries <= 16 then MIN_BUCKETS_LOG2 else CeilingLog2(nentries)) < old(Log2())
      ensures if shift == old(shift) then buckets == old(buckets)
              else WithinLoad() <==> nentries <= Overloaded(Pow2(Log2()))
    {
      hide BucketOf, Placement, AllLinked, Values;
      BucketCount();
      if nentries != nlimit {
        var nbuckets := Pow2(Log2());
        if 16 < nbuckets && nentries < Underloaded(nbuckets) {
          ReallyShrinks(nentries, Log2());
          var newlog2 := CeilingLog2(nentries);
          if newlog2 < MIN_BUCKETS_LOG2 {
            newlog2 := MIN_BUCKETS_LOG2;
          }
          var _ := Resize(HASH_BITS - newlog2, memory);
          BucketCount();
        }
      }
    }

    /** JS_HashTableEnumerateEntries: visits the entries one after another until the
        enumerator stops it, removes those it flags and shrinks the table to fit. */
    method EnumerateEntries(f: Enumerator<K, V>, memory: bool) returns (n: nat, ghost visited: seq<K>)
      requires Valid()
      modifies this, buckets, nodes`next
      ensures Valid() && nodes == old(nodes) && (buckets == old(buckets) || fresh(buckets))
      ensures n == |visited| && Visited(f, visited, old(Contents()))
      ensures Contents() == old(Contents()) - Flagged(f, visited, old(Contents()))
      ensures shift != old(shift) <==>
              nentries < old(nentries) && nentries < Underloaded(Pow2(old(Log2()))) && memory
      ensures shift != old(shift) ==>
        Log2() == (if nentries <= 16 then MIN_BUCKETS_LOG2 else CeilingLog2(nentries)) < old(Log2())
      ensures if shift == old(shift) then old(WithinLoad()) ==> WithinLoad()
              else WithinLoad() <==> nentries <= if nentries <= 16 then 14 else Overloaded(Pow2(CeilingLog2(nentries)))
    {
      hide BucketOf, Placement, AllLinked, Values, Flagged, Visited;
      var nlimit := nentries;
      ghost var w;
      n, w := WalkBuckets(f);
      visited := w.visited;
      ShrinkToFit(nlimit, memory);
      assert Pow2(MIN_BUCKETS_LOG2) == 16;
    }

    lemma EntryValue(k: K)
      requires Valid() && k in entries
      ensures k in Contents() && Contents()[k] == entries[k].value
    {
    }

    /** The pointer that leads to position j of chain b. */
    lemma PositionIn(b: nat, j: nat)
      requires Valid() && b < |chains| && j <= |chains[b]|
      ensures |chains| == buckets.Length && Log2() >= 0
      ensures (if j == 0 then buckets[b] else chains[b][j - 1].next) == if j < |chains[b]| then chains[b][j] else null
    {
      assert Linked(buckets[..][b], chains[b]);
      if j > 0 {
        assert LinkedAt(chains[b], j - 1);
      }
    }
  }

  // The allocator is outside the model: memory says what it answers if it is asked.

  /** allocTable: all buckets null, or no memory. */
  method AllocTable<K, V>(n: nat, memory: bool) returns (t: array?<JSHashEntry?<K, V>>)
    ensures t != null <==> memory
    ensures t != null ==> fresh(t) && t.Length == n && forall i | 0 <= i < n :: t[i] == null
  {
    if memory {
      t := new JSHashEntry?<K, V>[n](_ => null);
    } else {
      t := null;
    }
  }

  /** JS_NewHashTable: an empty table of at least n and at least 16 buckets, if there is
      memory for the table and for its buckets. The size of the vector in bytes is computed modulo 2^32, so beyond
      2^29 the table has no bucket of those its shift promises. */
  method NewHashTable<K(==), V>(n: nat, hashOf: K -> HashNumber, valueCompare: (V, V) -> bool,
                                tableMemory: bool, bucketMemory: bool)
      returns (ht: JSHashTable?<K, V>)
    requires n <= Pow2(31)
    ensures ht != null <==> tableMemory && bucketMemory
    ensures ht != null ==> fresh(ht) && fresh(ht.buckets) && 0 <= ht.Log2()
    ensures ht != null ==> ht.hashOf == hashOf && ht.valueCompare == valueCompare && ht.nentries == 0
    ensures ht != null ==> Pow2(ht.Log2()) >= n && (16 < n ==> Pow2(ht.Log2()) < 2 * n) && (n <= 16 ==> ht.Log2() == 4)
    ensures ht != null ==> (ht.buckets.Length == Pow2(ht.Log2()) <==> n <= Pow2(MAX_BUCKETS_LOG2))
    ensures ht != null && n <= Pow2(MAX_BUCKETS_LOG2) ==>
              ht.Valid() && ht.WithinLoad() && ht.entries == map[] && ht.Contents() == map[]
    ensures ht != null && n > Pow2(MAX_BUCKETS_LOG2) ==> ht.buckets.Length == 0
  {
    hide Pow2, CeilingLog2;
    var log2 := if n <= 16 then MIN_BUCKETS_LOG2 else CeilingLog2(n);
    InitialLog2(n);
    VectorBytes(log2);
    var nb := (Pow2(log2) * 4) % TWO32;
    ht := null;
    if !tableMemory {
      return;
    }
    var t := AllocTable(nb / 4, bucketMemory);
    if t != null {
      ht := new JSHashTable(log2, hashOf, valueCompare, t);
    }
  }

  /** The load bounds in eighths of the buckets: seven to grow, two to shrink. */
  lemma LoadLaw(n: nat, log2: nat)
    requires n == Pow2(log2) && log2 >= MIN_BUCKETS_LOG2
    ensures 8 * Overloaded(n) == 7 * n && 8 * Underloaded(n) == if log2 > MIN_BUCKETS_LOG2 then 2 * n else 0
  {
    Pow2Add(MIN_BUCKETS_LOG2, log2 - MIN_BUCKETS_LOG2);
    assert Pow2(4) == 16;
    Pow2Monotone(MIN_BUCKETS_LOG2, log2);
  }

  /** Chain b now begins with e, the other entries following in their old order. */
  ghost predicate Raised<K, V>(chains: seq<Chain<K, V>>, chains': seq<Chain<K, V>>, b: nat, e: JSHashEntry<K, V>) {
    && b < |chains|
    && exists i | 0 <= i < |chains[b]| :: chains[b][i] == e && chains' == chains[b := Fronted(chains[b], i)]
  }

  lemma MapPlus<K, V>(m: map<K, V>, k: K, v: V)
    requires k !in m
    ensures m[k := v].Keys == m.Keys + {k} && |m[k := v]| == |m| + 1
  {
  }

  lemma MapMinus<K, V>(m: map<K, V>, k: K)
    requires k in m
    ensures (m - {k}).Keys == m.Keys - {k} && |m - {k}| == |m| - 1
  {
    assert m == (m - {k})[k := m[k]];
  }

  lemma SubmapSize<K, V>(a: map<K, V>, m: map<K, V>)
    requires a.Keys <= m.Keys
    ensures |a| <= |m|
    decreases |a|
  {
    assert |a.Keys| == |a| && |m.Keys| == |m|;
    if a != map[] {
      var k :| k in a;
      MapMinus(a, k);
      MapMinus(m, k);
      SubmapSize(a - {k}, m - {k});
    }
  }

  /** The new size of an underloaded table holds its n entries and is smaller. */
  lemma ReallyShrinks(n: nat, log2: nat)
    requires 16 < Pow2(log2) && n < Underloaded(Pow2(log2))
    ensures MIN_BUCKETS_LOG2 < log2 && CeilingLog2(n) < log2 && n <= Pow2(CeilingLog2(n))
    ensures n <= 16 <==> CeilingLog2(n) <= MIN_BUCKETS_LOG2
    ensures Pow2(MIN_BUCKETS_LOG2) == 16
  {
    RoomBelow(log2);
    assert Pow2(4) == 16;
    CeilingLog2Least(n, log2 - 1);
    CeilingLog2Least(n, 4);
    if CeilingLog2(n) < 4 {
      Pow2Monotone(CeilingLog2(n), 4);
    }
  }

  /** The size an enumeration shrinks to can be overloaded: 16 entries left of 128 buckets'
      fit 16 buckets, where the bound is 14. */
  lemma ShrinkOverloads()
    ensures 16 < Underloaded(Pow2(7)) && CeilingLog2(16) <= MIN_BUCKETS_LOG2 && Overloaded(Pow2(MIN_BUCKETS_LOG2)) == 14
  {
    assert Pow2(4) == 16 && Pow2(7) == 8 * Pow2(4);
    CeilingLog2Least(16, 4);
  }

  lemma RoomBelow(log2: nat)
    requires Underloaded(Pow2(log2)) > 0
    ensures log2 > MIN_BUCKETS_LOG2 && Underloaded(Pow2(log2)) <= Pow2(log2 - 1)
  {
    assert Pow2(4) == 16;
    if log2 <= 4 {
      Pow2Monotone(log2, 4);
    }
  }

  lemma RoomAbove(log2: nat)
    requires MIN_BUCKETS_LOG2 <= log2
    ensures 16 <= Pow2(log2) && Pow2(log2 + 1) == 2 * Pow2(log2)
  {
    assert Pow2(4) == 16;
    Pow2Monotone(4, log2);
  }

  lemma Pow2Of30()
    ensures Pow2(30) == 0x4000_0000
  {
    Pow2Add(10, 10);
    Pow2Add(20, 10);
    assert Pow2(10) == 1024;
  }

  lemma InitialLog2(n: nat)
    requires n <= Pow2(31)
    ensures var log2 := if n <= 16 then MIN_BUCKETS_LOG2 else CeilingLog2(n);
            && MIN_BUCKETS_LOG2 <= log2 <= 31 && n <= Pow2(log2) && (16 < n ==> Pow2(log2) < 2 * n)
            && (log2 <= MAX_BUCKETS_LOG2 <==> n <= Pow2(MAX_BUCKETS_LOG2))
  {
    assert Pow2(MIN_BUCKETS_LOG2) == 16;
    if 16 < n {
      CeilingLog2Least(n, 31);
      CeilingLog2Least(n, MAX_BUCKETS_LOG2);
      FloorLog2Bounds(n - 1);
      if CeilingLog2(n) < 4 {
        Pow2Monotone(CeilingLog2(n), 4);
      }
      if CeilingLog2(n) <= MAX_BUCKETS_LOG2 {
        Pow2Monotone(CeilingLog2(n), MAX_BUCKETS_LOG2);
      }
    } else {
      Pow2Monotone(4, MAX_BUCKETS_LOG2);
    }
  }

  lemma VectorBytes(log2: nat)
    requires log2 <= 31
    ensures (Pow2(log2) * 4) % TWO32 / 4 == if log2 <= MAX_BUCKETS_LOG2 then Pow2(log2) else 0
    ensures Pow2(log2) > 0
  {
    Pow2Of30();
    if log2 <= 29 {
      Pow2Monotone(log2, 29);
      assert 2 * Pow2(29) == Pow2(30);
    } else if log2 == 31 {
      assert Pow2(31) == 2 * Pow2(30);
    }
  }

  lemma Above29(log2: nat)
    requires log2 >= 30
    ensures Pow2(log2) >= 0x4000_0000
  {
    Pow2Of30();
    Pow2Monotone(30, log2);
  }

  /** A vector of 2^30 pointers and more is refused. */
  lemma RefusedAbove29(log2: nat)
    ensures Pow2(log2) <= 0xFFFF_FFFF / 4 <==> log2 <= MAX_BUCKETS_LOG2
  {
    if log2 >= 30 {
      Above29(log2);
    } else {
      Pow2Of30();
      Pow2Monotone(log2, 29);
      assert 2 * Pow2(29) == Pow2(30);
    }
  }

  lemma NoChains<K, V>(log2: nat, hashOf: K -> HashNumber, entries: map<K, JSHashEntry<K, V>>, chains: seq<Chain<K, V>>,
                       heads: seq<JSHashEntry?<K, V>>, nodes: set<JSHashEntry<K, V>>)
    requires log2 <= MAX_BUCKETS_LOG2 && |heads| == |chains| == Pow2(log2)
    requires forall b | 0 <= b < |chains| :: chains[b] == [] && heads[b] == null
    ensures Placement(chains, log2, hashOf, entries, {}) && AllLinked(heads, chains, nodes)
  {
  }
}

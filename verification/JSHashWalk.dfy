/** The bookkeeping of JS_HashTableEnumerateEntries in js/jsd/jshash.cpp: which entries
    a walk over the chains has visited, removed and still has ahead of it. */
module JSHashWalk {
  import opened Arith
  import opened HashCore
  import opened JSHashChains

  /** HT_ENUMERATE_REMOVE and HT_ENUMERATE_STOP */
  datatype EnumFlags = EnumFlags(remove: bool, stop: bool)

  /** A JSHashEnumerator: what it answers for an entry's key and value and the count of
      entries visited before. */
  type Enumerator<!K, !V> = (K, V, nat) -> EnumFlags

  /** Keys visited in order, keys not yet visited, and the chains still to walk. */
  datatype Walk<!K, !V> = Walk(visited: seq<K>, unseen: set<K>, pending: seq<Chain<K, V>>)

  /** The visited keys the enumerator asked to remove. */
  ghost function Flagged<K, V>(f: Enumerator<K, V>, visited: seq<K>, m: map<K, V>): set<K> {
    set i | 0 <= i < |visited| && visited[i] in m && f(visited[i], m[visited[i]], i).remove :: visited[i]
  }

  ghost predicate Stops<K, V>(f: Enumerator<K, V>, visited: seq<K>, m: map<K, V>, i: nat) {
    i < |visited| && visited[i] in m && f(visited[i], m[visited[i]], i).stop
  }

  ghost predicate NoStops<K, V>(f: Enumerator<K, V>, visited: seq<K>, m: map<K, V>) {
    forall i | 0 <= i < |visited| :: !Stops(f, visited, m, i)
  }

  ghost predicate DistinctKeys<K>(visited: seq<K>) {
    forall i, j | 0 <= i < j < |visited| :: visited[i] != visited[j]
  }

  /** A finished enumeration: each entry at most once, and either a stop at the last
      one or all of them. */
  ghost predicate Visited<K, V>(f: Enumerator<K, V>, visited: seq<K>, m: map<K, V>) {
    && DistinctKeys(visited)
    && (forall k | k in visited :: k in m)
    && (forall i | 0 <= i < |visited| - 1 :: !Stops(f, visited, m, i))
    && ((|visited| > 0 && Stops(f, visited, m, |visited| - 1)) || (forall k | k in m :: k in visited))
  }

  /** The walk stands before entry j of chain b after n visits. */
  ghost predicate Walking<K, V>(chains: seq<Chain<K, V>>, log2: nat, hashOf: K -> HashNumber,
                                entries: map<K, JSHashEntry<K, V>>, start: map<K, JSHashEntry<K, V>>,
                                f: Enumerator<K, V>, m: map<K, V>, w: Walk<K, V>, n: nat, b: nat, j: nat)
  {
    && Placement(w.pending, log2, hashOf, start, w.unseen)
    && |w.pending| == |chains| && b <= |chains|
    && (forall c | 0 <= c < b :: w.pending[c] == [])
    && (b < |chains| ==> j <= |chains[b]| && w.pending[b] == chains[b][j..])
    && (forall c | b < c < |chains| :: w.pending[c] == chains[c])
    && n == |w.visited| && DistinctKeys(w.visited)
    && (forall k | k in w.visited :: k in start && k !in w.unseen)
    && (forall k | k in start :: k in w.unseen || k in w.visited)
    && n + |w.unseen| == |m| && start.Keys == m.Keys
    && entries == start - Flagged(f, w.visited, m)
  }

  /** What a walk's position says of the visits alone. */
  lemma WalkFacts<K, V>(chains: seq<Chain<K, V>>, log2: nat, hashOf: K -> HashNumber,
                        entries: map<K, JSHashEntry<K, V>>, start: map<K, JSHashEntry<K, V>>,
                        f: Enumerator<K, V>, m: map<K, V>, w: Walk<K, V>, n: nat, b: nat, j: nat)
    requires Walking(chains, log2, hashOf, entries, start, f, m, w, n, b, j)
    ensures n == |w.visited| <= |m| && DistinctKeys(w.visited) && start.Keys == m.Keys
    ensures |w.pending| == |chains| && (b < |chains| ==> w.pending[b] == chains[b][j..])
    ensures forall k | k in w.visited :: k in m
    ensures n == |m| ==> forall k | k in m :: k in w.visited
  {
    hide Placement;
  }

  lemma WalkStarts<K, V>(chains: seq<Chain<K, V>>, log2: nat, hashOf: K -> HashNumber,
                         start: map<K, JSHashEntry<K, V>>, f: Enumerator<K, V>, m: map<K, V>)
    requires Placement(chains, log2, hashOf, start, start.Keys) && start.Keys == m.Keys
    ensures Walking(chains, log2, hashOf, start, start, f, m, Walk([], start.Keys, chains), 0, 0, 0)
    ensures NoStops(f, [], m) && Flagged(f, [], m) == {}
  {
    hide Placement;
    assert |m.Keys| == |m|;
    if chains != [] {
      assert chains[0][0..] == chains[0];
    }
  }

  lemma NextBucket<K, V>(chains: seq<Chain<K, V>>, log2: nat, hashOf: K -> HashNumber,
                         entries: map<K, JSHashEntry<K, V>>, start: map<K, JSHashEntry<K, V>>,
                         f: Enumerator<K, V>, m: map<K, V>, w: Walk<K, V>, n: nat, b: nat)
    requires b < |chains| && Walking(chains, log2, hashOf, entries, start, f, m, w, n, b, |chains[b]|)
    ensures Walking(chains, log2, hashOf, entries, start, f, m, w, n, b + 1, 0)
  {
    hide Placement;
    assert w.pending[b] == [];
    if b + 1 < |chains| {
      assert chains[b + 1][0..] == chains[b + 1];
    }
  }

  lemma FlaggedStep<K, V>(f: Enumerator<K, V>, visited: seq<K>, m: map<K, V>, k: K)
    requires k in m
    ensures Flagged(f, visited + [k], m) ==
      (if f(k, m[k], |visited|).remove then Flagged(f, visited, m) + {k} else Flagged(f, visited, m))
    ensures k !in visited ==> k !in Flagged(f, visited, m)
  {
    var u := visited + [k];
    forall x | x in Flagged(f, visited, m) ensures x in Flagged(f, u, m) {
      var i :| 0 <= i < |visited| && visited[i] in m && f(visited[i], m[visited[i]], i).remove && visited[i] == x;
      assert u[i] == x;
    }
    assert u[|visited|] == k;
    forall x | x in Flagged(f, u, m) && x != k ensures x in Flagged(f, visited, m) {
      var i :| 0 <= i < |u| && u[i] in m && f(u[i], m[u[i]], i).remove && u[i] == x;
      assert visited[i] == x;
    }
  }

  /** The entry at the walk's position is unvisited; visiting it advances the walk. */
  lemma WalkStep<K, V>(chains: seq<Chain<K, V>>, log2: nat, hashOf: K -> HashNumber,
                       entries: map<K, JSHashEntry<K, V>>, start: map<K, JSHashEntry<K, V>>,
                       f: Enumerator<K, V>, m: map<K, V>, w: Walk<K, V>, n: nat, b: nat, j: nat)
    requires Walking(chains, log2, hashOf, entries, start, f, m, w, n, b, j)
    requires b < |chains| && j < |chains[b]|
    ensures var e := chains[b][j];
            e.key in m && e.key in w.unseen && e.key !in w.visited && e.key in entries && entries[e.key] == e && n < |m|
    ensures var k := chains[b][j].key;
            var w' := Walk(w.visited + [k], w.unseen - {k}, w.pending[b := w.pending[b][1..]]);
            if f(k, m[k], n).remove
            then Walking(chains[b := chains[b][..j] + chains[b][j + 1..]], log2, hashOf, entries - {k}, start, f, m,
                         w', n + 1, b, j)
            else Walking(chains, log2, hashOf, entries, start, f, m, w', n + 1, b, j + 1)
  {
    hide Placement, Flagged;
    var e := chains[b][j];
    assert w.pending[b][0] == e;
    PopPlacement(w.pending, log2, hashOf, start, w.unseen, b);
    FlaggedStep(f, w.visited, m, e.key);
    var rest := chains[b][..j] + chains[b][j + 1..];
    assert rest[j..] == w.pending[b][1..] == chains[b][j + 1..];
  }

  lemma StopsPrefix<K, V>(f: Enumerator<K, V>, visited: seq<K>, m: map<K, V>, k: K)
    requires NoStops(f, visited, m) && k in m
    ensures f(k, m[k], |visited|).stop ==> Stops(f, visited + [k], m, |visited|)
    ensures !f(k, m[k], |visited|).stop ==> NoStops(f, visited + [k], m)
    ensures forall i | 0 <= i < |visited| :: !Stops(f, visited + [k], m, i)
  {
    var u := visited + [k];
    forall i | 0 <= i < |visited| ensures !Stops(f, u, m, i) {
      assert u[i] == visited[i] && !Stops(f, visited, m, i);
    }
  }

  /** A stop at the visit just made finishes the enumeration. */
  lemma StoppedVisit<K, V>(f: Enumerator<K, V>, visited: seq<K>, m: map<K, V>, k: K)
    requires NoStops(f, visited, m) && k in m && f(k, m[k], |visited|).stop
    requires DistinctKeys(visited + [k]) && forall x | x in visited :: x in m
    ensures Visited(f, visited + [k], m)
  {
    StopsPrefix(f, visited, m, k);
  }

  /** With nothing unseen, the enumeration has visited every entry. */
  lemma FinishedVisit<K, V>(f: Enumerator<K, V>, w: Walk<K, V>, m: map<K, V>)
    requires NoStops(f, w.visited, m) && DistinctKeys(w.visited)
    requires (forall k | k in w.visited :: k in m) && (forall k | k in m :: k in w.visited)
    ensures Visited(f, w.visited, m)
  {
  }
}

/** mfbt/BloomFilter.h: a counting filter whose 8-bit counters stick at 255. */
module BloomFilter {
  import opened Arith
  import opened Bits

  const KEY_SHIFT: nat := 16
  const UINT8_MAX: nat := 255

  type Hash = Uint32
  type Counter = n: nat | n <= UINT8_MAX witness 0

  function Hash1(hash: Hash, keySize: nat): (i: nat)
    ensures i < Pow2(keySize)
  {
    Mask(hash, keySize)
  }

  function Hash2(hash: Hash, keySize: nat): (i: nat)
    ensures i < Pow2(keySize)
  {
    Mask(Shr(hash, KEY_SHIFT), keySize)
  }

  /** The first key holds the lowest bits of the hash, the second those from bit 16. */
  lemma KeyBits(hash: Hash, keySize: nat, i: nat)
    ensures Bit(Hash1(hash, keySize), i) == if i < keySize then Bit(hash, i) else 0
    ensures Bit(Hash2(hash, keySize), i) == if i < keySize then Bit(hash, KEY_SHIFT + i) else 0
  {
    hide Bit, Pow2;
    MaskedBit(hash, keySize, i);
    FieldBit(hash, KEY_SHIFT, keySize, i);
  }

  /** So two hashes share a key exactly when they agree on the bits that the key uses. */
  lemma SameKeys(g: Hash, h: Hash, keySize: nat)
    ensures Hash1(g, keySize) == Hash1(h, keySize) <==> Agree(g, h, 0, keySize)
    ensures Hash2(g, keySize) == Hash2(h, keySize) <==> Agree(g, h, KEY_SHIFT, KEY_SHIFT + keySize)
  {
    hide Agree, Pow2, Mask, Shr, Field;
    LowField(g, keySize);
    LowField(h, keySize);
    KeyIsField(g, keySize);
    KeyIsField(h, keySize);
    SameField(g, h, 0, keySize);
    SameField(g, h, KEY_SHIFT, keySize);
  }

  lemma KeyIsField(hash: Hash, keySize: nat)
    ensures Hash1(hash, keySize) == Mask(hash, keySize) && Hash2(hash, keySize) == Field(hash, KEY_SHIFT, keySize)
  {
  }

  /** ++slot and --slot on eight bits */
  function Bumped(slot: Counter): Counter { (slot + 1) % 256 }

  function Dropped(slot: Counter): Counter { (slot + 255) % 256 }

  /** A slot that remove hits w times: a full one stays full. */
  function Lowered(slot: Counter, w: nat): Counter
    requires w <= 2
  {
    if w == 0 || slot == UINT8_MAX then slot
    else if w == 1 || Dropped(slot) == UINT8_MAX then Dropped(slot)
    else Dropped(Dropped(slot))
  }

  /** How often a hash hits slot i: twice when its two keys coincide. */
  function Weight(hash: Hash, i: nat, keySize: nat): (w: nat)
    ensures w <= 2
  {
    (if Hash1(hash, keySize) == i then 1 else 0) + if Hash2(hash, keySize) == i then 1 else 0
  }

  ghost function Hits(present: multiset<Hash>, i: nat, keySize: nat): nat
    decreases |present|
  {
    if present == multiset{} then 0
    else var h :| h in present; Weight(h, i, keySize) + Hits(present - multiset{h}, i, keySize)
  }

  lemma {:induction false} HitsWithout(present: multiset<Hash>, h: Hash, i: nat, keySize: nat)
    requires h in present
    ensures Hits(present, i, keySize) == Weight(h, i, keySize) + Hits(present - multiset{h}, i, keySize)
    decreases |present|
  {
    hide Weight;
    var g :| g in present && Hits(present, i, keySize) == Weight(g, i, keySize)
        + Hits(present - multiset{g}, i, keySize);
    if g != h {
      HitsWithout(present - multiset{g}, h, i, keySize);
      HitsWithout(present - multiset{h}, g, i, keySize);
      assert present - multiset{g} - multiset{h} == present - multiset{h} - multiset{g};
    }
  }

  /** A slot is hit exactly when some present hash has it among its keys. */
  lemma {:induction false} HitBySome(present: multiset<Hash>, i: nat, keySize: nat)
    ensures Hits(present, i, keySize) > 0 <==> exists h :: h in present && Weight(h, i, keySize) > 0
    decreases |present|
  {
    forall h | h in present && Weight(h, i, keySize) > 0 ensures Hits(present, i, keySize) > 0 {
      HitsWithout(present, h, i, keySize);
    }
    if Hits(present, i, keySize) > 0 {
      var g :| g in present && Hits(present, i, keySize) == Weight(g, i, keySize)
          + Hits(present - multiset{g}, i, keySize);
      if Weight(g, i, keySize) == 0 {
        HitBySome(present - multiset{g}, i, keySize);
        var h :| h in present - multiset{g} && Weight(h, i, keySize) > 0;
        assert h in present;
      }
    }
  }

  /** The counter of slot i is stuck, or exact. */
  ghost predicate Exact(counter: Counter, present: multiset<Hash>, i: nat, keySize: nat) {
    counter == UINT8_MAX || counter == Hits(present, i, keySize)
  }

  ghost predicate AllExact(counters: seq<Counter>, present: multiset<Hash>, keySize: nat) {
    forall i | 0 <= i < |counters| :: Exact(counters[i], present, i, keySize)
  }

  /** after is before with each counter raised by its hits, up to 255. */
  ghost predicate AllRaised(before: seq<Counter>, after: seq<Counter>, hash: Hash, keySize: nat) {
    |after| == |before| && forall i | 0 <= i < |before| ::
      var c := before[i] + Weight(hash, i, keySize); after[i] == if c > UINT8_MAX then UINT8_MAX else c
  }

  lemma AddKeepsExact(before: seq<Counter>, after: seq<Counter>, present: multiset<Hash>, hash: Hash, keySize: nat)
    requires AllExact(before, present, keySize) && AllRaised(before, after, hash, keySize)
    ensures AllExact(after, present + multiset{hash}, keySize)
  {
    hide Hash1, Hash2, Hits, Weight;
    assert present + multiset{hash} - multiset{hash} == present;
    forall i | 0 <= i < |after| ensures Exact(after[i], present + multiset{hash}, i, keySize) {
      assert Exact(before[i], present, i, keySize);
      HitsWithout(present + multiset{hash}, hash, i, keySize);
    }
  }

  /** after is before with the counters of hash lowered. */
  ghost predicate AllLowered(before: seq<Counter>, after: seq<Counter>, hash: Hash, keySize: nat) {
    |after| == |before| && forall i | 0 <= i < |before| :: after[i] == Lowered(before[i], Weight(hash, i, keySize))
  }

  /** No counter that is not stuck runs below zero. */
  ghost predicate NoUnderflow(before: seq<Counter>, hash: Hash, keySize: nat) {
    forall i | 0 <= i < |before| :: before[i] == UINT8_MAX || before[i] >= Weight(hash, i, keySize)
  }

  /** Each counter of hash is stuck, or so low that lowering it leaves it stuck. */
  ghost predicate Harmless(before: seq<Counter>, hash: Hash, keySize: nat) {
    forall i | 0 <= i < |before| && Weight(hash, i, keySize) > 0 ::
      before[i] == UINT8_MAX || before[i] < Weight(hash, i, keySize)
  }

  lemma RemoveExactly(before: seq<Counter>, after: seq<Counter>, present: multiset<Hash>, hash: Hash, keySize: nat)
    requires AllExact(before, present, keySize) && AllLowered(before, after, hash, keySize)
    ensures AllExact(after, present - multiset{hash}, keySize) <==> hash in present || Harmless(before, hash, keySize)
    ensures hash in present ==> NoUnderflow(before, hash, keySize)
  {
    hide Hash1, Hash2, Hits, Weight;
    if hash in present {
      forall i | 0 <= i < |before|
        ensures Exact(after[i], present - multiset{hash}, i, keySize)
        ensures before[i] == UINT8_MAX || before[i] >= Weight(hash, i, keySize)
      {
        assert Exact(before[i], present, i, keySize);
        HitsWithout(present, hash, i, keySize);
      }
    } else {
      assert present - multiset{hash} == present;
      forall i | 0 <= i < |before|
        ensures Exact(after[i], present, i, keySize) <==>
                (Weight(hash, i, keySize) > 0 ==> before[i] == UINT8_MAX || before[i] < Weight(hash, i, keySize))
      {
        assert Exact(before[i], present, i, keySize);
      }
    }
  }

  class BloomFilter {
    const keySize: nat
    const counters: array<Counter>
    ghost var present: multiset<Hash>

    ghost predicate Sized() {
      keySize <= KEY_SHIFT && counters.Length == Pow2(keySize)
    }

    ghost predicate Valid()
      reads this, counters
    {
      Sized() && AllExact(counters[..], present, keySize)
    }

    constructor (keySize: nat)
      requires keySize <= KEY_SHIFT
      ensures Valid() && fresh(counters) && this.keySize == keySize && present == multiset{}
      ensures forall i | 0 <= i < counters.Length :: counters[i] == 0
    {
      this.keySize, counters, present := keySize, new Counter[Pow2(keySize)](_ => 0), multiset{};
    }

    /** From any state, such as after the removal of hashes that were not present. */
    method Clear()
      requires Sized()
      modifies this, counters
      ensures Valid() && present == multiset{} && forall i | 0 <= i < counters.Length :: counters[i] == 0
    {
      var i := 0;
      while i < counters.Length
        invariant i <= counters.Length && forall j | 0 <= j < i :: counters[j] == 0
      {
        counters[i] := 0;
        i := i + 1;
      }
      present := multiset{};
    }

    /** One more of hash; a full slot stays full. */
    method Add(hash: Hash)
      requires Valid()
      modifies this, counters
      ensures Valid() && present == old(present) + multiset{hash}
      ensures AllRaised(old(counters[..]), counters[..], hash, keySize)
    {
      hide AllExact, AllRaised, Pow2;
      ghost var before := counters[..];
      Bump(hash);
      AddKeepsExact(before, counters[..], present, hash, keySize);
      present := present + multiset{hash};
    }

    /** The two increments. */
    method Bump(hash: Hash)
      requires Sized()
      modifies counters
      ensures AllRaised(old(counters[..]), counters[..], hash, keySize)
    {
      hide Hash1, Hash2, Hits, Pow2;
      var slot1, slot2 := Hash1(hash, keySize), Hash2(hash, keySize);
      if counters[slot1] != UINT8_MAX {
        counters[slot1] := Bumped(counters[slot1]);
      }
      if counters[slot2] != UINT8_MAX {
        counters[slot2] := Bumped(counters[slot2]);
      }
    }

    /** Lowers the counters of any hash. One fewer of a hash that is present keeps every
        counter stuck or exact; the removal of an absent one does exactly if each of its
        counters is stuck or too low, so that it wraps around to stuck. */
    method Remove(hash: Hash)
      requires Sized()
      modifies this, counters
      ensures present == old(present) - multiset{hash}
      ensures AllLowered(old(counters[..]), counters[..], hash, keySize)
      ensures old(Valid()) ==> (Valid() <==> hash in old(present) || Harmless(old(counters[..]), hash, keySize))
      ensures old(Valid()) && hash in old(present) ==> NoUnderflow(old(counters[..]), hash, keySize)
    {
      hide AllExact, AllLowered, NoUnderflow, Harmless, Pow2;
      ghost var before := counters[..];
      Drop(hash);
      present := present - multiset{hash};
      if old(Valid()) {
        RemoveExactly(before, counters[..], old(present), hash, keySize);
      }
    }

    /** The two decrements. */
    method Drop(hash: Hash)
      requires Sized()
      modifies counters
      ensures AllLowered(old(counters[..]), counters[..], hash, keySize)
    {
      hide Hash1, Hash2, Hits, Pow2;
      var slot1, slot2 := Hash1(hash, keySize), Hash2(hash, keySize);
      if counters[slot1] != UINT8_MAX {
        counters[slot1] := Dropped(counters[slot1]);
      }
      if counters[slot2] != UINT8_MAX {
        counters[slot2] := Dropped(counters[slot2]);
      }
    }

    /** Never false for a hash that is present; true only if each of its slots is stuck or
        hit by some present hash. */
    method MightContain(hash: Hash) returns (r: bool)
      requires Sized()
      ensures r <==> counters[Hash1(hash, keySize)] != 0 && counters[Hash2(hash, keySize)] != 0
      ensures Valid() ==> (hash in present ==> r)
      ensures Valid() ==> (r <==> Marked(Hash1(hash, keySize)) && Marked(Hash2(hash, keySize)))
    {
      hide Hash1, Hash2, Hits, Pow2;
      var slot1, slot2 := Hash1(hash, keySize), Hash2(hash, keySize);
      HitBySome(present, slot1, keySize);
      HitBySome(present, slot2, keySize);
      assert Valid() ==> Exact(counters[slot1], present, slot1, keySize);
      assert Valid() ==> Exact(counters[slot2], present, slot2, keySize);
      assert Weight(hash, slot1, keySize) > 0 && Weight(hash, slot2, keySize) > 0;
      r := counters[slot1] != 0 && counters[slot2] != 0;
    }

    ghost predicate Marked(i: nat)
      requires i < counters.Length
      reads this, counters
    {
      counters[i] == UINT8_MAX || exists h :: h in present && Weight(h, i, keySize) > 0
    }
  }

  /** With 1 added and 2 * 2^16 + 1, which shares a key with it, removed without having
      been added, the filter denies the presence of 1. */
  method ForgetsAfterAbsentRemoval() returns (f: BloomFilter, r: bool)
    ensures 1 in f.present && !r
  {
    hide Hits, Weight, Hash1, Hash2, Pow2, Exact;
    f := new BloomFilter(KEY_SHIFT);
    SharedKey();
    f.Add(1);
    assert f.counters[..][1] == 1;
    f.Remove(0x2_0001);
    assert f.counters[..][1] == 0;
    r := f.MightContain(1);
  }

  lemma SharedKey()
    ensures Hash1(1, 16) == 1 && Weight(1, 1, 16) == Weight(0x2_0001, 1, 16) == 1 && Pow2(16) > 1
  {
    Pow2Of16();
  }

  lemma Pow2Of16()
    ensures Pow2(16) == 0x1_0000
  {
    Pow2Add(8, 8);
    assert Pow2(8) == 256;
  }
}

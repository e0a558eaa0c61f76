/** The operations of mfbt/SplayTree.h on tree values refine a sorted set, for every
    comparator that is a strict order. */
module SplaySet {
  import opened SplayModel

  type Comparator<!V> = (V, V) -> int

  /** compare(a, b) < 0, == 0, > 0 is a total order up to equivalence. */
  ghost predicate StrictOrder<V(!new)>(cmp: Comparator<V>) {
    && (forall a, b :: cmp(a, b) < 0 <==> cmp(b, a) > 0)
    && (forall a, b, c :: cmp(a, b) <= 0 && cmp(b, c) <= 0 ==> cmp(a, c) <= 0)
  }

  ghost predicate Sorted<V>(cmp: Comparator<V>, s: seq<V>) {
    forall i, j | 0 <= i < j < |s| :: cmp(s[i], s[j]) < 0
  }

  ghost predicate AllBelow<V>(cmp: Comparator<V>, s: seq<V>, v: V) {
    forall i | 0 <= i < |s| :: cmp(v, s[i]) > 0
  }

  ghost predicate AllAbove<V>(cmp: Comparator<V>, v: V, s: seq<V>) {
    forall i | 0 <= i < |s| :: cmp(v, s[i]) < 0
  }

  /** Some element of s compares equal to v. */
  ghost predicate Has<V>(cmp: Comparator<V>, s: seq<V>, v: V) {
    exists i | 0 <= i < |s| :: cmp(v, s[i]) == 0
  }

  // ---------- lookup ----------

  /** lookup(v): the last node met when searching for v from t, and the way to it. */
  function Descend<N, V>(cmp: Comparator<V>, c: Path<N, V>, t: Tree<N, V>, v: V): (r: (Path<N, V>, Tree<N, V>))
    requires t.Bin?
    ensures r.1.Bin? && Plug(r.0, r.1) == Plug(c, t)
    decreases t
  {
    var d := cmp(v, t.val);
    if d < 0 && t.left.Bin? then Descend(cmp, LeftOf(t.node, t.val, t.right, c), t.left, v)
    else if d > 0 && t.right.Bin? then Descend(cmp, RightOf(t.left, t.node, t.val, c), t.right, v)
    else (c, t)
  }

  /** Where the search ends: on an equal element, or at the gap where v belongs. */
  ghost predicate Located<N, V>(cmp: Comparator<V>, d: Path<N, V>, f: Tree<N, V>, v: V) {
    && f.Bin?
    && (cmp(v, f.val) < 0 ==> f.left.Leaf? && AllBelow(cmp, Before(d), v) && AllAbove(cmp, v, InOrder(f) + After(d)))
    && (cmp(v, f.val) > 0 ==> f.right.Leaf? && AllBelow(cmp, Before(d) + InOrder(f), v) && AllAbove(cmp, v, After(d)))
  }

  // In a sorted sequence, comparing v with one element settles one side.
  lemma SplitByCompare<V(!new)>(cmp: Comparator<V>, a: seq<V>, x: V, b: seq<V>, v: V)
    requires StrictOrder(cmp) && Sorted(cmp, a + [x] + b)
    ensures cmp(v, x) < 0 ==> AllAbove(cmp, v, [x] + b)
    ensures cmp(v, x) > 0 ==> AllBelow(cmp, a + [x], v)
  {
    var s, k := a + [x] + b, |a|;
    if cmp(v, x) < 0 {
      forall i | 0 <= i < |[x] + b| ensures cmp(v, ([x] + b)[i]) < 0 {
        assert ([x] + b)[i] == s[k + i];
        assert i > 0 ==> cmp(s[k], s[k + i]) < 0;
      }
    }
    if cmp(v, x) > 0 {
      forall i | 0 <= i < |a + [x]| ensures cmp(v, (a + [x])[i]) > 0 {
        assert (a + [x])[i] == s[i];
        assert i < k ==> cmp(s[i], s[k]) < 0;
        assert cmp(x, v) < 0;
      }
    }
  }

  // Comparing v with the root of t settles everything on one side of that root.
  lemma CompareAtNode<N, V(!new)>(cmp: Comparator<V>, c: Path<N, V>, t: Tree<N, V>, v: V)
    requires StrictOrder(cmp) && t.Bin? && Sorted(cmp, InOrder(Plug(c, t)))
    ensures cmp(v, t.val) < 0 ==> AllAbove(cmp, v, [t.val] + InOrder(t.right) + After(c))
    ensures cmp(v, t.val) > 0 ==> AllBelow(cmp, Before(c) + InOrder(t.left) + [t.val], v)
  {
    hide Plug, Before, After, Sorted, StrictOrder, AllAbove, AllBelow;
    PlugInOrder(c, t);
    Regroup(Before(c), InOrder(t.left), [t.val], InOrder(t.right), After(c));
    RegroupMiddle(Before(c) + InOrder(t.left), t.val, InOrder(t.right), After(c));
    SplitByCompare(cmp, Before(c) + InOrder(t.left), t.val, InOrder(t.right) + After(c), v);
  }

  lemma RegroupMiddle<V>(a: seq<V>, x: V, r: seq<V>, b: seq<V>)
    ensures a + ([x] + r + b) == a + [x] + (r + b)
    ensures (a + [x]) + r + b == a + [x] + (r + b)
    ensures [x] + r + b == [x] + (r + b)
  {
  }

  lemma {:induction false} DescendLocates<N, V(!new)>(cmp: Comparator<V>, c: Path<N, V>, t: Tree<N, V>, v: V)
    requires StrictOrder(cmp) && t.Bin? && Sorted(cmp, InOrder(Plug(c, t)))
    requires AllBelow(cmp, Before(c), v) && AllAbove(cmp, v, After(c))
    ensures var (d, f) := Descend(cmp, c, t, v); Located(cmp, d, f, v)
    decreases t
  {
    hide StrictOrder, Sorted, AllAbove, AllBelow;
    CompareAtNode(cmp, c, t, v);
    if cmp(v, t.val) < 0 {
      if t.left.Bin? {
        DescendLocates(cmp, LeftOf(t.node, t.val, t.right, c), t.left, v);
      } else {
        assert InOrder(t) == [t.val] + InOrder(t.right);
      }
    } else if cmp(v, t.val) > 0 {
      if t.right.Bin? {
        DescendLocates(cmp, RightOf(t.left, t.node, t.val, c), t.right, v);
      } else {
        assert Before(c) + InOrder(t) == Before(c) + InOrder(t.left) + [t.val];
      }
    }
  }

  /** The search ends on an equal element exactly when there is one. */
  lemma LookupFinds<N, V(!new)>(cmp: Comparator<V>, t: Tree<N, V>, v: V)
    requires StrictOrder(cmp) && t.Bin? && Sorted(cmp, InOrder(t))
    ensures var (d, f) := Descend(cmp, Top, t, v);
            Located(cmp, d, f, v) && (cmp(v, f.val) == 0 <==> Has(cmp, InOrder(t), v))
  {
    hide StrictOrder, Sorted, Has;
    DescendLocates(cmp, Top, t, v);
    var (d, f) := Descend(cmp, Top, t, v);
    PlugInOrder(d, f);
    LocatedHas(cmp, Before(d), InOrder(f.left), f.val, InOrder(f.right), After(d), v);
  }

  lemma LocatedHas<V>(cmp: Comparator<V>, a: seq<V>, l: seq<V>, x: V, r: seq<V>, b: seq<V>, v: V)
    requires cmp(v, x) < 0 ==> AllBelow(cmp, a, v) && AllAbove(cmp, v, (l + [x] + r) + b)
    requires cmp(v, x) > 0 ==> AllBelow(cmp, a + (l + [x] + r), v) && AllAbove(cmp, v, b)
    ensures cmp(v, x) == 0 <==> Has(cmp, a + (l + [x] + r) + b, v)
  {
    var m := l + [x] + r;
    assert a + m + b == a + (m + b);
    if cmp(v, x) < 0 {
      ApartHasNot(cmp, a, m + b, v);
    } else if cmp(v, x) > 0 {
      ApartHasNot(cmp, a + m, b, v);
    } else {
      assert (a + m + b)[|a| + |l|] == x;
    }
  }

  lemma ApartHasNot<V>(cmp: Comparator<V>, a: seq<V>, b: seq<V>, v: V)
    requires AllBelow(cmp, a, v) && AllAbove(cmp, v, b)
    ensures !Has(cmp, a + b, v)
  {
    forall i | 0 <= i < |a + b| ensures cmp(v, (a + b)[i]) != 0 {
      if i >= |a| {
        assert (a + b)[i] == b[i - |a|];
      }
    }
  }

  // ---------- the operations on tree values ----------

  function ContainsTree<N, V>(cmp: Comparator<V>, t: Tree<N, V>, v: V): Tree<N, V> {
    if t.Leaf? then t
    else
      var (d, f) := Descend(cmp, Top, t, v);
      Splay(d, f)
  }

  /** The path to the fresh leaf that insert hangs below the node lookup ended on. */
  function InsertPath<N, V>(cmp: Comparator<V>, t: Tree<N, V>, v: V): (p: Path<N, V>)
    requires t.Bin?
    ensures !p.Top?
  {
    var (d, f) := Descend(cmp, Top, t, v);
    if cmp(v, f.val) < 0 then LeftOf(f.node, f.val, f.right, d) else RightOf(f.left, f.node, f.val, d)
  }

  function InsertTree<N, V>(cmp: Comparator<V>, t: Tree<N, V>, n: N, v: V): Tree<N, V> {
    var leaf := Bin(Leaf, n, v, Leaf);
    if t.Leaf? then leaf else Splay(InsertPath(cmp, t, v), leaf)
  }

  /** The rightmost node of a tree, and the way to it. */
  function RightSpine<N, V>(c: Path<N, V>, t: Tree<N, V>): (r: (Path<N, V>, Tree<N, V>))
    requires t.Bin?
    ensures r.1.Bin? && r.1.right.Leaf? && Plug(r.0, r.1) == Plug(c, t) && (r.0.Top? ==> c.Top?)
    decreases t
  {
    if t.right.Leaf? then (c, t) else RightSpine(RightOf(t.left, t.node, t.val, c), t.right)
  }

  function LeftSpine<N, V>(c: Path<N, V>, t: Tree<N, V>): (r: (Path<N, V>, Tree<N, V>))
    requires t.Bin?
    ensures r.1.Bin? && r.1.left.Leaf? && Plug(r.0, r.1) == Plug(c, t) && (r.0.Top? ==> c.Top?)
    decreases t
  {
    if t.left.Leaf? then (c, t) else LeftSpine(LeftOf(t.node, t.val, t.right, c), t.left)
  }

  /** The tree left when the root is taken out: the rightmost node of the left subtree,
      or else the leftmost of the right one, takes its place. */
  function DropRoot<N, V>(t: Tree<N, V>): Tree<N, V>
    requires t.Bin?
  {
    if t.left.Bin? then
      var (c, m) := RightSpine(Top, t.left);
      Bin(Plug(c, m.left), m.node, m.val, t.right)
    else if t.right.Bin? then
      var (c, m) := LeftSpine(Top, t.right);
      Bin(Leaf, m.node, m.val, Plug(c, m.right))
    else
      Leaf
  }

  function RemoveTree<N, V>(cmp: Comparator<V>, t: Tree<N, V>, v: V): Tree<N, V>
    requires t.Bin?
  {
    DropRoot(ContainsTree(cmp, t, v))
  }

  // ---------- refinement ----------

  lemma ContainsKeeps<N, V>(cmp: Comparator<V>, t: Tree<N, V>, v: V)
    ensures InOrder(ContainsTree(cmp, t, v)) == InOrder(t)
    ensures Nodes(ContainsTree(cmp, t, v)) == Nodes(t)
  {
    if t.Bin? {
      var (d, f) := Descend(cmp, Top, t, v);
      SplayInOrder(d, f);
    }
  }

  /** The path insert chooses ends in the gap where v belongs. */
  lemma InsertPathGap<N, V(!new)>(cmp: Comparator<V>, t: Tree<N, V>, v: V)
    requires StrictOrder(cmp) && t.Bin? && Sorted(cmp, InOrder(t)) && !Has(cmp, InOrder(t), v)
    ensures var p := InsertPath(cmp, t, v);
            Plug(p, Leaf) == t && InOrder(t) == Before(p) + After(p)
            && AllBelow(cmp, Before(p), v) && AllAbove(cmp, v, After(p))
  {
    hide StrictOrder, Sorted, Has, AllAbove, AllBelow;
    LookupFinds(cmp, t, v);
    var (d, f) := Descend(cmp, Top, t, v);
    var p := InsertPath(cmp, t, v);
    PlugInOrder(p, Leaf);
    assert Attach(p, Leaf) == f;
    assert Before(p) + [] + After(p) == Before(p) + After(p);
    if cmp(v, f.val) < 0 {
      assert InOrder(f) == [f.val] + InOrder(f.right);
    } else {
      assert Before(d) + (InOrder(f.left) + [f.val] + []) == Before(d) + InOrder(f.left) + [f.val];
    }
  }

  /** Inserting an absent value puts it at its place in the in-order sequence. */
  lemma InsertRefines<N, V(!new)>(cmp: Comparator<V>, t: Tree<N, V>, n: N, v: V) returns (k: nat)
    requires StrictOrder(cmp) && Sorted(cmp, InOrder(t)) && !Has(cmp, InOrder(t), v)
    ensures k <= |InOrder(t)|
    ensures InOrder(InsertTree(cmp, t, n, v)) == InOrder(t)[..k] + [v] + InOrder(t)[k..]
    ensures Sorted(cmp, InOrder(InsertTree(cmp, t, n, v)))
    ensures Nodes(InsertTree(cmp, t, n, v)) == Nodes(t) + {n}
  {
    var s, leaf := InOrder(t), Bin(Leaf, n, v, Leaf);
    if t.Leaf? {
      k := 0;
      return;
    }
    var p := InsertPath(cmp, t, v);
    InsertPathGap(cmp, t, v);
    SplayInOrder(p, leaf);
    PlugInOrder(p, leaf);
    PlugNodes(p, leaf);
    PlugNodes(p, Leaf);
    k := |Before(p)|;
    assert s[..k] == Before(p) && s[k..] == After(p);
    assert InOrder(leaf) == [v];
    SortedInsert(cmp, Before(p), v, After(p));
  }

  lemma BelowFlips<V(!new)>(cmp: Comparator<V>, a: seq<V>, v: V)
    requires StrictOrder(cmp) && AllBelow(cmp, a, v)
    ensures forall i | 0 <= i < |a| :: cmp(a[i], v) < 0
  {
  }

  lemma SortedInsert<V(!new)>(cmp: Comparator<V>, a: seq<V>, v: V, b: seq<V>)
    requires StrictOrder(cmp) && Sorted(cmp, a + b) && AllBelow(cmp, a, v) && AllAbove(cmp, v, b)
    ensures Sorted(cmp, a + [v] + b)
  {
    hide StrictOrder;
    BelowFlips(cmp, a, v);
    var s, u := a + b, a + [v] + b;
    forall i, j | 0 <= i < j < |u| ensures cmp(u[i], u[j]) < 0 {
      if i == |a| {
        assert u[j] == b[j - |a| - 1];
      } else if j == |a| {
        assert u[i] == a[i];
      } else {
        assert u[i] == s[if i < |a| then i else i - 1];
        assert u[j] == s[if j < |a| then j else j - 1];
      }
    }
  }

  lemma SpineSeq<V>(a: seq<V>, b: seq<V>, x: V)
    ensures a + (b + [x] + []) + [] == (a + b + []) + [x]
    ensures [] + ([] + [x] + b) + a == [x] + ([] + b + a)
  {
  }

  lemma RightSpineInOrder<N, V>(t: Tree<N, V>)
    requires t.Bin?
    ensures var (c, m) := RightSpine(Top, t);
            InOrder(t) == InOrder(Plug(c, m.left)) + [m.val] && Nodes(t) == Nodes(Plug(c, m.left)) + {m.node}
  {
    var (c, m) := RightSpine(Top, t);
    RightSpineLast(Top, t);
    PlugInOrder(c, m);
    PlugInOrder(c, m.left);
    PlugNodes(c, m);
    PlugNodes(c, m.left);
    SpineSeq(Before(c), InOrder(m.left), m.val);
  }

  lemma LeftSpineInOrder<N, V>(t: Tree<N, V>)
    requires t.Bin?
    ensures var (c, m) := LeftSpine(Top, t);
            InOrder(t) == [m.val] + InOrder(Plug(c, m.right)) && Nodes(t) == Nodes(Plug(c, m.right)) + {m.node}
  {
    var (c, m) := LeftSpine(Top, t);
    LeftSpineFirst(Top, t);
    PlugInOrder(c, m);
    PlugInOrder(c, m.right);
    PlugNodes(c, m);
    PlugNodes(c, m.right);
    SpineSeq(After(c), InOrder(m.right), m.val);
  }

  /** Taking out the root removes just its value from the in-order sequence. */
  lemma DropRootInOrder<N, V>(t: Tree<N, V>)
    requires t.Bin?
    ensures InOrder(DropRoot(t)) == InOrder(t.left) + InOrder(t.right)
    ensures Nodes(DropRoot(t)) + {t.node} == Nodes(t)
  {
    if t.left.Bin? {
      RightSpineInOrder(t.left);
    } else if t.right.Bin? {
      LeftSpineInOrder(t.right);
    }
  }

  lemma {:induction false} RightSpineLast<N, V>(c: Path<N, V>, t: Tree<N, V>)
    requires t.Bin?
    ensures After(RightSpine(c, t).0) == After(c)
    decreases t
  {
    if t.right.Bin? {
      RightSpineLast(RightOf(t.left, t.node, t.val, c), t.right);
    }
  }

  lemma {:induction false} LeftSpineFirst<N, V>(c: Path<N, V>, t: Tree<N, V>)
    requires t.Bin?
    ensures Before(LeftSpine(c, t).0) == Before(c)
    decreases t
  {
    if t.left.Bin? {
      LeftSpineFirst(LeftOf(t.node, t.val, t.right, c), t.left);
    }
  }

  /** Removing a present value deletes the one element that compares equal to it. */
  lemma RemoveRefines<N, V(!new)>(cmp: Comparator<V>, t: Tree<N, V>, v: V) returns (k: nat)
    requires StrictOrder(cmp) && Sorted(cmp, InOrder(t)) && Has(cmp, InOrder(t), v)
    ensures t.Bin? && k < |InOrder(t)| && cmp(v, InOrder(t)[k]) == 0
    ensures ContainsTree(cmp, t, v).Bin? && InOrder(t)[k] == ContainsTree(cmp, t, v).val
    ensures InOrder(RemoveTree(cmp, t, v)) == InOrder(t)[..k] + InOrder(t)[k + 1..]
    ensures Sorted(cmp, InOrder(RemoveTree(cmp, t, v)))
    ensures Nodes(RemoveTree(cmp, t, v)) + {ContainsTree(cmp, t, v).node} == Nodes(t)
  {
    LookupFinds(cmp, t, v);
    ContainsKeeps(cmp, t, v);
    var s := ContainsTree(cmp, t, v);
    DropRootInOrder(s);
    k := |InOrder(s.left)|;
    assert InOrder(t) == InOrder(s.left) + [s.val] + InOrder(s.right);
    assert InOrder(t)[..k] == InOrder(s.left) && InOrder(t)[k + 1..] == InOrder(s.right);
    SortedDelete(cmp, InOrder(t), k);
  }

  lemma SortedDelete<V>(cmp: Comparator<V>, s: seq<V>, k: nat)
    requires Sorted(cmp, s) && k < |s|
    ensures Sorted(cmp, s[..k] + s[k + 1..])
  {
  }

  // ---------- spines seen from further up ----------

  /** The path c continued by the path base. */
  function Above<N, V>(c: Path<N, V>, base: Path<N, V>): Path<N, V> {
    match c
    case Top => base
    case LeftOf(p, v, r, up) => LeftOf(p, v, r, Above(up, base))
    case RightOf(l, p, v, up) => RightOf(l, p, v, Above(up, base))
  }

  lemma {:induction false} PlugAbove<N, V>(c: Path<N, V>, base: Path<N, V>, t: Tree<N, V>)
    ensures Plug(Above(c, base), t) == Plug(base, Plug(c, t))
  {
    if !c.Top? {
      PlugAbove(c.up, base, Attach(c, t));
      assert Attach(Above(c, base), t) == Attach(c, t);
    }
  }

  lemma {:induction false} RightSpineAbove<N, V>(c: Path<N, V>, base: Path<N, V>, t: Tree<N, V>)
    requires t.Bin?
    ensures RightSpine(Above(c, base), t) == (Above(RightSpine(c, t).0, base), RightSpine(c, t).1)
    decreases t
  {
    if t.right.Bin? {
      RightSpineAbove(RightOf(t.left, t.node, t.val, c), base, t.right);
    }
  }

  lemma {:induction false} LeftSpineAbove<N, V>(c: Path<N, V>, base: Path<N, V>, t: Tree<N, V>)
    requires t.Bin?
    ensures LeftSpine(Above(c, base), t) == (Above(LeftSpine(c, t).0, base), LeftSpine(c, t).1)
    decreases t
  {
    if t.left.Bin? {
      LeftSpineAbove(LeftOf(t.node, t.val, t.right, c), base, t.left);
    }
  }

  /** Seen from the root, detaching the spine's end leaves the root over the rest. */
  lemma DetachLeft<N, V>(t: Tree<N, V>)
    requires t.Bin? && t.left.Bin?
    ensures var (c, m) := RightSpine(LeftOf(t.node, t.val, t.right, Top), t.left);
            var u := Plug(c, m.left);
            u.Bin? && u.node == t.node && u.val == t.val
            && DropRoot(t) == Bin(u.left, m.node, m.val, u.right)
  {
    var base := LeftOf(t.node, t.val, t.right, Top);
    RightSpineAbove(Top, base, t.left);
    var (c, m) := RightSpine(Top, t.left);
    PlugAbove(c, base, m.left);
  }

  lemma DetachRight<N, V>(t: Tree<N, V>)
    requires t.Bin? && t.left.Leaf? && t.right.Bin?
    ensures var (c, m) := LeftSpine(RightOf(Leaf, t.node, t.val, Top), t.right);
            var u := Plug(c, m.right);
            u.Bin? && u.node == t.node && u.val == t.val
            && DropRoot(t) == Bin(u.left, m.node, m.val, u.right)
  {
    var base: Path<N, V> := RightOf(Leaf, t.node, t.val, Top);
    LeftSpineAbove(Top, base, t.right);
    var (c, m) := LeftSpine(Top, t.right);
    PlugAbove(c, base, m.right);
  }
}

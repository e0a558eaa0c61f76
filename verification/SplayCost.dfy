/** The amortized bound of mfbt/SplayTree.h: with the sum of floor(log2(subtree size))
    as potential, m operations on trees of at most n nodes take at most
    m * (4 * floor(log2 n) + 1) splay steps. */
module SplayCost {
  import opened Arith
  import opened SplayModel
  import opened SplaySet

  lemma {:induction false} Log2Monotone(a: nat, b: nat)
    requires a <= b
    ensures FloorLog2(a) <= FloorLog2(b)
  {
    if a > 1 {
      Log2Monotone(a / 2, b / 2);
    }
  }

  // Two parts of at least 2^k each make a whole of at least 2^(k+1).
  lemma {:induction false} Log2Sum(a: nat, b: nat, k: nat)
    requires a > 0 && b > 0 && FloorLog2(a) >= k && FloorLog2(b) >= k
    ensures FloorLog2(a + b) >= k + 1
  {
    if k > 0 {
      Log2Sum(a / 2, b / 2, k - 1);
      Log2Monotone(a / 2 + b / 2, (a + b) / 2);
    }
  }

  lemma {:induction false} Log2Successor(n: nat)
    requires n > 0
    ensures FloorLog2(n + 1) <= FloorLog2(n) + 1
  {
    Log2Monotone(n + 1, 2 * n);
    assert (2 * n) / 2 == n;
  }

  function Size<N, V>(t: Tree<N, V>): nat {
    match t
    case Leaf => 0
    case Bin(l, _, _, r) => Size(l) + 1 + Size(r)
  }

  function Rank<N, V>(t: Tree<N, V>): nat {
    FloorLog2(Size(t))
  }

  function Potential<N, V>(t: Tree<N, V>): nat {
    match t
    case Leaf => 0
    case Bin(l, _, _, r) => Potential(l) + Potential(r) + Rank(t)
  }

  lemma {:induction false} SizeIsLength<N, V>(t: Tree<N, V>)
    ensures Size(t) == |InOrder(t)|
  {
    if t.Bin? {
      SizeIsLength(t.left);
      SizeIsLength(t.right);
    }
  }

  lemma BinFacts<N, V>(l: Tree<N, V>, n: N, v: V, r: Tree<N, V>)
    ensures var t := Bin(l, n, v, r);
            Size(t) == Size(l) + 1 + Size(r) && Potential(t) == Potential(l) + Potential(r) + Rank(t)
  {
  }

  // ---------- one splay ----------

  // The ranks in a double step: t below y below w becomes u, with two nodes below it.
  lemma DoubleStepArithmetic(rest: int, rt: int, ry: int, rw: int, rm: int, rz: int, pw: int, pu: int)
    requires pw == rest + rt + ry + rw && pu == rest + rw + rm + rz
    requires rt <= ry <= rw && rm <= rw && rz <= rw && (rt < rw || rm < rw || rz < rw)
    ensures 1 + pu <= pw + 3 * (rw - rt)
  {
  }

  ghost predicate Pays<N, V>(w: Tree<N, V>, u: Tree<N, V>, t: Tree<N, V>) {
    Size(u) == Size(w) && 1 + Potential(u) <= Potential(w) + 3 * (Rank(u) - Rank(t))
  }

  lemma ZigZigLeftPays<N, V>(a: Tree<N, V>, x: N, xv: V, b: Tree<N, V>, p: N, pv: V, c: Tree<N, V>, g: N, gv: V,
                             d: Tree<N, V>)
    ensures var t := Bin(a, x, xv, b);
            Pays(Bin(Bin(t, p, pv, c), g, gv, d), Bin(a, x, xv, Bin(b, p, pv, Bin(c, g, gv, d))), t)
  {
    hide FloorLog2, Size, Potential;
    var t, z := Bin(a, x, xv, b), Bin(c, g, gv, d);
    var y, m := Bin(t, p, pv, c), Bin(b, p, pv, z);
    var w, u := Bin(y, g, gv, d), Bin(a, x, xv, m);
    BinFacts(a, x, xv, b); BinFacts(t, p, pv, c); BinFacts(y, g, gv, d);
    BinFacts(c, g, gv, d); BinFacts(b, p, pv, z); BinFacts(a, x, xv, m);
    Ranks3(Size(t), Size(y), Size(w));
    Ranks3(Size(z), Size(m), Size(u));
    TwoParts(Size(t), Size(z), Size(u));
    DoubleStepArithmetic(Potential(a) + Potential(b) + Potential(c) + Potential(d),
                     Rank(t), Rank(y), Rank(w), Rank(m), Rank(z), Potential(w), Potential(u));
  }

  lemma ZigZigRightPays<N, V>(a: Tree<N, V>, g: N, gv: V, b: Tree<N, V>, p: N, pv: V, c: Tree<N, V>, x: N, xv: V,
                              d: Tree<N, V>)
    ensures var t := Bin(c, x, xv, d);
            Pays(Bin(a, g, gv, Bin(b, p, pv, t)), Bin(Bin(Bin(a, g, gv, b), p, pv, c), x, xv, d), t)
  {
    hide FloorLog2, Size, Potential;
    var t, z := Bin(c, x, xv, d), Bin(a, g, gv, b);
    var y, m := Bin(b, p, pv, t), Bin(z, p, pv, c);
    var w, u := Bin(a, g, gv, y), Bin(m, x, xv, d);
    BinFacts(c, x, xv, d); BinFacts(b, p, pv, t); BinFacts(a, g, gv, y);
    BinFacts(a, g, gv, b); BinFacts(z, p, pv, c); BinFacts(m, x, xv, d);
    Ranks3(Size(t), Size(y), Size(w));
    Ranks3(Size(z), Size(m), Size(u));
    TwoParts(Size(t), Size(z), Size(u));
    DoubleStepArithmetic(Potential(a) + Potential(b) + Potential(c) + Potential(d),
                     Rank(t), Rank(y), Rank(w), Rank(m), Rank(z), Potential(w), Potential(u));
  }

  lemma ZigZagPays<N, V>(a: Tree<N, V>, g: N, gv: V, b: Tree<N, V>, x: N, xv: V, c: Tree<N, V>, p: N, pv: V,
                         d: Tree<N, V>)
    ensures var t := Bin(b, x, xv, c);
            Pays(Bin(a, g, gv, Bin(t, p, pv, d)), Bin(Bin(a, g, gv, b), x, xv, Bin(c, p, pv, d)), t)
    ensures var t := Bin(b, x, xv, c);
            Pays(Bin(Bin(a, g, gv, t), p, pv, d), Bin(Bin(a, g, gv, b), x, xv, Bin(c, p, pv, d)), t)
  {
    hide FloorLog2, Size, Potential;
    var rest := Potential(a) + Potential(b) + Potential(c) + Potential(d);
    var t, l, r := Bin(b, x, xv, c), Bin(a, g, gv, b), Bin(c, p, pv, d);
    var u := Bin(l, x, xv, r);
    BinFacts(b, x, xv, c); BinFacts(a, g, gv, b); BinFacts(c, p, pv, d); BinFacts(l, x, xv, r);
    Ranks3(Size(l), Size(l), Size(u));
    Ranks3(Size(r), Size(r), Size(u));
    TwoParts(Size(l), Size(r), Size(u));
    {
      var y := Bin(t, p, pv, d);
      var w := Bin(a, g, gv, y);
      BinFacts(t, p, pv, d); BinFacts(a, g, gv, y);
      Ranks3(Size(t), Size(y), Size(w));
      DoubleStepArithmetic(rest, Rank(t), Rank(y), Rank(w), Rank(l), Rank(r), Potential(w), Potential(u));
    }
    {
      var y := Bin(a, g, gv, t);
      var w := Bin(y, p, pv, d);
      BinFacts(a, g, gv, t); BinFacts(y, p, pv, d);
      Ranks3(Size(t), Size(y), Size(w));
      DoubleStepArithmetic(rest, Rank(t), Rank(y), Rank(w), Rank(l), Rank(r), Potential(w), Potential(u));
    }
  }

  lemma Ranks3(a: nat, b: nat, c: nat)
    requires a <= b <= c
    ensures FloorLog2(a) <= FloorLog2(b) <= FloorLog2(c)
  {
    Log2Monotone(a, b);
    Log2Monotone(b, c);
  }

  /** A zig-zig or zig-zag step pays for itself with three times the rank it gains. */
  lemma DoubleStepPays<N, V>(c: Path<N, V>, t: Tree<N, V>)
    requires !c.Top? && !c.up.Top? && t.Bin?
    ensures Pays(Attach(c.up, Attach(c, t)), DoubleStep(c, t), t)
  {
    hide Pays;
    match (c, c.up) {
      case (LeftOf(p, pv, pr, _), LeftOf(g, gv, gr, _)) =>
        ZigZigLeftPays(t.left, t.node, t.val, t.right, p, pv, pr, g, gv, gr);
      case (RightOf(pl, p, pv, _), RightOf(gl, g, gv, _)) =>
        ZigZigRightPays(gl, g, gv, pl, p, pv, t.left, t.node, t.val, t.right);
      case (LeftOf(p, pv, pr, _), RightOf(gl, g, gv, _)) =>
        ZigZagPays(gl, g, gv, t.left, t.node, t.val, t.right, p, pv, pr);
      case (RightOf(pl, p, pv, _), LeftOf(g, gv, gr, _)) =>
        ZigZagPays(pl, p, pv, t.left, t.node, t.val, t.right, g, gv, gr);
    }
  }

  // Two disjoint parts cannot both have the rank of the whole.
  lemma TwoParts(a: nat, b: nat, n: nat)
    requires a > 0 && b > 0 && a + b <= n
    ensures FloorLog2(a) < FloorLog2(n) || FloorLog2(b) < FloorLog2(n)
  {
    Log2Monotone(a + b, n);
    if FloorLog2(a) >= FloorLog2(n) && FloorLog2(b) >= FloorLog2(n) {
      Log2Sum(a, b, FloorLog2(n));
    }
  }

  /** The last step, when the parent is the root, costs at most one more. */
  lemma ZigPays<N, V>(c: Path<N, V>, t: Tree<N, V>)
    requires !c.Top? && t.Bin?
    ensures var w, u := Attach(c, t), Rotated(c, t);
            Size(u) == Size(w) && Potential(u) <= Potential(w) + 3 * (Rank(u) - Rank(t)) && Rank(t) <= Rank(u)
  {
    var w, u := Attach(c, t), Rotated(c, t);
    Log2Monotone(Size(t), Size(w));
    Log2Monotone(Size(u.left), Size(u));
    Log2Monotone(Size(u.right), Size(u));
  }

  // Replacing a subtree by one of the same size changes the potential by the
  // difference of theirs.
  lemma {:induction false} PlugPotential<N, V>(c: Path<N, V>, a: Tree<N, V>, b: Tree<N, V>)
    requires Size(a) == Size(b)
    ensures Size(Plug(c, a)) == Size(Plug(c, b))
    ensures Potential(Plug(c, a)) - Potential(a) == Potential(Plug(c, b)) - Potential(b)
  {
    if !c.Top? {
      PlugPotential(c.up, Attach(c, a), Attach(c, b));
    }
  }

  /** Splaying a node costs at most 3 * (rank of the root - rank of the node) + 1. */
  lemma {:induction false} SplayPays<N, V>(c: Path<N, V>, t: Tree<N, V>)
    requires t.Bin?
    ensures Size(Splay(c, t)) == Size(Plug(c, t))
    ensures SplaySteps(c) + Potential(Splay(c, t))
         <= Potential(Plug(c, t)) + 3 * (Rank(Plug(c, t)) - Rank(t)) + 1
  {
    if c.Top? {
    } else if c.up.Top? {
      ZigPays(c, t);
    } else {
      var w, u := Attach(c.up, Attach(c, t)), DoubleStep(c, t);
      DoubleStepPays(c, t);
      SplayPays(c.up.up, u);
      PlugPotential(c.up.up, u, w);
    }
  }

  // ---------- insertion and removal ----------

  /** Hanging a new leaf at the end of a path raises the potential by at most the rank
      of the resulting tree: each level either keeps its rank or gains one over the
      levels below. */
  lemma {:induction false} GrowPays<N, V>(c: Path<N, V>, a: Tree<N, V>, b: Tree<N, V>)
    requires b.Bin? && Size(b) == Size(a) + 1 && Potential(b) <= Potential(a) + Rank(b)
    ensures Size(Plug(c, b)) == Size(Plug(c, a)) + 1
    ensures Potential(Plug(c, b)) <= Potential(Plug(c, a)) + Rank(Plug(c, b))
  {
    if !c.Top? {
      var a', b' := Attach(c, a), Attach(c, b);
      Log2Successor(Size(a'));
      Log2Monotone(Size(b), Size(a'));
      Log2Monotone(Size(b), Size(b'));
      GrowPays(c.up, a', b');
    }
  }

  // Shrinking a subtree raises no potential anywhere.
  lemma {:induction false} ShrinkPays<N, V>(c: Path<N, V>, a: Tree<N, V>, b: Tree<N, V>)
    requires Size(a) <= Size(b) && Potential(a) <= Potential(b)
    ensures Size(b) - Size(a) == Size(Plug(c, b)) - Size(Plug(c, a))
    ensures Potential(Plug(c, a)) <= Potential(Plug(c, b))
  {
    if !c.Top? {
      Log2Monotone(Size(Attach(c, a)), Size(Attach(c, b)));
      ShrinkPays(c.up, Attach(c, a), Attach(c, b));
    }
  }

  // Rebuilding a root over smaller subtrees raises no potential.
  lemma SmallerBin<N, V>(l: Tree<N, V>, r: Tree<N, V>, n: N, v: V, t: Tree<N, V>)
    requires t.Bin? && Size(l) <= Size(t.left) && Size(r) <= Size(t.right)
    requires Potential(l) <= Potential(t.left) && Potential(r) <= Potential(t.right)
    ensures Potential(Bin(l, n, v, r)) <= Potential(t)
  {
    hide FloorLog2, Size, Potential;
    BinFacts(l, n, v, r);
    BinFacts(t.left, t.node, t.val, t.right);
    Log2Monotone(Size(Bin(l, n, v, r)), Size(t));
  }

  /** The swap in remove never raises the potential. */
  lemma DropRootPays<N, V>(t: Tree<N, V>)
    requires t.Bin?
    ensures Potential(DropRoot(t)) <= Potential(t) && Size(DropRoot(t)) == Size(t) - 1
  {
    hide FloorLog2, Plug, RightSpine, LeftSpine, Potential, Size, Rank;
    BinFacts(t.left, t.node, t.val, t.right);
    LeafIsEmpty<N, V>();
    if t.left.Bin? {
      var (c, m) := RightSpine(Top, t.left);
      BinFacts(m.left, m.node, m.val, m.right);
      PlugTop(t.left);
      ShrinkPays(c, m.left, m);
      SmallerBin(Plug(c, m.left), t.right, m.node, m.val, t);
      BinFacts(Plug(c, m.left), m.node, m.val, t.right);
    } else if t.right.Bin? {
      var (c, m) := LeftSpine(Top, t.right);
      BinFacts(m.left, m.node, m.val, m.right);
      PlugTop(t.right);
      ShrinkPays(c, m.right, m);
      SmallerBin(Leaf, Plug(c, m.right), m.node, m.val, t);
      BinFacts(Leaf, m.node, m.val, Plug(c, m.right));
    }
  }

  lemma LeafIsEmpty<N, V>()
    ensures Size<N, V>(Leaf) == 0 && Potential<N, V>(Leaf) == 0
  {
  }

  lemma PlugTop<N, V>(t: Tree<N, V>)
    ensures Plug(Top, t) == t
  {
  }

  // ---------- whole runs ----------

  datatype Op<N, V> = Contains(v: V) | Insert(n: N, v: V) | Remove(v: V) | RemoveMin

  /** The value removeMin passes to remove. */
  function MinVal<N, V>(t: Tree<N, V>): V
    requires t.Bin?
  {
    LeftSpine(Top, t).1.val
  }

  /** What the callers of each operation must ensure. */
  ghost predicate Legal<N, V>(cmp: Comparator<V>, t: Tree<N, V>, op: Op<N, V>) {
    match op
    case Contains(_) => true
    case Insert(_, v) => !Has(cmp, InOrder(t), v)
    case Remove(v) => Has(cmp, InOrder(t), v)
    case RemoveMin => t.Bin?
  }

  ghost function Do<N, V>(cmp: Comparator<V>, t: Tree<N, V>, op: Op<N, V>): Tree<N, V>
    requires Legal(cmp, t, op)
  {
    match op
    case Contains(v) => ContainsTree(cmp, t, v)
    case Insert(n, v) => InsertTree(cmp, t, n, v)
    case Remove(v) => RemoveTree(cmp, t, v)
    case RemoveMin => RemoveTree(cmp, t, MinVal(t))
  }

  function LookupSteps<N, V>(cmp: Comparator<V>, t: Tree<N, V>, v: V): nat {
    if t.Leaf? then 0 else SplaySteps(Descend(cmp, Top, t, v).0)
  }

  ghost function StepsOf<N, V>(cmp: Comparator<V>, t: Tree<N, V>, op: Op<N, V>): nat
    requires Legal(cmp, t, op)
  {
    match op
    case Contains(v) => LookupSteps(cmp, t, v)
    case Insert(n, v) => if t.Leaf? then 0 else SplaySteps(InsertPath(cmp, t, v))
    case Remove(v) => LookupSteps(cmp, t, v)
    case RemoveMin => LookupSteps(cmp, t, MinVal(t))
  }

  lemma LookupPays<N, V>(cmp: Comparator<V>, t: Tree<N, V>, v: V)
    ensures Size(ContainsTree(cmp, t, v)) == Size(t)
    ensures LookupSteps(cmp, t, v) + Potential(ContainsTree(cmp, t, v)) <= Potential(t) + 3 * Rank(t) + 1
  {
    if t.Bin? {
      var (d, f) := Descend(cmp, Top, t, v);
      SplayPays(d, f);
    }
  }

  lemma LeafFacts<N, V>(n: N, v: V)
    ensures var leaf: Tree<N, V> := Bin(Leaf, n, v, Leaf);
            Size(leaf) == 1 && Rank(leaf) == 0 && Potential(leaf) == 0
  {
  }

  lemma LeafPays<N, V>(p: Path<N, V>, n: N, v: V)
    ensures var (t, u) := (Plug(p, Leaf), Splay(p, Bin(Leaf, n, v, Leaf)));
            Size(u) == Size(t) + 1 && SplaySteps(p) + Potential(u) <= Potential(t) + 4 * Rank(u) + 1
  {
    hide FloorLog2, Splay, SplaySteps, Plug, Potential, Size;
    var leaf: Tree<N, V> := Bin(Leaf, n, v, Leaf);
    LeafFacts<N, V>(n, v);
    LeafIsEmpty<N, V>();
    GrowPays(p, Leaf, leaf);
    SplayPays(p, leaf);
  }

  lemma InsertPays<N, V>(cmp: Comparator<V>, t: Tree<N, V>, n: N, v: V)
    requires t.Bin? && Plug(InsertPath(cmp, t, v), Leaf) == t
    ensures var u := InsertTree(cmp, t, n, v);
            Size(u) == Size(t) + 1
            && SplaySteps(InsertPath(cmp, t, v)) + Potential(u) <= Potential(t) + 4 * Rank(u) + 1
  {
    hide FloorLog2, Splay, SplaySteps, Plug, Potential, Size, InsertPath, Rank;
    LeafPays(InsertPath(cmp, t, v), n, v);
  }

  /** The amortized cost of one legal operation, n bounding both trees' sizes. */
  lemma OpPays<N, V(!new)>(cmp: Comparator<V>, t: Tree<N, V>, op: Op<N, V>, n: nat)
    requires StrictOrder(cmp) && Sorted(cmp, InOrder(t)) && Legal(cmp, t, op)
    requires Size(t) <= n && Size(Do(cmp, t, op)) <= n
    ensures Sorted(cmp, InOrder(Do(cmp, t, op)))
    ensures StepsOf(cmp, t, op) + Potential(Do(cmp, t, op)) <= Potential(t) + 4 * FloorLog2(n) + 1
  {
    hide StrictOrder, Sorted, Has;
    Log2Monotone(Size(t), n);
    Log2Monotone(Size(Do(cmp, t, op)), n);
    match op {
      case Contains(v) =>
        ContainsKeeps(cmp, t, v);
        LookupPays(cmp, t, v);
      case Insert(x, v) =>
        var _ := InsertRefines(cmp, t, x, v);
        if t.Bin? {
          InsertPathGap(cmp, t, v);
          InsertPays(cmp, t, x, v);
        }
      case Remove(v) => RemovePays(cmp, t, v);
      case RemoveMin =>
        MinIsFirst(cmp, t);
        RemovePays(cmp, t, MinVal(t));
    }
  }

  lemma RemovePays<N, V(!new)>(cmp: Comparator<V>, t: Tree<N, V>, v: V)
    requires StrictOrder(cmp) && Sorted(cmp, InOrder(t)) && Has(cmp, InOrder(t), v)
    ensures t.Bin? && Sorted(cmp, InOrder(RemoveTree(cmp, t, v)))
    ensures Size(RemoveTree(cmp, t, v)) == Size(t) - 1
    ensures LookupSteps(cmp, t, v) + Potential(RemoveTree(cmp, t, v)) <= Potential(t) + 3 * Rank(t) + 1
  {
    var _ := RemoveRefines(cmp, t, v);
    LookupPays(cmp, t, v);
    DropRootPays(ContainsTree(cmp, t, v));
  }

  /** The leftmost value is the first of the in-order sequence. */
  lemma MinIsFirst<N, V(!new)>(cmp: Comparator<V>, t: Tree<N, V>)
    requires StrictOrder(cmp) && t.Bin?
    ensures |InOrder(t)| > 0 && InOrder(t)[0] == MinVal(t)
    ensures cmp(MinVal(t), MinVal(t)) == 0 && Has(cmp, InOrder(t), MinVal(t))
  {
    LeftSpineInOrder(t);
    assert cmp(MinVal(t), InOrder(t)[0]) == 0;
  }

  ghost predicate LegalRun<N, V>(cmp: Comparator<V>, t: Tree<N, V>, ops: seq<Op<N, V>>, n: nat)
    decreases |ops|
  {
    Size(t) <= n &&
    (ops != [] ==> Legal(cmp, t, ops[0]) && LegalRun(cmp, Do(cmp, t, ops[0]), ops[1..], n))
  }

  ghost function RunSteps<N, V>(cmp: Comparator<V>, t: Tree<N, V>, ops: seq<Op<N, V>>, n: nat): nat
    requires LegalRun(cmp, t, ops, n)
    decreases |ops|
  {
    if ops == [] then 0
    else StepsOf(cmp, t, ops[0]) + RunSteps(cmp, Do(cmp, t, ops[0]), ops[1..], n)
  }

  lemma {:induction false} RunPays<N, V(!new)>(cmp: Comparator<V>, t: Tree<N, V>, ops: seq<Op<N, V>>, n: nat)
    requires StrictOrder(cmp) && Sorted(cmp, InOrder(t)) && LegalRun(cmp, t, ops, n)
    ensures RunSteps(cmp, t, ops, n) <= Potential(t) + |ops| * (4 * FloorLog2(n) + 1)
    decreases |ops|
  {
    hide StrictOrder, Sorted, Legal, Do, StepsOf;
    if ops != [] {
      OpPays(cmp, t, ops[0], n);
      RunPays(cmp, Do(cmp, t, ops[0]), ops[1..], n);
      assert |ops| * (4 * FloorLog2(n) + 1) == (|ops| - 1) * (4 * FloorLog2(n) + 1) + (4 * FloorLog2(n) + 1);
    }
  }

  /** From an empty tree that never holds more than n nodes, m operations take at most
      m * (4 * floor(log2 n) + 1) zig, zig-zig and zig-zag steps. */
  lemma AmortizedBound<N, V(!new)>(cmp: Comparator<V>, ops: seq<Op<N, V>>, n: nat)
    requires StrictOrder(cmp) && LegalRun(cmp, Leaf, ops, n)
    ensures RunSteps(cmp, Leaf, ops, n) <= |ops| * (4 * FloorLog2(n) + 1)
  {
    RunPays(cmp, Leaf, ops, n);
  }
}

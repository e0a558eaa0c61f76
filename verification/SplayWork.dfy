/** The work of mfbt/SplayTree.h outside its rotations: comparisons and the descent of
    removeMin, which the splay steps pay for, and the walk of remove to a neighbour of
    the root, which they do not. */
module SplayWork {
  import opened Arith
  import opened SplayModel
  import opened SplaySet
  import opened SplayCost

  function Depth<N, V>(c: Path<N, V>): nat {
    if c.Top? then 0 else 1 + Depth(c.up)
  }

  /** Every splay step goes up by one or two levels. */
  lemma {:induction false} DepthBySteps<N, V>(c: Path<N, V>)
    ensures SplaySteps(c) <= Depth(c) <= 2 * SplaySteps(c)
  {
    if !c.Top? && !c.up.Top? {
      DepthBySteps(c.up.up);
    }
  }

  /** How many right (left) links lead to the rightmost (leftmost) node. */
  function RightLength<N, V>(t: Tree<N, V>): nat {
    if t.Leaf? || t.right.Leaf? then 0 else 1 + RightLength(t.right)
  }

  function LeftLength<N, V>(t: Tree<N, V>): nat {
    if t.Leaf? || t.left.Leaf? then 0 else 1 + LeftLength(t.left)
  }

  /** The nodes lookup compares v with. */
  function LookupNodes<N, V>(cmp: Comparator<V>, t: Tree<N, V>, v: V): nat {
    if t.Leaf? then 0 else Depth(Descend(cmp, Top, t, v).0) + 1
  }

  /** The links remove follows from the root to the node it swaps in. */
  function DropWalk<N, V>(t: Tree<N, V>): nat {
    if t.Leaf? then 0 else if t.left.Bin? then RightLength(t.left) else LeftLength(t.right)
  }

  /** Comparisons, and the links removeMin follows to the least node. */
  ghost function SearchOf<N, V>(cmp: Comparator<V>, t: Tree<N, V>, op: Op<N, V>): nat
    requires Legal(cmp, t, op)
  {
    match op
    case Contains(v) => if t.Leaf? then 0 else LookupNodes(cmp, t, v) + 1
    case Insert(_, v) => if t.Leaf? then 0 else LookupNodes(cmp, t, v) + 1
    case Remove(v) => LookupNodes(cmp, t, v)
    case RemoveMin => LeftLength(t) + LookupNodes(cmp, t, MinVal(t))
  }

  ghost function WalkOf<N, V>(cmp: Comparator<V>, t: Tree<N, V>, op: Op<N, V>): nat
    requires Legal(cmp, t, op)
  {
    match op
    case Contains(_) => 0
    case Insert(_, _) => 0
    case Remove(v) => DropWalk(ContainsTree(cmp, t, v))
    case RemoveMin => DropWalk(ContainsTree(cmp, t, MinVal(t)))
  }

  // ---------- searching is paid for ----------

  lemma {:induction false} LeftSpineNode<N, V>(c: Path<N, V>, t: Tree<N, V>)
    requires t.Bin?
    ensures LeftSpine(c, t).1 == LeftSpine(Top, t).1
    ensures Depth(LeftSpine(c, t).0) == Depth(c) + LeftLength(t)
    decreases t
  {
    if t.left.Bin? {
      LeftSpineNode(LeftOf(t.node, t.val, t.right, c), t.left);
      LeftSpineNode(LeftOf(t.node, t.val, t.right, Top), t.left);
    }
  }

  lemma MinBelow<N, V(!new)>(cmp: Comparator<V>, t: Tree<N, V>)
    requires StrictOrder(cmp) && t.Bin? && Sorted(cmp, InOrder(t))
    ensures t.left.Bin? ==> cmp(MinVal(t), t.val) < 0 && MinVal(t.left) == MinVal(t) && Sorted(cmp, InOrder(t.left))
    ensures t.left.Leaf? ==> cmp(MinVal(t), t.val) == 0
  {
    hide StrictOrder;
    MinIsFirst(cmp, t);
    if t.left.Bin? {
      MinIsFirst(cmp, t.left);
      var s, k := InOrder(t), |InOrder(t.left)|;
      assert s[k] == t.val && s[0] == InOrder(t.left)[0];
      assert forall i | 0 <= i < k :: s[i] == InOrder(t.left)[i];
    }
  }

  /** Searching for the least value goes down the left spine. */
  lemma {:induction false} MinDescent<N, V(!new)>(cmp: Comparator<V>, c: Path<N, V>, t: Tree<N, V>)
    requires StrictOrder(cmp) && t.Bin? && Sorted(cmp, InOrder(t))
    ensures Descend(cmp, c, t, MinVal(t)) == LeftSpine(c, t)
    decreases t
  {
    hide StrictOrder, Sorted, InOrder, MinVal;
    MinBelow(cmp, t);
    if t.left.Bin? {
      MinDescent(cmp, LeftOf(t.node, t.val, t.right, c), t.left);
    }
  }

  /** The comparisons and descents of an operation are at most two a splay step and two
      more, twice that for removeMin. */
  lemma SearchBySteps<N, V(!new)>(cmp: Comparator<V>, t: Tree<N, V>, op: Op<N, V>)
    requires StrictOrder(cmp) && Sorted(cmp, InOrder(t)) && Legal(cmp, t, op)
    ensures SearchOf(cmp, t, op) <= 4 * StepsOf(cmp, t, op) + 2
  {
    hide StrictOrder, Sorted, Has, InOrder, Descend, SplaySteps, MinVal;
    if t.Bin? {
      match op
      case Contains(v) => DepthBySteps(Descend(cmp, Top, t, v).0);
      case Insert(_, v) => DepthBySteps(InsertPath(cmp, t, v));
      case Remove(v) => DepthBySteps(Descend(cmp, Top, t, v).0);
      case RemoveMin =>
        MinDescent(cmp, Top, t);
        LeftSpineNode(Top, t);
        DepthBySteps(Descend(cmp, Top, t, MinVal(t)).0);
    }
  }

  // ---------- whole runs ----------

  ghost function RunSearch<N, V>(cmp: Comparator<V>, t: Tree<N, V>, ops: seq<Op<N, V>>, n: nat): nat
    requires LegalRun(cmp, t, ops, n)
    decreases |ops|
  {
    if ops == [] then 0
    else SearchOf(cmp, t, ops[0]) + RunSearch(cmp, Do(cmp, t, ops[0]), ops[1..], n)
  }

  ghost function RunWalks<N, V>(cmp: Comparator<V>, t: Tree<N, V>, ops: seq<Op<N, V>>, n: nat): nat
    requires LegalRun(cmp, t, ops, n)
    decreases |ops|
  {
    if ops == [] then 0
    else WalkOf(cmp, t, ops[0]) + RunWalks(cmp, Do(cmp, t, ops[0]), ops[1..], n)
  }

  lemma {:induction false} RunSearchBySteps<N, V(!new)>(cmp: Comparator<V>, t: Tree<N, V>, ops: seq<Op<N, V>>, n: nat)
    requires StrictOrder(cmp) && Sorted(cmp, InOrder(t)) && LegalRun(cmp, t, ops, n)
    ensures RunSearch(cmp, t, ops, n) <= 4 * RunSteps(cmp, t, ops, n) + 2 * |ops|
    decreases |ops|
  {
    hide StrictOrder, Sorted, Legal, Do, StepsOf, SearchOf;
    if ops != [] {
      SearchBySteps(cmp, t, ops[0]);
      OpPays(cmp, t, ops[0], n);
      RunSearchBySteps(cmp, Do(cmp, t, ops[0]), ops[1..], n);
    }
  }

  lemma BoundsAdd(m: nat, l: nat)
    ensures m * (16 * l + 6) == 4 * (m * (4 * l + 1)) + 2 * m
    ensures m * (20 * l + 7) == m * (4 * l + 1) + m * (16 * l + 6)
  {
  }

  /** From an empty tree that never holds more than n nodes, m operations make at most
      m * (16 * floor(log2 n) + 6) comparisons and steps down to a least node. */
  lemma AmortizedSearch<N, V(!new)>(cmp: Comparator<V>, ops: seq<Op<N, V>>, n: nat)
    requires StrictOrder(cmp) && LegalRun(cmp, Leaf, ops, n)
    ensures RunSearch(cmp, Leaf, ops, n) <= |ops| * (16 * FloorLog2(n) + 6)
  {
    hide StrictOrder, LegalRun, FloorLog2, RunSearch, RunSteps;
    AmortizedBound(cmp, ops, n);
    RunSearchBySteps(cmp, Leaf, ops, n);
    BoundsAdd(|ops|, FloorLog2(n));
  }

  /** All the work of a run: splay steps, searching, and walks to a neighbour. */
  ghost function RunWork<N, V>(cmp: Comparator<V>, t: Tree<N, V>, ops: seq<Op<N, V>>, n: nat): nat
    requires LegalRun(cmp, t, ops, n)
  {
    RunSteps(cmp, t, ops, n) + RunSearch(cmp, t, ops, n) + RunWalks(cmp, t, ops, n)
  }

  /** The work is O(log n) an operation but for the walks to a neighbour. */
  lemma AmortizedWork<N, V(!new)>(cmp: Comparator<V>, ops: seq<Op<N, V>>, n: nat)
    requires StrictOrder(cmp) && LegalRun(cmp, Leaf, ops, n)
    ensures RunWork(cmp, Leaf, ops, n) <= |ops| * (20 * FloorLog2(n) + 7) + RunWalks(cmp, Leaf, ops, n)
  {
    hide StrictOrder, LegalRun, FloorLog2, RunSearch, RunSteps, RunWalks;
    AmortizedBound(cmp, ops, n);
    AmortizedSearch(cmp, ops, n);
    BoundsAdd(|ops|, FloorLog2(n));
  }

  /** A run that only searches and inserts walks to no neighbour. */
  lemma {:induction false} OnlyRemovalsWalk<N, V>(cmp: Comparator<V>, t: Tree<N, V>, ops: seq<Op<N, V>>, n: nat)
    requires LegalRun(cmp, t, ops, n) && forall op | op in ops :: op.Contains? || op.Insert?
    ensures RunWalks(cmp, t, ops, n) == 0
    decreases |ops|
  {
    if ops != [] {
      OnlyRemovalsWalk(cmp, Do(cmp, t, ops[0]), ops[1..], n);
    }
  }
}

/** Runs on which remove of mfbt/SplayTree.h walks to its neighbours for longer than any
    logarithmic bound allows: insert 2k, ..., 1, then 2k + 1, then remove the greatest
    value 2k times. */
module SplayWorst {
  import opened Arith
  import opened SplayModel
  import opened SplaySet
  import opened SplayCost
  import opened SplayWork

  type IntTree = Tree<int, int>
  type IntOp = Op<int, int>

  function Compare(a: int, b: int): int { a - b }

  function Single(v: int): IntTree { Bin(Leaf, v, v, Leaf) }

  // ---------- the trees ----------

  /** i, ..., n, each the right child of the one before. */
  function Chain(i: int, n: int): IntTree
    decreases n - i
  {
    if i > n then Leaf else Bin(Leaf, i, i, Chain(i + 1, n))
  }

  /** The way down to the right end of the chain 1, ..., j. */
  function ChainPath(j: nat): Path<int, int> {
    if j == 0 then Top else RightOf(Leaf, j, j, ChainPath(j - 1))
  }

  /** 2i, ..., 2j, each the right child of the one before with the number below it as left
      child; tail hangs at the end. */
  function Comb(i: int, j: int, tail: IntTree): IntTree
    decreases j - i
  {
    if i > j then tail else Bin(Single(2 * i - 1), 2 * i, 2 * i, Comb(i + 1, j, tail))
  }

  function Pair(j: int): IntTree { Bin(Single(2 * j - 1), 2 * j, 2 * j, Leaf) }

  lemma {:induction false} CombEnd(i: int, j: int, tail: IntTree)
    requires i <= j
    ensures Comb(i, j, tail) == Comb(i, j - 1, Bin(Single(2 * j - 1), 2 * j, 2 * j, tail))
    decreases j - i
  {
    if i < j {
      CombEnd(i + 1, j, tail);
    }
  }

  // ---------- growing a chain ----------

  lemma {:induction false} ChainValues(i: int, n: int)
    ensures forall k | 0 <= k < |InOrder(Chain(i, n))| :: i <= InOrder(Chain(i, n))[k] <= n
    ensures Size(Chain(i, n)) == if i > n then 0 else n - i + 1
    decreases n - i
  {
    if i <= n {
      ChainValues(i + 1, n);
    }
  }

  /** Inserting a new least value at the top of a chain takes one rotation. */
  lemma InsertLeast(i: int, n: int)
    requires i <= n
    ensures Legal(Compare, Chain(i + 1, n), Insert(i, i))
    ensures Do(Compare, Chain(i + 1, n), Insert(i, i)) == Chain(i, n)
    ensures WalkOf(Compare, Chain(i + 1, n), Insert(i, i)) == 0
  {
    ChainValues(i + 1, n);
    var t, leaf := Chain(i + 1, n), Single(i);
    if t.Bin? {
      assert Descend(Compare, Top, t, i) == (Top, t);
      assert Splay(LeftOf(t.node, t.val, t.right, Top), leaf) == Chain(i, n);
    }
  }

  // ---------- inserting the greatest value ----------

  lemma {:induction false} ChainDescent(i: nat, n: nat, v: int)
    requires 1 <= i <= n < v
    ensures Descend(Compare, ChainPath(i - 1), Chain(i, n), v) == (ChainPath(n - 1), Single(n))
    decreases n - i
  {
    if i < n {
      ChainDescent(i + 1, n, v);
    }
  }

  /** Splaying from the end of a chain folds it two by two into a comb. */
  lemma {:induction false} ChainFolds(j: nat, k: nat, v: int)
    requires j <= k
    ensures Splay(ChainPath(2 * j), Bin(Comb(j + 1, k, Leaf), v, v, Leaf)) == Bin(Comb(1, k, Leaf), v, v, Leaf)
  {
    if j > 0 {
      var c, f := ChainPath(2 * j), Comb(j + 1, k, Leaf);
      assert c.up == ChainPath(2 * j - 1) && c.up.up == ChainPath(2 * (j - 1));
      assert Comb(j, k, Leaf) == Bin(Single(2 * j - 1), 2 * j, 2 * j, f);
      assert DoubleStep(c, Bin(f, v, v, Leaf)) == Bin(Comb(j, k, Leaf), v, v, Leaf);
      ChainFolds(j - 1, k, v);
    }
  }

  /** The comb of k pairs below their greatest value. */
  function Full(k: nat, v: int): IntTree {
    Bin(Comb(1, k, Leaf), v, v, Leaf)
  }

  lemma InsertGreatest(k: nat)
    requires k > 0
    ensures var t, op := Chain(1, 2 * k), Insert(2 * k + 1, 2 * k + 1);
            Legal(Compare, t, op) && Do(Compare, t, op) == Full(k, 2 * k + 1) && WalkOf(Compare, t, op) == 0
  {
    var t, v := Chain(1, 2 * k), 2 * k + 1;
    ChainValues(1, 2 * k);
    ChainDescent(1, 2 * k, v);
    assert ChainPath(0) == Top;
    assert InsertPath(Compare, t, v) == ChainPath(2 * k);
    ChainFolds(k, k, v);
  }

  // ---------- removing the greatest value ----------

  /** The rightmost node of a comb is that of its tail, which can be replaced in place. */
  lemma {:induction false} CombSpine(c: Path<int, int>, i: int, j: int, m: IntTree, u: IntTree)
    requires m.Bin? && m.right.Leaf?
    ensures var (d, f) := RightSpine(c, Comb(i, j, m)); f == m && Plug(d, u) == Plug(c, Comb(i, j, u))
    ensures RightLength(Comb(i, j, m)) == if i > j then 0 else j - i + 1
    decreases j - i
  {
    if i <= j {
      CombSpine(RightOf(Single(2 * i - 1), 2 * i, 2 * i, c), i + 1, j, m, u);
    }
  }

  /** Removing the root over a comb of j pairs and a tail walks down all j pairs. */
  lemma RemoveRoot(j: nat, m: IntTree, v: int)
    requires m.Bin? && m.right.Leaf?
    ensures var t, op := Bin(Comb(1, j, m), v, v, Leaf), Remove(v);
            && Legal(Compare, t, op) && WalkOf(Compare, t, op) == j
            && Do(Compare, t, op) == Bin(Comb(1, j, m.left), m.node, m.val, Leaf)
  {
    var t := Bin(Comb(1, j, m), v, v, Leaf);
    CombSpine(Top, 1, j, m, m.left);
    assert Descend(Compare, Top, t, v) == (Top, t) && ContainsTree(Compare, t, v) == t;
    var k := |InOrder(t.left)|;
    assert InOrder(t)[k] == v && Compare(v, InOrder(t)[k]) == 0;
  }

  /** The two greatest values of a full comb: two walks of j - 1 links. */
  lemma RemoveTwo(j: nat)
    requires j > 0
    ensures var t, op := Full(j, 2 * j + 1), IntOp.Remove(2 * j + 1);
            && Legal(Compare, t, op) && WalkOf(Compare, t, op) == j - 1
            && Do(Compare, t, op) == Bin(Comb(1, j - 1, Single(2 * j - 1)), 2 * j, 2 * j, Leaf)
    ensures var t, op := Bin(Comb(1, j - 1, Single(2 * j - 1)), 2 * j, 2 * j, Leaf), IntOp.Remove(2 * j);
            && Legal(Compare, t, op) && WalkOf(Compare, t, op) == j - 1
            && Do(Compare, t, op) == Full(j - 1, 2 * (j - 1) + 1)
  {
    CombEnd(1, j, Leaf);
    RemoveRoot(j - 1, Pair(j), 2 * j + 1);
    RemoveRoot(j - 1, Single(2 * j - 1), 2 * j);
  }

  lemma {:induction false} CombSize(i: int, j: int, tail: IntTree)
    ensures Size(Comb(i, j, tail)) == (if i > j then 0 else 2 * (j - i + 1)) + Size(tail)
    decreases j - i
  {
    if i <= j {
      assert Size(Single(2 * i - 1)) == 1;
      CombSize(i + 1, j, tail);
    }
  }

  // ---------- the runs ----------

  /** Removes 2j + 1, 2j, ..., 2. */
  function Removals(j: nat): (ops: seq<IntOp>)
    ensures |ops| == 2 * j
  {
    if j == 0 then [] else [Remove(2 * j + 1), Remove(2 * j)] + Removals(j - 1)
  }

  /** Inserts i, ..., 1 and then 2k + 1, and removes all but one. */
  function Script(i: nat, k: nat): (ops: seq<IntOp>)
    ensures |ops| == i + 1 + 2 * k
  {
    if i == 0 then [Insert(2 * k + 1, 2 * k + 1)] + Removals(k) else [Insert(i, i)] + Script(i - 1, k)
  }

  lemma NoOps(t: IntTree, n: nat)
    requires Size(t) <= n
    ensures LegalRun(Compare, t, [], n) && RunWalks(Compare, t, [], n) == 0
  {
  }

  lemma OneMore(t: IntTree, op: IntOp, ops: seq<IntOp>, n: nat)
    requires Size(t) <= n && Legal(Compare, t, op) && LegalRun(Compare, Do(Compare, t, op), ops, n)
    ensures LegalRun(Compare, t, [op] + ops, n)
    ensures RunWalks(Compare, t, [op] + ops, n)
            == WalkOf(Compare, t, op) + RunWalks(Compare, Do(Compare, t, op), ops, n)
  {
    assert ([op] + ops)[1..] == ops;
  }

  lemma {:induction false} RemovalsWalk(j: nat, n: nat)
    requires 2 * j + 1 <= n
    ensures LegalRun(Compare, Full(j, 2 * j + 1), Removals(j), n)
    ensures RunWalks(Compare, Full(j, 2 * j + 1), Removals(j), n) == j * (j - 1)
  {
    hide LegalRun, RunWalks, Legal, Do, WalkOf, Comb, Size;
    var t := Full(j, 2 * j + 1);
    FullSize(j, Leaf, 2 * j + 1);
    if j == 0 {
      NoOps(t, n);
    } else {
      var u := Bin(Comb(1, j - 1, Single(2 * j - 1)), 2 * j, 2 * j, Leaf);
      FullSize(j - 1, Single(2 * j - 1), 2 * j);
      RemoveTwo(j);
      RemovalsWalk(j - 1, n);
      OneMore(u, Remove(2 * j), Removals(j - 1), n);
      OneMore(t, Remove(2 * j + 1), [Remove(2 * j)] + Removals(j - 1), n);
      assert Removals(j) == [IntOp.Remove(2 * j + 1)] + ([Remove(2 * j)] + Removals(j - 1));
      assert j * (j - 1) == (j - 1) + (j - 1) + (j - 1) * (j - 2);
    }
  }

  lemma FullSize(j: nat, tail: IntTree, v: int)
    ensures Size(Bin(Comb(1, j, tail), v, v, Leaf)) == 2 * j + Size(tail) + 1
    ensures Size<int, int>(Leaf) == 0 && forall x :: Size(Single(x)) == 1
  {
    CombSize(1, j, tail);
  }

  lemma {:induction false} ScriptWalks(i: nat, k: nat)
    requires i <= 2 * k && k > 0
    ensures LegalRun(Compare, Chain(i + 1, 2 * k), Script(i, k), 2 * k + 1)
    ensures RunWalks(Compare, Chain(i + 1, 2 * k), Script(i, k), 2 * k + 1) == k * (k - 1)
  {
    hide LegalRun, RunWalks, Legal, Do, WalkOf, Size, Chain;
    var t, n := Chain(i + 1, 2 * k), 2 * k + 1;
    ChainValues(i + 1, 2 * k);
    if i == 0 {
      InsertGreatest(k);
      RemovalsWalk(k, n);
      OneMore(t, Insert(2 * k + 1, 2 * k + 1), Removals(k), n);
    } else {
      InsertLeast(i, 2 * k);
      ScriptWalks(i - 1, k);
      OneMore(t, Insert(i, i), Script(i - 1, k), n);
    }
  }

  /** The 4k + 1 operations, legal from an empty tree and never on more than 2k + 1 nodes,
      walk k * (k - 1) links to neighbours. */
  lemma QuadraticWalks(k: nat)
    requires k > 0
    ensures StrictOrder(Compare)
    ensures LegalRun(Compare, Leaf, Script(2 * k, k), 2 * k + 1) && |Script(2 * k, k)| == 4 * k + 1
    ensures RunWalks(Compare, Leaf, Script(2 * k, k), 2 * k + 1) == k * (k - 1)
  {
    ScriptWalks(2 * k, k);
    assert Chain(2 * k + 1, 2 * k) == Leaf;
  }

  lemma {:induction false} Pow2Grows(i: nat)
    ensures Pow2(i) >= i + 1
  {
    if i > 0 {
      Pow2Grows(i - 1);
    }
  }

  lemma FloorLog2Of(j: nat)
    ensures FloorLog2(2 * Pow2(j) + 1) == j + 1
  {
    var n := 2 * Pow2(j) + 1;
    FloorLog2Bounds(n);
    var l := FloorLog2(n);
    if l <= j {
      Pow2Monotone(l, j);
    } else if l > j + 1 {
      Pow2Monotone(j + 2, l);
    }
  }

  lemma MulLe(a: int, b: int, y: nat)
    requires a <= b
    ensures a * y <= b * y && y * a <= y * b
  {
    assert (b - a) * y == b * y - a * y;
  }

  lemma Swap(a: int, b: int, c: int)
    ensures a * b * c == (a * c) * b
  {
  }

  /** With p = 2^j >= 5c(j + 2) + 2, the walks of k = p exceed c * m * (floor(log2 n) + 1). */
  lemma Exceeds(c: nat, p: nat, l: nat)
    requires p >= 5 * (c * l) + 2
    ensures c * (4 * p + 1) * l < p * (p - 1)
  {
    var x := c * l;
    Swap(c, 4 * p + 1, l);
    MulLe(4 * p + 1, 5 * p, x);
    Swap(x, 5, p);
    assert x * (5 * p) == x * 5 * p;
    MulLe(5 * x, p - 2, p);
    assert (p - 2) * p == p * p - 2 * p && p * (p - 1) == p * p - p;
  }

  lemma RoomFor(c: nat, a: nat, p: nat)
    requires a == 10 * c + 3 && p >= a
    ensures p * p >= 5 * (c * (2 * a)) + 2
  {
    MulLe(a, p, p);
    MulLe(a, p, a);
    assert a * a == (10 * c) * a + 3 * a;
    MulAssoc(10, c, a);
    MulAssoc(c, 2, a);
    Swap(c, 2, a);
  }

  /** An exponent with room for the bound. */
  lemma Room(c: nat) returns (j: nat)
    ensures Pow2(j) >= 5 * (c * (j + 2)) + 2
  {
    var i := 10 * c + 2;
    j := 2 * i;
    Pow2Grows(i);
    Pow2Add(i, i);
    RoomFor(c, i + 1, Pow2(i));
  }

  /** For every constant c there is a run of m operations from an empty tree, never on more
      than n nodes, whose walks to neighbours alone exceed c * m * (floor(log2 n) + 1):
      remove is not amortized O(log n). */
  lemma NoLogarithmicBound(c: nat) returns (ops: seq<IntOp>, n: nat)
    ensures StrictOrder(Compare) && LegalRun(Compare, Leaf, ops, n)
    ensures c * |ops| * (FloorLog2(n) + 1) < RunWalks(Compare, Leaf, ops, n) <= RunWork(Compare, Leaf, ops, n)
  {
    hide LegalRun, RunWalks, RunSteps, RunSearch, Pow2, FloorLog2, Compare, StrictOrder, Script;
    var j := Room(c);
    var k := Pow2(j);
    ops, n := Script(2 * k, k), 2 * k + 1;
    QuadraticWalks(k);
    FloorLog2Of(j);
    Exceeds(c, k, j + 2);
  }
}

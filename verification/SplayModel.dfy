/** The trees of mfbt/SplayTree.h as values: search, splaying along a path, insertion
    and removal, and what they do to the in-order sequence. */
module SplayModel {

  datatype Tree<N, V> = Leaf | Bin(left: Tree<N, V>, node: N, val: V, right: Tree<N, V>)

  /** The way from a subtree up to the root: the subtree is the left (or right) child of
      node, whose other child and ancestors are recorded. */
  datatype Path<N, V> =
    | Top
    | LeftOf(node: N, val: V, right: Tree<N, V>, up: Path<N, V>)
    | RightOf(left: Tree<N, V>, node: N, val: V, up: Path<N, V>)

  /** The tree whose subtree at the end of c is t, one level up. */
  function Attach<N, V>(c: Path<N, V>, t: Tree<N, V>): (r: Tree<N, V>)
    requires !c.Top?
    ensures r.Bin?
  {
    match c
    case LeftOf(p, v, r, _) => Bin(t, p, v, r)
    case RightOf(l, p, v, _) => Bin(l, p, v, t)
  }

  function Plug<N, V>(c: Path<N, V>, t: Tree<N, V>): (r: Tree<N, V>)
    ensures t.Bin? ==> r.Bin?
  {
    if c.Top? then t else Plug(c.up, Attach(c, t))
  }

  // ---------- in-order sequence ----------

  function InOrder<N, V>(t: Tree<N, V>): seq<V> {
    match t
    case Leaf => []
    case Bin(l, _, v, r) => InOrder(l) + [v] + InOrder(r)
  }

  function Before<N, V>(c: Path<N, V>): seq<V> {
    match c
    case Top => []
    case LeftOf(_, _, _, up) => Before(up)
    case RightOf(l, _, v, up) => Before(up) + InOrder(l) + [v]
  }

  function After<N, V>(c: Path<N, V>): seq<V> {
    match c
    case Top => []
    case LeftOf(_, v, r, up) => [v] + InOrder(r) + After(up)
    case RightOf(_, _, _, up) => After(up)
  }

  lemma AttachInOrder<N, V>(c: Path<N, V>, t: Tree<N, V>)
    requires !c.Top?
    ensures Before(c.up) + InOrder(Attach(c, t)) + After(c.up) == Before(c) + InOrder(t) + After(c)
  {
    var a, b := Before(c.up), After(c.up);
    match c {
      case LeftOf(p, v, r, up) => Regroup(a, InOrder(t), [v], InOrder(r), b);
      case RightOf(l, p, v, up) => Regroup(a, InOrder(l), [v], InOrder(t), b);
    }
  }

  lemma Regroup<V>(a: seq<V>, b: seq<V>, c: seq<V>, d: seq<V>, e: seq<V>)
    ensures a + (b + c + d) + e == a + b + (c + d + e)
    ensures a + (b + c + d) + e == (a + b + c) + d + e
  {
  }

  lemma {:induction false} PlugInOrder<N, V>(c: Path<N, V>, t: Tree<N, V>)
    ensures InOrder(Plug(c, t)) == Before(c) + InOrder(t) + After(c)
  {
    if !c.Top? {
      PlugInOrder(c.up, Attach(c, t));
      AttachInOrder(c, t);
    }
  }

  function Nodes<N, V>(t: Tree<N, V>): set<N> {
    match t
    case Leaf => {}
    case Bin(l, n, _, r) => Nodes(l) + {n} + Nodes(r)
  }

  function PathNodes<N, V>(c: Path<N, V>): set<N> {
    match c
    case Top => {}
    case LeftOf(n, _, r, up) => {n} + Nodes(r) + PathNodes(up)
    case RightOf(l, n, _, up) => Nodes(l) + {n} + PathNodes(up)
  }

  lemma {:induction false} PlugNodes<N, V>(c: Path<N, V>, t: Tree<N, V>)
    ensures Nodes(Plug(c, t)) == PathNodes(c) + Nodes(t)
  {
    if !c.Top? {
      PlugNodes(c.up, Attach(c, t));
    }
  }

  // ---------- rotating and splaying ----------

  /** One rotation: the root of t takes the place of its parent, the head of c. */
  function Rotated<N, V>(c: Path<N, V>, t: Tree<N, V>): (r: Tree<N, V>)
    requires !c.Top? && t.Bin?
    ensures r.Bin? && r.node == t.node && r.val == t.val
  {
    match c
    case LeftOf(p, v, pr, _) => Bin(t.left, t.node, t.val, Bin(t.right, p, v, pr))
    case RightOf(pl, p, v, _) => Bin(Bin(pl, p, v, t.left), t.node, t.val, t.right)
  }

  // The two shapes related by a rotation hold the same nodes in the same order.
  lemma SameInOrder<N, V>(a: Tree<N, V>, x: N, v: V, b: Tree<N, V>, p: N, w: V, c: Tree<N, V>)
    ensures InOrder(Bin(a, x, v, Bin(b, p, w, c))) == InOrder(Bin(Bin(a, x, v, b), p, w, c))
    ensures Nodes(Bin(a, x, v, Bin(b, p, w, c))) == Nodes(Bin(Bin(a, x, v, b), p, w, c))
  {
    var u, m, z := InOrder(a), InOrder(b), InOrder(c);
    assert u + [v] + (m + [w] + z) == (u + [v] + m) + [w] + z;
  }

  lemma RotatedInOrder<N, V>(c: Path<N, V>, t: Tree<N, V>)
    requires !c.Top? && t.Bin?
    ensures InOrder(Rotated(c, t)) == InOrder(Attach(c, t))
    ensures Nodes(Rotated(c, t)) == Nodes(Attach(c, t))
  {
    match c {
      case LeftOf(p, pv, pr, _) => SameInOrder(t.left, t.node, t.val, t.right, p, pv, pr);
      case RightOf(pl, p, pv, _) => SameInOrder(pl, p, pv, t.left, t.node, t.val, t.right);
    }
  }

  /** Zig-zig and zig-zag: the root of t rises past its parent and grandparent. */
  function DoubleStep<N, V>(c: Path<N, V>, t: Tree<N, V>): (r: Tree<N, V>)
    requires !c.Top? && !c.up.Top? && t.Bin?
    ensures r.Bin? && r.node == t.node && r.val == t.val
  {
    var l, x, v, r := t.left, t.node, t.val, t.right;
    match (c, c.up)
    case (LeftOf(p, pv, pr, _), LeftOf(g, gv, gr, _)) =>
      Bin(l, x, v, Bin(r, p, pv, Bin(pr, g, gv, gr)))
    case (RightOf(pl, p, pv, _), RightOf(gl, g, gv, _)) =>
      Bin(Bin(Bin(gl, g, gv, pl), p, pv, l), x, v, r)
    case (LeftOf(p, pv, pr, _), RightOf(gl, g, gv, _)) =>
      Bin(Bin(gl, g, gv, l), x, v, Bin(r, p, pv, pr))
    case (RightOf(pl, p, pv, _), LeftOf(g, gv, gr, _)) =>
      Bin(Bin(pl, p, pv, l), x, v, Bin(r, g, gv, gr))
  }

  /** The tree after splaying the root of t, found at the end of c, up to the top. */
  function Splay<N, V>(c: Path<N, V>, t: Tree<N, V>): (r: Tree<N, V>)
    requires t.Bin?
    ensures r.Bin? && r.node == t.node && r.val == t.val
  {
    if c.Top? then t
    else if c.up.Top? then Rotated(c, t)
    else Splay(c.up.up, DoubleStep(c, t))
  }

  /** The number of zig, zig-zig and zig-zag steps that takes. */
  function SplaySteps<N, V>(c: Path<N, V>): nat {
    if c.Top? then 0 else if c.up.Top? then 1 else 1 + SplaySteps(c.up.up)
  }

  lemma DoubleStepInOrder<N, V>(c: Path<N, V>, t: Tree<N, V>)
    requires !c.Top? && !c.up.Top? && t.Bin?
    ensures InOrder(DoubleStep(c, t)) == InOrder(Attach(c.up, Attach(c, t)))
    ensures Nodes(DoubleStep(c, t)) == Nodes(Attach(c.up, Attach(c, t)))
  {
    var l, x, v, r := t.left, t.node, t.val, t.right;
    match (c, c.up) {
      case (LeftOf(p, pv, pr, _), LeftOf(g, gv, gr, _)) =>
        SameInOrder(t, p, pv, pr, g, gv, gr);
        SameInOrder(l, x, v, r, p, pv, Bin(pr, g, gv, gr));
      case (RightOf(pl, p, pv, _), RightOf(gl, g, gv, _)) =>
        SameInOrder(gl, g, gv, pl, p, pv, t);
        SameInOrder(Bin(gl, g, gv, pl), p, pv, l, x, v, r);
      case (LeftOf(p, pv, pr, _), RightOf(gl, g, gv, _)) =>
        SameInOrder(l, x, v, r, p, pv, pr);
        SameInOrder(gl, g, gv, l, x, v, Bin(r, p, pv, pr));
      case (RightOf(pl, p, pv, _), LeftOf(g, gv, gr, _)) =>
        SameInOrder(pl, p, pv, l, x, v, r);
        SameInOrder(Bin(pl, p, pv, l), x, v, r, g, gv, gr);
    }
  }

  lemma {:induction false} SplayInOrder<N, V>(c: Path<N, V>, t: Tree<N, V>)
    requires t.Bin?
    ensures InOrder(Splay(c, t)) == InOrder(Plug(c, t))
    ensures Nodes(Splay(c, t)) == Nodes(Plug(c, t))
  {
    if !c.Top? {
      if c.up.Top? {
        RotatedInOrder(c, t);
      } else {
        var u, w := DoubleStep(c, t), Attach(c.up, Attach(c, t));
        DoubleStepInOrder(c, t);
        SplayInOrder(c.up.up, u);
        PlugInOrder(c.up.up, u);
        PlugInOrder(c.up.up, w);
        PlugNodes(c.up.up, u);
        PlugNodes(c.up.up, w);
      }
    }
  }

  /** After the parent of a zig-zig step has been rotated: the path from the node. */
  function ParentRaised<N, V>(c: Path<N, V>): (r: Path<N, V>)
    requires !c.Top? && !c.up.Top? && c.LeftOf? == c.up.LeftOf?
    ensures !r.Top? && r.up == c.up.up && r.LeftOf? == c.LeftOf?
  {
    match (c, c.up)
    case (LeftOf(p, pv, pr, _), LeftOf(g, gv, gr, up)) => LeftOf(p, pv, Bin(pr, g, gv, gr), up)
    case (RightOf(pl, p, pv, _), RightOf(gl, g, gv, up)) => RightOf(Bin(gl, g, gv, pl), p, pv, up)
  }

  /** A zig-zig step is the parent's rotation followed by the node's; a zig-zag step is
      the node's rotation twice. */
  lemma DoubleStepIsRotations<N, V>(c: Path<N, V>, t: Tree<N, V>)
    requires !c.Top? && !c.up.Top? && t.Bin?
    ensures c.LeftOf? == c.up.LeftOf? ==>
      Rotated(c.up, Attach(c, t)) == Attach(ParentRaised(c), t) && DoubleStep(c, t) == Rotated(ParentRaised(c), t)
    ensures c.LeftOf? != c.up.LeftOf? ==> DoubleStep(c, t) == Rotated(c.up, Rotated(c, t))
  {
  }
}

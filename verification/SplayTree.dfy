/** mfbt/SplayTree.h on the heap: nodes with left, right and parent pointers, rewired
    in place by rotate, splay, insert and remove. */
module SplayTree {
  import opened Arith
  import opened SplayModel
  import opened SplaySet
  import opened SplayCost
  import opened SplayWork

  class Node<V> {
    const val: V
    var left: Node?<V>
    var right: Node?<V>
    var parent: Node?<V>

    constructor (val: V)
      ensures this.val == val && left == null && right == null && parent == null
    {
      this.val := val;
      left, right, parent := null, null, null;
    }
  }

  type NTree<V> = Tree<Node<V>, V>
  type NPath<V> = Path<Node<V>, V>

  // ---------- heap shapes ----------

  function RootOf<V>(t: NTree<V>): Node?<V> {
    if t.Leaf? then null else t.node
  }

  function ParentOf<V>(c: NPath<V>): Node?<V> {
    if c.Top? then null else c.node
  }

  /** The heap below n, whose parent pointer is parent, is the tree t, all of whose
      nodes are distinct and agree on parents and children. */
  ghost predicate Owns<V>(t: NTree<V>, n: Node?<V>, parent: Node?<V>)
    reads Nodes(t)
  {
    match t
    case Leaf => n == null
    case Bin(l, x, v, r) =>
      && n == x && x.val == v && x.parent == parent
      && x !in Nodes(l) && x !in Nodes(r) && Nodes(l) !! Nodes(r)
      && Owns(l, x.left, x) && Owns(r, x.right, x)
  }

  /** The heap above a subtree rooted at hole is the path c, up to root. */
  ghost predicate OwnsPath<V>(c: NPath<V>, hole: Node?<V>, root: Node?<V>)
    reads PathNodes(c)
  {
    match c
    case Top => root == hole
    case LeftOf(p, v, r, up) =>
      && p.val == v && p.left == hole && p.parent == ParentOf(up)
      && p !in Nodes(r) && p !in PathNodes(up) && Nodes(r) !! PathNodes(up)
      && Owns(r, p.right, p) && OwnsPath(up, p, root)
    case RightOf(l, p, v, up) =>
      && p.val == v && p.right == hole && p.parent == ParentOf(up)
      && p !in Nodes(l) && p !in PathNodes(up) && Nodes(l) !! PathNodes(up)
      && Owns(l, p.left, p) && OwnsPath(up, p, root)
  }

  /** The tree on the heap is t below the path c. */
  ghost predicate Focus<V>(c: NPath<V>, t: NTree<V>, root: Node?<V>)
    reads PathNodes(c), Nodes(t)
  {
    && OwnsPath(c, RootOf(t), root)
    && Owns(t, RootOf(t), ParentOf(c))
    && Nodes(t) !! PathNodes(c)
  }

  lemma FocusUp<V>(c: NPath<V>, t: NTree<V>, root: Node?<V>)
    requires !c.Top? && Focus(c, t, root)
    ensures Focus(c.up, Attach(c, t), root)
  {
  }

  lemma FocusDown<V>(c: NPath<V>, t: NTree<V>, root: Node?<V>)
    requires !c.Top? && Focus(c.up, Attach(c, t), root)
    ensures Focus(c, t, root)
  {
    RootInNodes(t, if c.LeftOf? then c.node.left else c.node.right, c.node);
  }

  lemma {:induction false} FocusPlug<V>(c: NPath<V>, t: NTree<V>, root: Node?<V>)
    ensures Focus(c, t, root) <==> Focus(Top, Plug(c, t), root)
  {
    if !c.Top? {
      if Focus(c, t, root) {
        FocusUp(c, t, root);
      }
      if Focus(c.up, Attach(c, t), root) {
        FocusDown(c, t, root);
      }
      FocusPlug(c.up, Attach(c, t), root);
    }
  }

  lemma RootOnPath<V>(c: NPath<V>, t: NTree<V>, root: Node?<V>)
    requires t.Bin? && Focus(c, t, root)
    ensures t.node == root <==> c.Top?
  {
    if !c.Top? {
      PathHoldsRoot(c, t.node, root);
    }
  }

  lemma {:induction false} PathHoldsRoot<V>(c: NPath<V>, hole: Node?<V>, root: Node?<V>)
    requires !c.Top? && OwnsPath(c, hole, root)
    ensures root != null && root in PathNodes(c)
  {
    if !c.up.Top? {
      PathHoldsRoot(c.up, c.node, root);
    }
  }

  class SplayTree<V(!new)> {
    const cmp: Comparator<V>
    var root: Node?<V>

    /** The tree on the heap, and the zig, zig-zig and zig-zag steps taken so far. */
    ghost var tree: NTree<V>
    ghost var steps: nat
    /** Comparisons and links followed to a least node, and links followed to a neighbour. */
    ghost var searched: nat
    ghost var walked: nat

    ghost predicate Valid()
      reads this, Nodes(tree)
    {
      StrictOrder(cmp) && Focus(Top, tree, root) && Sorted(cmp, InOrder(tree))
    }

    constructor (cmp: Comparator<V>)
      requires StrictOrder(cmp)
      ensures Valid() && this.cmp == cmp && tree == Leaf && steps == searched == walked == 0
    {
      this.cmp := cmp;
      root, tree, steps, searched, walked := null, Leaf, 0, 0, 0;
    }

    /** The half of rotate that exchanges node with its parent, a left child's case. */
    static method RotateRight(node: Node<V>, parent: Node<V>, ghost t: NTree<V>, ghost pv: V, ghost pr: NTree<V>)
      requires t.Bin? && t.node == node && Owns(Bin(t, parent, pv, pr), parent, parent.parent)
      modifies Nodes(t), parent
      ensures node.parent == old(parent.parent)
      ensures Owns(Bin(t.left, node, t.val, Bin(t.right, parent, pv, pr)), node, old(parent.parent))
    {
      ghost var r := t.right;
      assert Owns(t, node, parent) && Nodes(t) !! Nodes(pr) + {parent} && Owns(pr, parent.right, parent);
      assert Owns(t.left, node.left, node) && Owns(r, node.right, node);
      assert r.Bin? ==> r.node in Nodes(r);
      parent.left := node.right;
      if node.right != null {
        node.right.parent := parent;
      }
      node.right := parent;
      node.parent := parent.parent;
      parent.parent := node;
      assert Owns(pr, parent.right, parent);
      assert Owns(t.left, node.left, node);
      if r.Bin? {
        assert Owns(r.left, r.node.left, r.node) && Owns(r.right, r.node.right, r.node);
      }
      assert Owns(r, parent.left, parent);
    }

    static method RotateLeft(node: Node<V>, parent: Node<V>, ghost t: NTree<V>, ghost pv: V, ghost pl: NTree<V>)
      requires t.Bin? && t.node == node && Owns(Bin(pl, parent, pv, t), parent, parent.parent)
      modifies Nodes(t), parent
      ensures node.parent == old(parent.parent)
      ensures Owns(Bin(Bin(pl, parent, pv, t.left), node, t.val, t.right), node, old(parent.parent))
    {
      ghost var l := t.left;
      assert Owns(t, node, parent) && Nodes(t) !! Nodes(pl) + {parent} && Owns(pl, parent.left, parent);
      assert Owns(t.right, node.right, node) && Owns(l, node.left, node);
      assert l.Bin? ==> l.node in Nodes(l);
      parent.right := node.left;
      if node.left != null {
        node.left.parent := parent;
      }
      node.left := parent;
      node.parent := parent.parent;
      parent.parent := node;
      assert Owns(pl, parent.left, parent);
      assert Owns(t.right, node.right, node);
      if l.Bin? {
        assert Owns(l.left, l.node.left, l.node) && Owns(l.right, l.node.right, l.node);
      }
      assert Owns(l, parent.right, parent);
    }

    static method Exchange(node: Node<V>, parent: Node<V>, ghost c: NPath<V>, ghost t: NTree<V>, ghost root: Node?<V>,
                           ghost above: set<Node<V>>)
      requires !c.Top? && t.Bin? && t.node == node && c.node == parent && above == PathNodes(c.up)
      requires Owns(Attach(c, t), parent, parent.parent) && OwnsPath(c.up, parent, root)
      requires parent.left == node <==> c.LeftOf?
      requires above !! Nodes(t) + {parent}
      modifies Nodes(t), parent
      ensures node.parent == old(parent.parent)
      ensures Owns(Rotated(c, t), node, old(parent.parent))
      ensures OwnsPath(c.up, parent, root)
    {
      hide Owns, OwnsPath;
      if parent.left == node {
        RotateRight(node, parent, t, c.val, c.right);
      } else {
        RotateLeft(node, parent, t, c.val, c.left);
      }
    }

    /** Rearranges pointers so that node takes the place of its parent. */
    method Rotate(node: Node<V>, ghost c: NPath<V>, ghost t: NTree<V>)
      requires !c.Top? && t.Bin? && t.node == node && Focus(c, t, root)
      modifies this`root, Nodes(t), PathNodes(c)
      ensures Focus(c.up, Rotated(c, t), root)
    {
      FocusUp(c, t, root);
      RotatedInOrder(c, t);
      ghost var up := c.up;
      var parent := node.parent;
      ChildSides(c, t, root);
      assert OwnsPath(up, parent, root) && PathNodes(up) !! Nodes(t) + {parent};
      Exchange(node, parent, c, t, root, PathNodes(up));
      var grandparent := node.parent;
      if grandparent != null {
        SiblingElsewhere(up, parent, root);
        if grandparent.left == parent {
          grandparent.left := node;
        } else {
          grandparent.right := node;
        }
      } else {
        root := node;
      }
      assert OwnsPath(up, node, root);
    }

    /** A zig-zig or zig-zag step at node. */
    method DoubleRotate(node: Node<V>, ghost c: NPath<V>, ghost t: NTree<V>)
      requires !c.Top? && !c.up.Top? && t.Bin? && t.node == node && Focus(c, t, root)
      modifies this`root, Nodes(t), PathNodes(c)
      ensures Focus(c.up.up, DoubleStep(c, t), root)
      ensures Nodes(DoubleStep(c, t)) + PathNodes(c.up.up) == Nodes(t) + PathNodes(c)
    {
      hide Owns, OwnsPath;
      FocusUp(c, t, root);
      ChildSides(c, t, root);
      ChildSides(c.up, Attach(c, t), root);
      DoubleStepIsRotations(c, t);
      DoubleStepInOrder(c, t);
      var parent := node.parent;
      var grandparent := parent.parent;
      if (parent.left == node) == (grandparent.left == parent) {
        Rotate(parent, c.up, Attach(c, t));
        FocusDown(ParentRaised(c), t, root);
        Rotate(node, ParentRaised(c), t);
      } else {
        Rotate(node, c, t);
        RotatedInOrder(c, t);
        Rotate(node, c.up, Rotated(c, t));
      }
    }

    /** Rotates until node is the root, counting the steps. */
    method Splay(node: Node<V>, ghost c: NPath<V>, ghost t: NTree<V>)
      requires t.Bin? && t.node == node && Focus(c, t, root)
      modifies this`root, this`steps, Nodes(t), PathNodes(c)
      ensures root == node && Focus(Top, SplayModel.Splay(c, t), root)
      ensures steps == old(steps) + SplaySteps(c)
    {
      hide Owns, OwnsPath, Focus;
      ghost var cc, tt := c, t;
      RootOnPath(cc, tt, root);
      while node != root
        invariant tt.Bin? && tt.node == node && Focus(cc, tt, root)
        invariant node == root <==> cc.Top?
        invariant SplayModel.Splay(cc, tt) == SplayModel.Splay(c, t)
        invariant steps + SplaySteps(cc) == old(steps) + SplaySteps(c)
        invariant Nodes(tt) + PathNodes(cc) == Nodes(t) + PathNodes(c)
        decreases cc
      {
        FocusUp(cc, tt, root);
        ChildSides(cc, tt, root);
        RootOnPath(cc.up, Attach(cc, tt), root);
        var parent := node.parent;
        steps := steps + 1;
        if parent == root {
          Rotate(node, cc, tt);
          RotatedInOrder(cc, tt);
          cc, tt := cc.up, Rotated(cc, tt);
          RootOnPath(cc, tt, root);
          break;
        }
        DoubleRotate(node, cc, tt);
        cc, tt := cc.up.up, DoubleStep(cc, tt);
        RootOnPath(cc, tt, root);
      }
    }

    /** The node comparing equal to v, or the last one met when there is none. */
    method Lookup(v: V) returns (node: Node<V>, ghost c: NPath<V>, ghost f: NTree<V>, ghost met: nat)
      requires tree.Bin? && Focus(Top, tree, root)
      ensures (c, f) == Descend(cmp, Top, tree, v)
      ensures node == Descend(cmp, Top, tree, v).1.node && node.val == f.val && Focus(c, f, root)
      ensures met == LookupNodes(cmp, tree, v)
    {
      hide OwnsPath;
      RootIsNull(tree, root);
      node := root;
      c, f, met := Top, tree, 0;
      while true
        invariant f.Bin? && f.node == node && Focus(c, f, root)
        invariant Descend(cmp, c, f, v) == Descend(cmp, Top, tree, v) && met == Depth(c)
        decreases f
      {
        met := met + 1;
        ChildrenOf(f, node);
        var d := cmp(v, node.val);
        if d == 0 {
          return;
        } else if d < 0 {
          if node.left == null {
            return;
          }
          c, f := LeftOf(node, f.val, f.right, c), f.left;
          node := node.left;
        } else {
          if node.right == null {
            return;
          }
          c, f := RightOf(f.left, node, f.val, c), f.right;
          node := node.right;
        }
        FocusDown(c, f, root);
      }
    }

    method Contains(v: V) returns (found: bool)
      requires Valid()
      modifies this, Nodes(tree)
      ensures Valid() && tree == ContainsTree(cmp, old(tree), v)
      ensures found <==> Has(cmp, old(InOrder(tree)), v)
      ensures InOrder(tree) == old(InOrder(tree)) && Nodes(tree) == old(Nodes(tree))
      ensures steps == old(steps) + LookupSteps(cmp, old(tree), v)
      ensures searched == old(searched) + SearchOf(cmp, old(tree), SplayCost.Contains(v)) && walked == old(walked)
    {
      hide Owns, OwnsPath, Focus, StrictOrder, Sorted, Has, LookupNodes;
      ContainsKeeps(cmp, tree, v);
      RootIsNull(tree, root);
      if root == null {
        NothingInLeaf<V>(cmp, v);
        return false;
      }
      LookupFinds(cmp, tree, v);
      var last, c, f, met := Lookup(v);
      PlugNodes(c, f);
      tree := SplayModel.Splay(c, f);
      searched := searched + met + 1;
      Splay(last, c, f);
      return cmp(v, last.val) == 0;
    }

    /** Hangs the detached node v below last, on the side where last has no child. */
    static method Hang(v: Node<V>, last: Node<V>, onLeft: bool,
                       ghost d: NPath<V>, ghost f: NTree<V>, ghost root: Node?<V>, ghost nodes: set<Node<V>>)
      requires f.Bin? && f.node == last && Focus(d, f, root) && nodes == Nodes(f) + PathNodes(d)
      requires if onLeft then f.left.Leaf? else f.right.Leaf?
      requires v !in nodes && v.left == null && v.right == null && v.parent == null
      modifies last, v
      ensures var p := if onLeft then LeftOf(last, f.val, f.right, d) else RightOf(f.left, last, f.val, d);
              Focus(p, Bin(Leaf, v, v.val, Leaf), root)
    {
      assert last in Nodes(f) && last !in Nodes(f.left) + Nodes(f.right) + PathNodes(d);
      assert OwnsPath(d, last, root);
      if onLeft {
        last.left := v;
      } else {
        last.right := v;
      }
      v.parent := last;
      assert OwnsPath(d, last, root);
      assert if onLeft then Owns(f.right, last.right, last) else Owns(f.left, last.left, last);
    }

    /** insert on a non-empty tree: hang the node below the end of the search, splay it. */
    method InsertBelow(v: Node<V>)
      requires tree.Bin? && Focus(Top, tree, root) && v !in Nodes(tree)
      requires v.left == null && v.right == null && v.parent == null
      requires Plug(InsertPath(cmp, tree, v.val), Leaf) == tree
      requires var f := Descend(cmp, Top, tree, v.val).1;
               if cmp(v.val, f.val) < 0 then f.left.Leaf? else f.right.Leaf?
      modifies this, Nodes(tree), v
      ensures root == v && tree == InsertTree(cmp, old(tree), v, v.val) && Focus(Top, tree, root)
      ensures steps == old(steps) + SplaySteps(InsertPath(cmp, old(tree), v.val))
      ensures searched == old(searched) + LookupNodes(cmp, old(tree), v.val) + 1 && walked == old(walked)
    {
      hide Owns, OwnsPath, Focus, LookupNodes;
      var last, d, f, met := Lookup(v.val);
      searched := searched + met + 1;
      var c := cmp(v.val, last.val);
      ghost var p := InsertPath(cmp, tree, v.val);
      PlugNodes(d, f);
      PlugNodes(p, Leaf);
      Hang(v, last, c < 0, d, f, root, Nodes(tree));
      tree := InsertTree(cmp, tree, v, v.val);
      Splay(v, p, Bin(Leaf, v, v.val, Leaf));
    }

    /** Adds a detached node whose value is not present; it ends up as the root. */
    method Insert(v: Node<V>) returns (ok: bool)
      requires Valid() && v !in Nodes(tree) && v.left == null && v.right == null && v.parent == null
      requires !Has(cmp, InOrder(tree), v.val)
      modifies this, Nodes(tree), v
      ensures ok && Valid() && root == v && tree == InsertTree(cmp, old(tree), v, v.val)
      ensures Nodes(tree) == old(Nodes(tree)) + {v}
      ensures exists k | 0 <= k <= |old(InOrder(tree))| ::
        InOrder(tree) == old(InOrder(tree))[..k] + [v.val] + old(InOrder(tree))[k..]
      ensures steps == old(steps) + StepsOf(cmp, old(tree), SplayCost.Insert(v, v.val))
      ensures searched == old(searched) + SearchOf(cmp, old(tree), SplayCost.Insert(v, v.val)) && walked == old(walked)
    {
      hide Owns, OwnsPath, Focus, StrictOrder, Sorted, Has, LookupNodes, InsertTree, InsertPath, Descend, Plug,
        InOrder, SplaySteps, StepsOf;
      ghost var k := InsertRefines(cmp, tree, v, v.val);
      RootIsNull(tree, root);
      InsertCases(cmp, tree, v, v.val);
      if root == null {
        tree := Bin(Leaf, v, v.val, Leaf);
        root := v;
        SingleFocus(v);
        return true;
      }
      InsertBelow(v);
      return true;
    }

    /** if (child) child->parent = parent */
    static method SetParent(child: Node?<V>, parent: Node?<V>, ghost t: NTree<V>, ghost was: Node?<V>)
      requires Owns(t, child, was)
      modifies child
      ensures Owns(t, child, parent)
    {
      if child != null {
        assert Owns(t.left, t.node.left, t.node) && Owns(t.right, t.node.right, t.node);
        child.parent := parent;
      }
    }

    /** Replaces swap, found at the end of c, by its only subtree. */
    static method Detach(swap: Node<V>, swapChild: Node?<V>, ghost c: NPath<V>, ghost m: NTree<V>, ghost sub: NTree<V>,
                         ghost root: Node?<V>, ghost nodes: set<Node<V>>)
      requires !c.Top? && m.Bin? && m.node == swap && Focus(c, m, root) && nodes == Nodes(m) + PathNodes(c)
      requires if sub == m.left then m.right.Leaf? else sub == m.right && m.left.Leaf?
      requires swapChild == RootOf(sub)
      modifies nodes
      ensures Focus(c, sub, root)
    {
      ghost var up := c.up;
      ChildSides(c, m, root);
      assert Owns(m.left, swap.left, swap) && Owns(m.right, swap.right, swap);
      assert OwnsPath(up, c.node, root);
      if swap == swap.parent.left {
        swap.parent.left := swapChild;
      } else {
        swap.parent.right := swapChild;
      }
      SetParent(swapChild, swap.parent, sub, swap);
      assert OwnsPath(up, c.node, root);
    }

    /** Gives swap the children of last and makes it the root. */
    method Reroot(swap: Node<V>, last: Node<V>, ghost u: NTree<V>, ghost nodes: set<Node<V>>)
      requires nodes == Nodes(u)
      requires u.Bin? && u.node == last && Owns(u, last, null) && swap !in Nodes(u)
      modifies this`root, this`tree, swap, nodes
      ensures root == swap && tree == Bin(u.left, swap, swap.val, u.right) && Focus(Top, tree, root)
    {
      ghost var l, r := u.left, u.right;
      assert Owns(l, last.left, last) && Owns(r, last.right, last);
      RootInNodes(l, last.left, last);
      RootInNodes(r, last.right, last);
      root := swap;
      root.parent := null;
      root.left := last.left;
      root.right := last.right;
      SetParent(root.left, root, l, last);
      SetParent(root.right, root, r, last);
      tree := Bin(l, swap, swap.val, r);
    }

    /** Walks to the rightmost node below start. */
    method RightEnd(start: Node<V>, ghost c0: NPath<V>, ghost t0: NTree<V>)
        returns (swap: Node<V>, ghost c: NPath<V>, ghost m: NTree<V>, ghost links: nat)
      requires t0.Bin? && t0.node == start && Focus(c0, t0, root)
      ensures (c, m) == RightSpine(c0, t0) && swap == RightSpine(c0, t0).1.node && Focus(c, m, root)
      ensures Focus(c0, t0, root) && links == RightLength(t0)
    {
      hide OwnsPath;
      swap := start;
      c, m, links := c0, t0, 0;
      ChildrenOf(m, swap);
      while swap.right != null
        invariant m.Bin? && m.node == swap && Focus(c, m, root) && swap.right == RootOf(m.right)
        invariant RightSpine(c, m) == RightSpine(c0, t0) && links + RightLength(m) == RightLength(t0)
        decreases m
      {
        c, m := RightOf(m.left, swap, m.val, c), m.right;
        swap := swap.right;
        links := links + 1;
        FocusDown(c, m, root);
        ChildrenOf(m, swap);
      }
      FocusPlug(c, m, root);
      FocusPlug(c0, t0, root);
    }

    method LeftEnd(start: Node<V>, ghost c0: NPath<V>, ghost t0: NTree<V>)
        returns (swap: Node<V>, ghost c: NPath<V>, ghost m: NTree<V>, ghost links: nat)
      requires t0.Bin? && t0.node == start && Focus(c0, t0, root)
      ensures (c, m) == LeftSpine(c0, t0) && swap == LeftSpine(c0, t0).1.node && Focus(c, m, root)
      ensures Focus(c0, t0, root) && links == LeftLength(t0)
    {
      hide OwnsPath;
      swap := start;
      c, m, links := c0, t0, 0;
      ChildrenOf(m, swap);
      while swap.left != null
        invariant m.Bin? && m.node == swap && Focus(c, m, root) && swap.left == RootOf(m.left)
        invariant LeftSpine(c, m) == LeftSpine(c0, t0) && links + LeftLength(m) == LeftLength(t0)
        decreases m
      {
        c, m := LeftOf(swap, m.val, m.right, c), m.left;
        swap := swap.left;
        links := links + 1;
        FocusDown(c, m, root);
        ChildrenOf(m, swap);
      }
      FocusPlug(c, m, root);
      FocusPlug(c0, t0, root);
    }

    ghost method CountWalk(links: nat, nodes: set<Node<V>>)
      requires Focus(Top, tree, root) && nodes == Nodes(tree)
      modifies this`walked
      ensures Focus(Top, tree, root) && walked == old(walked) + links
    {
      walked := walked + links;
    }

    ghost method CountSearch(links: nat, nodes: set<Node<V>>)
      requires Valid() && nodes == Nodes(tree)
      modifies this`searched
      ensures Valid() && searched == old(searched) + links
    {
      hide StrictOrder, Sorted;
      searched := searched + links;
    }

    /** The second half of remove: swaps a neighbour in for the root. */
    method TakeRoot(last: Node<V>)
      requires tree.Bin? && root == last && tree.node == last && Focus(Top, tree, root)
      modifies this`root, this`tree, this`walked, Nodes(tree)
      ensures tree == DropRoot(old(tree)) && Focus(Top, tree, root)
      ensures last !in Nodes(tree) && walked == old(walked) + DropWalk(old(tree))
    {
      hide Owns, OwnsPath, Focus;
      ghost var t := tree;
      DropRootInOrder(t);
      RootFocus(t, root);
      var swap, swapChild;
      ghost var c, m, sub, links;
      if root.left != null {
        DetachLeft(t);
        swap, c, m, links := RightEnd(root.left, LeftOf(last, t.val, t.right, Top), t.left);
        swapChild, sub := swap.left, m.left;
      } else if root.right != null {
        DetachRight(t);
        swap, c, m, links := LeftEnd(root.right, RightOf(Leaf, last, t.val, Top), t.right);
        swapChild, sub := swap.right, m.right;
      } else {
        root := null;
        tree := Leaf;
        EmptyFocus<V>();
        return;
      }
      EndOfSpine(c, m, sub, swap, root);
      ValOf(c, m, root);
      Detach(swap, swapChild, c, m, sub, root, Nodes(t));
      ghost var u := Plug(c, sub);
      FocusPlug(c, sub, root);
      RootFocus(u, root);
      LastElsewhere(u, swap);
      Reroot(swap, last, u, Nodes(u));
      CountWalk(links, Nodes(tree));
    }

    /** Removes and returns the node whose value compares equal to v. Its left and right
        pointers are left as they were. */
    method Remove(v: V) returns (last: Node<V>)
      requires Valid() && Has(cmp, InOrder(tree), v)
      modifies this, Nodes(tree)
      ensures Valid() && tree == RemoveTree(cmp, old(tree), v)
      ensures cmp(v, last.val) == 0 && last !in Nodes(tree) && Nodes(tree) + {last} == old(Nodes(tree))
      ensures exists k | 0 <= k < |old(InOrder(tree))| ::
        (old(InOrder(tree))[k] == last.val
         && InOrder(tree) == old(InOrder(tree))[..k] + old(InOrder(tree))[k + 1..])
      ensures steps == old(steps) + LookupSteps(cmp, old(tree), v)
      ensures searched == old(searched) + LookupNodes(cmp, old(tree), v)
      ensures walked == old(walked) + DropWalk(ContainsTree(cmp, old(tree), v))
    {
      hide Owns, OwnsPath, Focus, StrictOrder, Sorted, Has, DropRoot, DropWalk, LookupNodes;
      ghost var k := RemoveRefines(cmp, tree, v);
      RootIsNull(tree, root);
      ghost var c, f, met;
      last, c, f, met := Lookup(v);
      searched := searched + met;
      PlugNodes(c, f);
      ContainsKeeps(cmp, tree, v);
      tree := ContainsTree(cmp, tree, v);
      Splay(last, c, f);
      assert last == root;
      TakeRoot(last);
    }

    /** Removes and returns the least node. */
    method RemoveMin() returns (min: Node<V>)
      requires Valid() && tree.Bin?
      modifies this, Nodes(tree)
      ensures Valid() && |old(InOrder(tree))| > 0
      ensures min.val == old(InOrder(tree))[0] && InOrder(tree) == old(InOrder(tree))[1..]
      ensures min !in Nodes(tree) && Nodes(tree) + {min} == old(Nodes(tree))
      ensures tree == RemoveTree(cmp, old(tree), MinVal(old(tree)))
      ensures steps == old(steps) + LookupSteps(cmp, old(tree), MinVal(old(tree)))
      ensures searched == old(searched) + SearchOf(cmp, old(tree), SplayCost.RemoveMin)
      ensures walked == old(walked) + WalkOf(cmp, old(tree), SplayCost.RemoveMin)
    {
      hide Owns, OwnsPath, Focus, StrictOrder, Sorted, Has, DropWalk, LookupNodes, LeftLength;
      RootIsNull(tree, root);
      MinIsFirst(cmp, tree);
      ghost var s, t := InOrder(tree), tree;
      var node, c, m, links := LeftEnd(root, Top, tree);
      assert node.val == MinVal(t) by { ValOf(c, m, root); }
      min := Remove(node.val);
      CountSearch(links, Nodes(tree));
      ghost var k: nat :| k < |s| && s[k] == min.val && InOrder(tree) == s[..k] + s[k + 1..];
      OnlyFirst(cmp, s, k);
    }

    method Perform(op: Op<Node<V>, V>)
      requires Valid() && Legal(cmp, tree, op) && Detached(op)
      requires op.Insert? ==> op.n !in Nodes(tree)
      modifies this, Nodes(tree), Inserted([op])
      ensures Valid() && tree == Do(cmp, old(tree), op)
      ensures steps == old(steps) + StepsOf(cmp, old(tree), op)
      ensures searched == old(searched) + SearchOf(cmp, old(tree), op)
      ensures walked == old(walked) + WalkOf(cmp, old(tree), op)
      ensures Nodes(tree) <= old(Nodes(tree)) + Inserted([op])
    {
      hide Owns, OwnsPath, Focus, StrictOrder, Sorted, Has, DropWalk, LookupNodes, LeftLength;
      match op {
        case Contains(v) => var _ := Contains(v);
        case Insert(n, v) => var _ := Insert(n);
        case Remove(v) => var _ := Remove(v);
        case RemoveMin => var _ := RemoveMin();
      }
    }

    /** Any legal run on the heap, inserting distinct detached nodes, takes at most
        |ops| * (4 * floor(log2 n) + 1) steps more than the potential it starts with, and
        searching takes at most four times the steps and two more an operation. */
    method Run(ops: seq<Op<Node<V>, V>>, ghost n: nat)
      requires Valid() && LegalRun(cmp, tree, ops, n)
      requires forall op | op in ops :: Detached(op)
      requires DistinctInserts(ops) && Inserted(ops) !! Nodes(tree)
      modifies this, Nodes(tree), Inserted(ops)
      ensures Valid()
      ensures steps == old(steps) + RunSteps(cmp, old(tree), ops, n)
      ensures steps <= old(steps) + Potential(old(tree)) + |ops| * (4 * FloorLog2(n) + 1)
      ensures searched == old(searched) + RunSearch(cmp, old(tree), ops, n)
      ensures searched - old(searched) <= 4 * (steps - old(steps)) + 2 * |ops|
      ensures walked == old(walked) + RunWalks(cmp, old(tree), ops, n)
      decreases |ops|
    {
      hide Owns, OwnsPath, Focus, StrictOrder, Sorted, Has, Legal, Do, StepsOf, SearchOf, WalkOf, Potential, FloorLog2;
      RunPays(cmp, tree, ops, n);
      RunSearchBySteps(cmp, tree, ops, n);
      if ops != [] {
        ghost var rest := ops[1..];
        SplitInserts(ops);
        Perform(ops[0]);
        Run(ops[1..], n);
      }
    }
  }

  /** An inserted node carries its value and no pointers. */
  ghost predicate Detached<V>(op: Op<Node<V>, V>)
    reads if op.Insert? then {op.n} else {}
  {
    op.Insert? ==> op.n.val == op.v && op.n.left == null && op.n.right == null && op.n.parent == null
  }

  ghost function Inserted<V>(ops: seq<Op<Node<V>, V>>): set<Node<V>> {
    set op | op in ops && op.Insert? :: op.n
  }

  ghost predicate DistinctInserts<V>(ops: seq<Op<Node<V>, V>>) {
    forall i, j | 0 <= i < j < |ops| && ops[i].Insert? && ops[j].Insert? :: ops[i].n != ops[j].n
  }

  lemma SplitInserts<V>(ops: seq<Op<Node<V>, V>>)
    requires ops != [] && DistinctInserts(ops)
    ensures Inserted(ops) == Inserted([ops[0]]) + Inserted(ops[1..])
    ensures Inserted([ops[0]]) !! Inserted(ops[1..]) && DistinctInserts(ops[1..])
    ensures ops[0].Insert? ==> ops[0].n in Inserted([ops[0]])
  {
    assert ops == [ops[0]] + ops[1..];
    assert ops[0] in [ops[0]];
    forall n | n in Inserted(ops[1..]) ensures n !in Inserted([ops[0]]) {
      var op :| op in ops[1..] && op.Insert? && op.n == n;
      var j :| 0 < j < |ops| && ops[j] == op;
    }
  }

  /** What insert relies on: a new root for an empty tree, else a gap below the end of
      the search. */
  lemma InsertCases<V(!new)>(cmp: Comparator<V>, t: NTree<V>, n: Node<V>, v: V)
    requires StrictOrder(cmp) && Sorted(cmp, InOrder(t)) && !Has(cmp, InOrder(t), v)
    ensures t.Leaf? ==> InsertTree(cmp, t, n, v) == Bin(Leaf, n, v, Leaf)
    ensures t.Leaf? ==> StepsOf(cmp, t, SplayCost.Insert(n, v)) == 0
    ensures t.Bin? ==> Plug(InsertPath(cmp, t, v), Leaf) == t
    ensures t.Bin? ==> var f := Descend(cmp, Top, t, v).1; if cmp(v, f.val) < 0 then f.left.Leaf? else f.right.Leaf?
    ensures t.Bin? ==> StepsOf(cmp, t, SplayCost.Insert(n, v)) == SplaySteps(InsertPath(cmp, t, v))
  {
    hide StrictOrder, Sorted, Has, Plug, InOrder, Descend;
    if t.Bin? {
      InsertPathGap(cmp, t, v);
      LookupFinds(cmp, t, v);
    }
  }

  lemma ValOf<V>(c: NPath<V>, m: NTree<V>, root: Node?<V>)
    requires m.Bin? && Focus(c, m, root)
    ensures m.node.val == m.val
  {
  }

  // Only the first element of a sorted sequence compares equal to it.
  lemma OnlyFirst<V(!new)>(cmp: Comparator<V>, s: seq<V>, k: nat)
    requires Sorted(cmp, s) && k < |s| && cmp(s[0], s[k]) == 0
    ensures k == 0
  {
  }

  lemma EmptyFocus<V>()
    ensures Focus<V>(Top, Leaf, null)
  {
  }

  lemma RootFocus<V>(t: NTree<V>, root: Node?<V>)
    requires t.Bin? && Focus(Top, t, root)
    ensures root == t.node && root.left == RootOf(t.left) && root.right == RootOf(t.right)
    ensures Focus(LeftOf(t.node, t.val, t.right, Top), t.left, root)
    ensures Focus(RightOf(t.left, t.node, t.val, Top), t.right, root)
    ensures Owns(t, t.node, null) && t.node !in Nodes(t.left) + Nodes(t.right)
  {
    ChildrenOf(t, t.node);
    FocusDown(LeftOf(t.node, t.val, t.right, Top), t.left, root);
    FocusDown(RightOf(t.left, t.node, t.val, Top), t.right, root);
  }

  lemma EndOfSpine<V>(c: NPath<V>, m: NTree<V>, sub: NTree<V>, swap: Node<V>, root: Node?<V>)
    requires m.Bin? && m.node == swap && Focus(c, m, root) && (sub == m.left || sub == m.right)
    ensures swap !in PathNodes(c) + Nodes(sub) && Nodes(Plug(c, m)) == Nodes(m) + PathNodes(c)
    ensures Nodes(Plug(c, sub)) == PathNodes(c) + Nodes(sub)
    ensures swap.left == RootOf(m.left) && swap.right == RootOf(m.right)
  {
    PlugNodes(c, m);
    PlugNodes(c, sub);
    ChildrenOf(m, swap);
  }

  lemma LastElsewhere<V>(u: NTree<V>, swap: Node<V>)
    requires u.Bin? && swap !in Nodes(u) && u.node !in Nodes(u.left) + Nodes(u.right)
    ensures u.node !in Nodes(Bin(u.left, swap, swap.val, u.right))
  {
  }

  lemma SingleFocus<V>(v: Node<V>)
    requires v.left == null && v.right == null && v.parent == null
    ensures Focus(Top, Bin(Leaf, v, v.val, Leaf), v)
  {
  }

  lemma ChildrenOf<V>(t: NTree<V>, n: Node<V>)
    requires t.Bin? && exists p :: Owns(t, n, p)
    ensures n.val == t.val && n.left == RootOf(t.left) && n.right == RootOf(t.right)
  {
    RootInNodes(t.left, n.left, n);
    RootInNodes(t.right, n.right, n);
  }

  lemma RootIsNull<V>(t: NTree<V>, root: Node?<V>)
    requires Focus(Top, t, root)
    ensures root == RootOf(t)
  {
  }

  lemma NothingInLeaf<V>(cmp: Comparator<V>, v: V)
    ensures !Has(cmp, InOrder<Node<V>, V>(Leaf), v)
  {
  }

  /** node is its parent's left child exactly when the path says so. */
  lemma ChildSides<V>(c: NPath<V>, t: NTree<V>, root: Node?<V>)
    requires !c.Top? && t.Bin? && Focus(c, t, root)
    ensures c.node.left == t.node <==> c.LeftOf?
    ensures t.node.parent == c.node
  {
    if c.RightOf? {
      RootInNodes(c.left, c.node.left, c.node);
    }
  }

  lemma SiblingElsewhere<V>(c: NPath<V>, hole: Node<V>, root: Node?<V>)
    requires !c.Top? && OwnsPath(c, hole, root) && hole !in PathNodes(c)
    ensures c.node.left == hole <==> c.LeftOf?
  {
    if c.RightOf? {
      RootInNodes(c.left, c.node.left, c.node);
    }
  }

  lemma RootInNodes<V>(t: NTree<V>, n: Node?<V>, parent: Node?<V>)
    requires Owns(t, n, parent)
    ensures n == RootOf(t) && (n != null ==> n in Nodes(t))
  {
  }
}

// The red-black tree of src/ez_rbtree.c on heap nodes.

module RbTrees {
  import opened RbNodes
  import opened RbModel
  import opened RbDeletion
  import opened RbInsertion
  import opened RbShape
  import opened Sequences

  class RbTree {
    var root: Node
    const sentinel: Node
    ghost var tree: Tree
    ghost var order: seq<Node>  // the nodes of the tree from left to right
    ghost var nodes: set<Node>
    ghost var rotations: nat

    constructor (sentinel: Node)
      modifies sentinel
      ensures Linked() && tree == Leaf && order == [] && this.sentinel == sentinel
    {
      this.sentinel := sentinel;
      root := sentinel;
      tree, order, nodes := Leaf, [], {};
      rotations := 0;
      new;
      sentinel.red := false;
      sentinel.parent, sentinel.left, sentinel.right := null, null, null;
    }

    // The pointers form the ghost tree, and the sentinel is what every walk
    // relies on. Nothing is said about the root's parent or the sentinel's.
    ghost predicate Linked()
      reads this, sentinel, nodes
    {
      && sentinel.left == null && sentinel.right == null && !sentinel.red
      && root == RootOf(sentinel, tree) && order == InOrder(tree)
      && Represents(Snap(nodes), sentinel, tree)
    }

    // The tree between two calls.
    ghost predicate Valid()
      reads this, sentinel, nodes, set n | n in order :: n.record
    {
      Linked() && RedBlack(tree) && Sorted(order)
    }

    // What the fields hold around one position.
    lemma Look(c: Context, t: Tree)
      requires Linked() && tree == Plug(c, t)
      ensures t.Branch? ==> t.node in nodes && t.node != sentinel && t.node.red == t.red
      ensures t.Branch? ==> t.node.left == RootOf(sentinel, t.left) && t.node.right == RootOf(sentinel, t.right)
      ensures !c.Top? ==> c.node in nodes && c.node != sentinel && c.node.red == c.red
      ensures c.InLeft? ==> c.node.left == RootOf(sentinel, t) && c.node.right == RootOf(sentinel, c.right)
      ensures c.InRight? ==> c.node.right == RootOf(sentinel, t) && c.node.left == RootOf(sentinel, c.left)
      ensures !c.Top? && t.Branch? ==> t.node.parent == c.node
      ensures c.InLeft? && (t.Branch? || c.right.Branch?) ==> c.node.right != RootOf(sentinel, t)
      ensures c.InRight? && (t.Branch? || c.left.Branch?) ==> c.node.left != RootOf(sentinel, t)
      ensures c.Top? <==> root == RootOf(sentinel, t)
      ensures nodes == NodeSet(t) + Around(c) && NodeSet(t) !! Around(c) && Separate(t)
      ensures sentinel !in nodes && !sentinel.red && order == InOrder(tree) && nodes == (set n | n in order)
      ensures tree.Leaf? ==> order == []
    {
      Unplug(Snap(nodes), sentinel, c, t);
      SeparatePlug(c, t);
      NodeSetPlug(c, t);
      NodeSetInOrder(tree);
      if !c.Top? {
        RootPlug(c, t);
      }
    }

    // What the fields hold around the right child of a position, and that the
    // nodes a left rotation touches are different ones.
    lemma LookRight(c: Context, t: Tree)
      requires Linked() && tree == Plug(c, t) && t.Branch? && t.right.Branch?
      ensures var u := t.right;
        && u.node in nodes && u.node.left == RootOf(sentinel, u.left) && u.node.right == RootOf(sentinel, u.right)
        && (u.left.Branch? ==> u.left.node in nodes && u.left.node != sentinel)
        && t.node != u.node && RootOf(sentinel, u.left) !in {t.node, u.node}
        && (!c.Top? ==> c.node !in {t.node, u.node, RootOf(sentinel, u.left)})
    {
      var u := t.right;
      var d := InRight(c, t.left, t.node, t.red);
      Look(c, t);
      Look(d, u);
      Look(InLeft(d, u.node, u.red, u.right), u.left);
    }

    lemma LookLeft(c: Context, t: Tree)
      requires Linked() && tree == Plug(c, t) && t.Branch? && t.left.Branch?
      ensures var u := t.left;
        && u.node in nodes && u.node.left == RootOf(sentinel, u.left) && u.node.right == RootOf(sentinel, u.right)
        && (u.right.Branch? ==> u.right.node in nodes && u.right.node != sentinel)
        && t.node != u.node && RootOf(sentinel, u.right) !in {t.node, u.node}
        && (!c.Top? ==> c.node !in {t.node, u.node, RootOf(sentinel, u.right)})
    {
      var u := t.left;
      var d := InLeft(c, t.node, t.red, t.right);
      Look(c, t);
      Look(d, u);
      Look(InRight(d, u.left, u.node, u.red), u.right);
    }

    method SetColor(n: Node, red: bool, ghost c: Context, ghost t: Tree)
      requires Linked() && tree == Plug(c, t) && t.Branch? && t.node == n
      modifies this, nodes
      ensures Linked() && tree == Plug(c, Repaint(t, red))
      ensures order == old(order) && nodes == old(nodes) && rotations == old(rotations)
    {
      hide Represents, Plug, InOrder, NodeSet, Around, Repaint;
      Look(c, t);
      ghost var h := Snap(nodes);
      tree := Plug(c, Repaint(t, red));
      n.red := red;
      RepaintWhole(h, Snap(nodes), sentinel, c, t, red);
    }

    ghost function Real(x: Node?): set<Node> {
      if x == null || x == sentinel then {} else {x}
    }

    // From the fields after a left rotation to the cells of a snapshot.
    lemma LeftRotated(h: Heap, node: Node, y: Node, m: Node, p: Node?)
      requires {node, y} <= h.Keys && node != y && m !in {node, y} && p !in {node, y, m} && (p != null ==> p in h)
      requires node.right == m && node.parent == y && node.left == h[node].left && node.red == h[node].red
      requires y.left == node && y.parent == h[node].parent && y.right == h[y].right && y.red == h[y].red
      requires m in h ==> m.parent == node && m.left == h[m].left && m.right == h[m].right && m.red == h[m].red
      requires p != null ==>
        && p.parent == h[p].parent && p.red == h[p].red
        && p.left == (if h[p].left == node then y else h[p].left)
        && p.right == (if h[p].left == node then h[p].right else y)
      requires forall n :: n in h && n !in {node, y, m, p} ==> Cell(n.left, n.right, n.parent, n.red) == h[n]
      ensures RotatedLeft(h, Snap(h.Keys), node, y, m, p)
    {
    }

    // The pointer writes of a left rotation, in terms of any snapshot `h` that
    // holds the nodes written.
    method LeftRotate(node: Node, ghost above: Node?, ghost h: Heap)
      requires above == if node == root then null else node.parent
      requires node != root ==> node.parent != null
      requires node.right != null && node.right.left != null
      requires node != node.right && node.right.left !in {node, node.right}
      requires above != sentinel && above !in {node, node.right, node.right.left}
      requires h == Snap(h.Keys) && {node, node.right} + Real(above) + Real(node.right.left) <= h.Keys && sentinel !in h.Keys
      modifies `root, h.Keys
      ensures RotatedLeft(h, Snap(h.Keys), node, old(node.right), old(node.right.left), above)
      ensures root == if old(root) == node then old(node.right) else old(root)
    {
      hide RotatedLeft;
      var temp := node.right;
      node.right := temp.left;
      if temp.left != sentinel {
        temp.left.parent := node;
      }
      temp.parent := node.parent;
      if node == root {
        root := temp;
      } else if node == node.parent.left {
        node.parent.left := temp;
      } else {
        node.parent.right := temp;
      }
      temp.left := node;
      node.parent := temp;
      LeftRotated(h, node, temp, node.right, above);
    }

    method LeftRotateAt(node: Node, ghost c: Context, ghost t: Tree)
      requires Linked() && tree == Plug(c, t) && t.Branch? && t.node == node && t.right.Branch?
      modifies this, nodes
      ensures Linked() && tree == Plug(c, RotateLeft(t)) && order == old(order) && nodes == old(nodes)
      ensures rotations == old(rotations) + 1
    {
      hide Represents, Plug, InOrder, NodeSet, Around, RotateLeft, RotatedLeft;
      Look(c, t);
      LookRight(c, t);
      ghost var h := Snap(nodes);
      rotations := rotations + 1;
      tree := Plug(c, RotateLeft(t));
      LeftRotate(node, Above(c), h);
      RotateLeftWhole(h, Snap(nodes), sentinel, c, t);
    }

    // The mirror image, for right rotations.
    lemma RightRotated(h: Heap, node: Node, y: Node, m: Node, p: Node?)
      requires {node, y} <= h.Keys && node != y && m !in {node, y} && p !in {node, y, m} && (p != null ==> p in h)
      requires node.left == m && node.parent == y && node.right == h[node].right && node.red == h[node].red
      requires y.right == node && y.parent == h[node].parent && y.left == h[y].left && y.red == h[y].red
      requires m in h ==> m.parent == node && m.right == h[m].right && m.left == h[m].left && m.red == h[m].red
      requires p != null ==>
        && p.parent == h[p].parent && p.red == h[p].red
        && p.right == (if h[p].right == node then y else h[p].right)
        && p.left == (if h[p].right == node then h[p].left else y)
      requires forall n :: n in h && n !in {node, y, m, p} ==> Cell(n.left, n.right, n.parent, n.red) == h[n]
      ensures RotatedRight(h, Snap(h.Keys), node, y, m, p)
    {
    }

    method RightRotate(node: Node, ghost above: Node?, ghost h: Heap)
      requires above == if node == root then null else node.parent
      requires node != root ==> node.parent != null
      requires node.left != null && node.left.right != null
      requires node != node.left && node.left.right !in {node, node.left}
      requires above != sentinel && above !in {node, node.left, node.left.right}
      requires h == Snap(h.Keys) && {node, node.left} + Real(above) + Real(node.left.right) <= h.Keys && sentinel !in h.Keys
      modifies `root, h.Keys
      ensures RotatedRight(h, Snap(h.Keys), node, old(node.left), old(node.left.right), above)
      ensures root == if old(root) == node then old(node.left) else old(root)
    {
      hide RotatedRight;
      var temp := node.left;
      node.left := temp.right;
      if temp.right != sentinel {
        temp.right.parent := node;
      }
      temp.parent := node.parent;
      if node == root {
        root := temp;
      } else if node == node.parent.right {
        node.parent.right := temp;
      } else {
        node.parent.left := temp;
      }
      temp.right := node;
      node.parent := temp;
      RightRotated(h, node, temp, node.left, above);
    }

    method RightRotateAt(node: Node, ghost c: Context, ghost t: Tree)
      requires Linked() && tree == Plug(c, t) && t.Branch? && t.node == node && t.left.Branch?
      modifies this, nodes
      ensures Linked() && tree == Plug(c, RotateRight(t)) && order == old(order) && nodes == old(nodes)
      ensures rotations == old(rotations) + 1
    {
      hide Represents, Plug, InOrder, NodeSet, Around, RotateRight, RotatedRight;
      Look(c, t);
      LookLeft(c, t);
      ghost var h := Snap(nodes);
      rotations := rotations + 1;
      tree := Plug(c, RotateRight(t));
      RightRotate(node, Above(c), h);
      RotateRightWhole(h, Snap(nodes), sentinel, c, t);
    }

    // ----- Smallest node -----

    // The smallest node of a subtree, and where it sits in it.
    method Min(start: Node, ghost outer: Context, ghost whole: Tree)
      returns (node: Node?, ghost c: Context, ghost t: Tree)
      requires Linked() && tree == Plug(outer, whole) && start == RootOf(sentinel, whole)
      ensures whole == Plug(c, t) && Before(c) == []
      ensures if whole.Leaf? then node == null else t.Branch? && t.left.Leaf? && node == t.node
    {
      node, c, t := start, Top, whole;
      while node != null && node.left != sentinel
        invariant Linked() && whole == Plug(c, t) && Before(c) == []
        invariant if t.Branch? then node == t.node else whole.Leaf? && node in {sentinel, null}
        decreases t, node
      {
        PlugCompose(c, outer, t);
        Look(Compose(c, outer), t);
        node := node.left;
        if t.Branch? {
          c, t := InLeft(c, t.node, t.red, t.right), t.left;
        }
      }
      PlugCompose(c, outer, t);
      Look(Compose(c, outer), t);
    }

    // ----- Insertion -----

    // The search for the empty place where a new node goes: equal keys go right.
    method FindPlace(start: Node, node: Node) returns (begin: Node, left: bool, ghost c: Context)
      requires Linked() && start == root && tree.Branch? && Sorted(order)
      ensures tree == Plug(c, Leaf) && !c.Top? && begin == c.node && left == c.InLeft?
      ensures order == Before(c) + After(c)
      ensures AllAtMost(Before(c), node.record.key) && AllAbove(After(c), node.record.key)
    {
      begin := start;
      ghost var t := tree;
      c := Top;
      WholeTree(tree);
      hide Represents, Plug, InOrder, NodeSet, Around, Before, After;
      while true
        invariant Linked() && Sorted(order)
        invariant tree == Plug(c, t) && t.Branch? && begin == t.node
        invariant AllAtMost(Before(c), node.record.key) && AllAbove(After(c), node.record.key)
        decreases t
      {
        Look(c, t);
        OrderAround(c, t, node.record.key);
        left := node.record.key < begin.record.key;
        if left {
          c, t := InLeft(c, t.node, t.red, t.right), t.left;
          if begin.left == sentinel { break; }
          begin := begin.left;
        } else {
          c, t := InRight(c, t.left, t.node, t.red), t.right;
          if begin.right == sentinel { break; }
          begin := begin.right;
        }
      }
      Look(c, t);
      HoleOrder(c);
    }

    // From the fields of a new node and its parent to the cells of a snapshot.
    lemma Attached(h: Heap, c: Context, node: Node)
      requires !c.Top? && c.node in h && node !in h
      requires Cell(node.left, node.right, node.parent, node.red) == Cell(sentinel, sentinel, c.node, true)
      requires forall n :: n in h ==>
        Cell(n.left, n.right, n.parent, n.red) == if n == c.node then Relink(c, h[n], node) else h[n]
      ensures Snap(h.Keys + {node}) ==
        h[c.node := Relink(c, h[c.node], node)][node := Cell(sentinel, sentinel, c.node, true)]
    {
    }

    // The links of a new node, in terms of a snapshot.
    method AttachLinks(begin: Node, left: bool, node: Node, ghost c: Context, ghost h: Heap)
      requires h == Snap(h.Keys) && !c.Top? && c.node in h && node !in h
      requires begin == c.node && left == c.InLeft?
      modifies begin, node
      ensures Snap(h.Keys + {node}) ==
        h[c.node := Relink(c, h[c.node], node)][node := Cell(sentinel, sentinel, c.node, true)]
      ensures begin.parent == old(begin.parent)
    {
      if left {
        begin.left := node;
      } else {
        begin.right := node;
      }
      node.parent := begin;
      node.left := sentinel;
      node.right := sentinel;
      node.red := true;
      Attached(h, c, node);
    }

    // Hanging a new node in its place, red.
    method Attach(begin: Node, left: bool, node: Node, ghost c: Context)
      requires Linked() && tree == Plug(c, Leaf) && !c.Top?
      requires begin == c.node && left == c.InLeft?
      requires node !in nodes && node != sentinel
      modifies this, nodes, node
      ensures Linked() && tree == Plug(c, Branch(Leaf, node, true, Leaf))
      ensures order == Before(c) + [node] + After(c)
      ensures nodes == old(nodes) + {node} && rotations == old(rotations)
    {
      hide Represents, Plug, InOrder, NodeSet, Around, Before, After, Relink;
      Look(c, Leaf);
      ghost var h := Snap(nodes);
      tree := Plug(c, Branch(Leaf, node, true, Leaf));
      order, nodes := Before(c) + [node] + After(c), nodes + {node};
      AttachLinks(begin, left, node, c, h);
      AttachWhole(h, Snap(nodes), sentinel, c, node);
    }

    method DefaultInsertValue(start: Node, node: Node) returns (ghost c: Context)
      requires Linked() && start == root && tree.Branch?
      requires node !in nodes && node != sentinel && Sorted(order)
      modifies this, nodes, node
      ensures !c.Top? && old(tree) == Plug(c, Leaf)
      ensures Linked() && tree == Plug(c, Branch(Leaf, node, true, Leaf))
      ensures nodes == old(nodes) + {node} && rotations == old(rotations)
      ensures Spliced(old(order), order, node)
    {
      hide Represents, Plug, InOrder, NodeSet, Around, Before, After;
      var begin, left;
      begin, left, c := FindPlace(start, node);
      ghost var k := |Before(c)|;
      assert order[..k] == Before(c) && order[k..] == After(c);
      Attach(begin, left, node, c);
    }

    // What the fields hold one and two levels above a position.
    lemma LookUp(c: Context, t: Tree)
      requires Linked() && tree == Plug(c, t) && t.Branch?
      ensures t.node in nodes && (c.Top? <==> t.node == root)
      ensures !c.Top? ==>
        && Plug(c.up, Fill(c, t)) == tree
        && t.node.parent == c.node && c.node in nodes && c.node.red == c.red
        && (t.node == c.node.left <==> c.InLeft?) && (t.node == c.node.right <==> c.InRight?)
      ensures !c.Top? && !c.up.Top? ==>
        && var g := c.up;
        && Plug(g.up, Fill(g, Fill(c, t))) == tree
        && c.node.parent == g.node && g.node in nodes
        && (c.node == g.node.left <==> g.InLeft?)
        && (g.InLeft? ==> g.node.right == RootOf(sentinel, g.right))
        && (g.InRight? ==> g.node.left == RootOf(sentinel, g.left))
        && RootOf(sentinel, Sibling(g)).red == IsRed(Sibling(g))
    {
      Look(c, t);
      if !c.Top? {
        Look(c.up, Fill(c, t));
        if !c.up.Top? {
          var g, f := c.up, Fill(c, t);
          Look(g.up, Fill(g, f));
          Look(if g.InLeft? then InRight(g.up, f, g.node, g.red) else InLeft(g.up, g.node, g.red, f), Sibling(g));
        }
      }
    }

    // Black uncle, on the left side: at most two rotations end the loop.
    method RaiseLeft(start: Node, ghost c0: Context, ghost t0: Tree)
      returns (node: Node, ghost c: Context, ghost t: Tree)
      requires Linked() && tree == Plug(c0, t0) && RedDefect(c0, t0) && start == t0.node
      requires !c0.Top? && c0.red && !c0.up.Top? && c0.up.InLeft? && !IsRed(Sibling(c0.up))
      modifies this, nodes
      ensures Linked() && tree == Plug(c, t) && RedDefect(c, t) && t.Branch? && node == t.node
      ensures !c.Top? && !c.red
      ensures order == old(order) && nodes == old(nodes) && rotations <= old(rotations) + 2
    {
      hide Linked, RedDefect;
      node, c, t := start, c0, t0;
      DefectGrandparent(c, t);
      LookUp(c, t);
      if node == node.parent.right {
        node := node.parent;
        DefectOuter(c, t);
        LeftRotateAt(node, c.up, Branch(c.left, c.node, c.red, t));
        c, t := InLeft(c.up, t.node, true, t.right), Branch(c.left, c.node, true, t.left);
        LookUp(c, t);
      }
      DefectRotated(c, t);
      ghost var p, g := Branch(t, c.node, false, c.right), c.up;
      SetColor(node.parent, false, g, Fill(c, t));
      LookUp(InLeft(g, c.node, false, c.right), t);
      SetColor(node.parent.parent, true, g.up, Branch(p, g.node, false, g.right));
      LookUp(InLeft(InLeft(g.up, g.node, true, g.right), c.node, false, c.right), t);
      RightRotateAt(node.parent.parent, g.up, Branch(p, g.node, true, g.right));
      c := InLeft(g.up, c.node, false, Branch(c.right, g.node, true, g.right));
    }

    // Black uncle, on the right side: at most two rotations end the loop.
    method RaiseRight(start: Node, ghost c0: Context, ghost t0: Tree)
      returns (node: Node, ghost c: Context, ghost t: Tree)
      requires Linked() && tree == Plug(c0, t0) && RedDefect(c0, t0) && start == t0.node
      requires !c0.Top? && c0.red && !c0.up.Top? && c0.up.InRight? && !IsRed(Sibling(c0.up))
      modifies this, nodes
      ensures Linked() && tree == Plug(c, t) && RedDefect(c, t) && t.Branch? && node == t.node
      ensures !c.Top? && !c.red
      ensures order == old(order) && nodes == old(nodes) && rotations <= old(rotations) + 2
    {
      hide Linked, RedDefect;
      node, c, t := start, c0, t0;
      DefectGrandparent(c, t);
      LookUp(c, t);
      if node == node.parent.left {
        node := node.parent;
        DefectOuter(c, t);
        RightRotateAt(node, c.up, Branch(t, c.node, c.red, c.right));
        c, t := InRight(c.up, t.left, t.node, true), Branch(t.right, c.node, true, c.right);
        LookUp(c, t);
      }
      DefectRotated(c, t);
      ghost var p, g := Branch(c.left, c.node, false, t), c.up;
      SetColor(node.parent, false, g, Fill(c, t));
      LookUp(InRight(g, c.left, c.node, false), t);
      SetColor(node.parent.parent, true, g.up, Branch(g.left, g.node, false, p));
      LookUp(InRight(InRight(g.up, g.left, g.node, true), c.left, c.node, false), t);
      LeftRotateAt(node.parent.parent, g.up, Branch(g.left, g.node, true, p));
      c := InRight(g.up, Branch(g.left, g.node, true, c.left), c.node, false);
    }

    // Red uncle: the parent and the uncle turn black, the grandparent red.
    method PassRedUp(start: Node, uncle: Node, ghost c0: Context, ghost t0: Tree)
      returns (node: Node, ghost c: Context, ghost t: Tree)
      requires Linked() && tree == Plug(c0, t0) && RedDefect(c0, t0) && start == t0.node
      requires !c0.Top? && c0.red && !c0.up.Top? && IsRed(Sibling(c0.up)) && uncle == Sibling(c0.up).node
      modifies this, nodes
      ensures Linked() && c == c0.up.up && t == PassUp(c0, t0) && tree == Plug(c, t)
      ensures RedDefect(c, t) && t.Branch? && node == t.node
      ensures order == old(order) && nodes == old(nodes) && rotations == old(rotations)
    {
      hide Linked, RedDefect;
      DefectGrandparent(c0, t0);
      DefectPassUp(c0, t0);
      LookUp(c0, t0);
      ghost var g, f, u := c0.up, Fill(c0, t0), Sibling(c0.up);
      ghost var f', u' := Repaint(f, false), Repaint(u, false);
      SetColor(start.parent, false, g, f);
      SetColor(uncle, false, if g.InLeft? then InRight(g.up, f', g.node, g.red) else InLeft(g.up, g.node, g.red, f'), u);
      ghost var g' := if g.InLeft? then InLeft(g.up, g.node, g.red, u') else InRight(g.up, u', g.node, g.red);
      ghost var c' := if c0.InLeft? then InLeft(g', c0.node, false, c0.right) else InRight(g', c0.left, c0.node, false);
      LookUp(c', t0);
      SetColor(start.parent.parent, true, g.up, Fill(g', f'));
      c, t := g.up, PassUp(c0, t0);
      LookUp(c'.(up := g'.(red := true)), t0);
      node := start.parent.parent;
    }

    method InsertFirst(node: Node)
      requires Linked() && root == sentinel && node !in nodes && node != sentinel
      modifies this, node
      ensures Linked() && RedBlack(tree) && order == [node]
      ensures nodes == {node} && rotations == old(rotations)
    {
      Look(Top, tree);
      node.parent := null;
      node.left := sentinel;
      node.right := sentinel;
      node.red := false;
      root := node;
      tree, order, nodes := Branch(Leaf, node, false, Leaf), [node], {node};
      assert Represents(Snap(nodes), sentinel, tree);
    }

    // The loop that moves a red-red pair up until it is gone.
    method RebalanceInserted(start: Node, ghost c0: Context, ghost t0: Tree)
      requires Linked() && tree == Plug(c0, t0) && RedDefect(c0, t0) && t0.Branch? && start == t0.node
      modifies this, nodes
      ensures Linked() && RedBlack(Repaint(tree, false)) && tree.Branch?
      ensures order == old(order) && nodes == old(nodes) && rotations <= old(rotations) + 2
    {
      hide RedDefect, Plug, Linked, RedBlack;
      var node := start;
      ghost var c, t := c0, t0;
      LookUp(c, t);
      while node != root && node.parent.red
        invariant Linked() && tree == Plug(c, t) && RedDefect(c, t) && t.Branch? && node == t.node
        invariant c.Top? <==> node == root
        invariant !c.Top? ==> node.parent == c.node && c.node in nodes && c.node.red == c.red
        invariant rotations <= old(rotations) + if c.Top? || !c.red then 2 else 0
        invariant order == old(order) && nodes == old(nodes)
        decreases if c.Top? || !c.red then 0 else Depth(c)
      {
        DefectGrandparent(c, t);
        LookUp(c, t);
        if node.parent == node.parent.parent.left {
          var temp := node.parent.parent.right;
          if temp.red {
            node, c, t := PassRedUp(node, temp, c, t);
          } else {
            node, c, t := RaiseLeft(node, c, t);
          }
        } else {
          var temp := node.parent.parent.left;
          if temp.red {
            node, c, t := PassRedUp(node, temp, c, t);
          } else {
            node, c, t := RaiseRight(node, c, t);
          }
        }
        LookUp(c, t);
      }
      DefectEnd(c, t);
    }

    // Equal keys keep the order in which they came.
    method Insert(node: Node)
      requires Valid() && node !in nodes && node != sentinel
      modifies this, nodes, node
      ensures Valid() && Spliced(old(order), order, node)
      ensures nodes == old(nodes) + {node} && rotations <= old(rotations) + 2
    {
      hide RedDefect, Plug, Represents, InOrder, RedBlack, Spliced, Sorted;
      WholeTree(tree);
      Look(Top, tree);
      if root == sentinel {
        InsertFirst(node);
        SplicedFirst(node);
        return;
      }
      ghost var c := DefaultInsertValue(root, node);
      DefectStart(c, node);
      RebalanceInserted(node, c, Branch(Leaf, node, true, Leaf));
      WholeTree(tree);
      WholeTree(Repaint(tree, false));
      Look(Top, tree);
      SetColor(root, false, Top, tree);
      SplicedSorted(old(order), order, node);
    }

    // ----- Deletion -----

    // What the fields hold around a hole and in the sibling subtree.
    lemma LookSibling(c: Context, t: Tree)
      requires Linked() && tree == Plug(c, t) && !c.Top? && Sibling(c).Branch?
      ensures Plug(c.up, Fill(c, t)) == tree && sentinel !in nodes && RootOf(sentinel, t) != root
      ensures c.node in nodes && c.node.red == c.red
      ensures t.Branch? ==> t.node in nodes && t.node.parent == c.node
      ensures RootOf(sentinel, t) == c.node.left <==> c.InLeft?
      ensures c.InLeft? ==> c.node.right == c.right.node
      ensures c.InRight? ==> c.node.left == c.left.node
      ensures var w := Sibling(c);
        && w.node in nodes && w.node.red == w.red
        && w.node.left == RootOf(sentinel, w.left) && w.node.right == RootOf(sentinel, w.right)
        && w.node.left.red == IsRed(w.left) && w.node.right.red == IsRed(w.right)
    {
      var w := Sibling(c);
      var d := if c.InLeft? then InRight(c.up, t, c.node, c.red) else InLeft(c.up, c.node, c.red, t);
      Look(c, t);
      Look(d, w);
      Look(InLeft(d, w.node, w.red, w.right), w.left);
      Look(InRight(d, w.left, w.node, w.red), w.right);
    }

    // Red sibling: one rotation brings a black one.
    method BlackenSiblingLeft(temp: Node, ghost c: Context, ghost t: Tree) returns (w: Node, ghost d: Context)
      requires Linked() && tree == Plug(c, t) && Deficit(c, t) && !IsRed(t) && c.InLeft? && IsRed(c.right)
      requires temp == RootOf(sentinel, t) && temp.parent == c.node
      modifies this, nodes
      ensures Linked() && tree == Plug(d, t) && Deficit(d, t) && d.InLeft? && d.red && temp.parent == d.node
      ensures d.right.Branch? && !d.right.red && w == d.right.node
      ensures order == old(order) && nodes == old(nodes) && rotations == old(rotations) + 1
    {
      hide Linked, Deficit;
      DeficitBlackSiblingLeft(c, t);
      LookSibling(c, t);
      w := temp.parent.right;
      ghost var b := Repaint(c.right, false);
      SetColor(w, false, InRight(c.up, t, c.node, c.red), c.right);
      LookSibling(InLeft(c.up, c.node, c.red, b), t);
      SetColor(temp.parent, true, c.up, Branch(t, c.node, c.red, b));
      LookSibling(InLeft(c.up, c.node, true, b), t);
      LeftRotateAt(temp.parent, c.up, Branch(t, c.node, true, b));
      d := InLeft(InLeft(c.up, b.node, false, b.right), c.node, true, b.left);
      LookSibling(d, t);
      w := temp.parent.right;
    }

    // Black sibling with a red child: at most two rotations end the loop.
    method SolveLeft(temp: Node, start: Node, ghost c0: Context, ghost t: Tree)
      requires Linked() && tree == Plug(c0, t) && Deficit(c0, t) && !IsRed(t) && c0.InLeft?
      requires c0.right.Branch? && !c0.right.red && (IsRed(c0.right.left) || IsRed(c0.right.right))
      requires temp == RootOf(sentinel, t) && temp.parent == c0.node && start == c0.right.node
      modifies this, nodes
      ensures Linked() && RedBlack(tree) && tree.Branch?
      ensures order == old(order) && nodes == old(nodes) && rotations <= old(rotations) + 2
    {
      hide Linked, Deficit, RedBlack;
      var w := start;
      ghost var c := c0;
      LookSibling(c, t);
      if !w.right.red {
        DeficitFarRedLeft(c, t);
        ghost var d, x := InRight(c.up, t, c.node, c.red), c.right.left;
        SetColor(w.left, false, InLeft(d, w, false, c.right.right), x);
        SetColor(w, true, d, Branch(Repaint(x, false), w, false, c.right.right));
        RightRotateAt(w, d, Branch(Repaint(x, false), w, true, c.right.right));
        c := InLeft(c.up, c.node, c.red, Branch(x.left, x.node, false, Branch(x.right, w, true, c.right.right)));
        LookSibling(c, t);
        w := temp.parent.right;
      }
      DeficitSolvedLeft(c, t);
      ghost var d, b, r := InRight(c.up, t, c.node, c.red), c.right, Repaint(c.right.right, false);
      SetColor(w, temp.parent.red, d, b);
      LookSibling(InLeft(c.up, c.node, c.red, b.(red := c.red)), t);
      SetColor(temp.parent, false, c.up, Branch(t, c.node, c.red, b.(red := c.red)));
      LookSibling(InLeft(c.up, c.node, false, b.(red := c.red)), t);
      SetColor(w.right, false, InRight(InRight(c.up, t, c.node, false), b.left, w, c.red), b.right);
      LookSibling(InLeft(c.up, c.node, false, Branch(b.left, w, c.red, r)), t);
      LeftRotateAt(temp.parent, c.up, Branch(t, c.node, false, Branch(b.left, w, c.red, r)));
      PlugIsBranch(c.up, RotateLeft(Branch(t, c.node, false, Branch(b.left, w, c.red, r))));
    }

    // The mirror image.
    method BlackenSiblingRight(temp: Node, ghost c: Context, ghost t: Tree) returns (w: Node, ghost d: Context)
      requires Linked() && tree == Plug(c, t) && Deficit(c, t) && !IsRed(t) && c.InRight? && IsRed(c.left)
      requires temp == RootOf(sentinel, t) && temp.parent == c.node
      modifies this, nodes
      ensures Linked() && tree == Plug(d, t) && Deficit(d, t) && d.InRight? && d.red && temp.parent == d.node
      ensures d.left.Branch? && !d.left.red && w == d.left.node
      ensures order == old(order) && nodes == old(nodes) && rotations == old(rotations) + 1
    {
      hide Linked, Deficit;
      DeficitBlackSiblingRight(c, t);
      LookSibling(c, t);
      w := temp.parent.left;
      ghost var b := Repaint(c.left, false);
      SetColor(w, false, InLeft(c.up, c.node, c.red, t), c.left);
      LookSibling(InRight(c.up, b, c.node, c.red), t);
      SetColor(temp.parent, true, c.up, Branch(b, c.node, c.red, t));
      LookSibling(InRight(c.up, b, c.node, true), t);
      RightRotateAt(temp.parent, c.up, Branch(b, c.node, true, t));
      d := InRight(InRight(c.up, b.left, b.node, false), b.right, c.node, true);
      LookSibling(d, t);
      w := temp.parent.left;
    }

    method SolveRight(temp: Node, start: Node, ghost c0: Context, ghost t: Tree)
      requires Linked() && tree == Plug(c0, t) && Deficit(c0, t) && !IsRed(t) && c0.InRight?
      requires c0.left.Branch? && !c0.left.red && (IsRed(c0.left.right) || IsRed(c0.left.left))
      requires temp == RootOf(sentinel, t) && temp.parent == c0.node && start == c0.left.node
      modifies this, nodes
      ensures Linked() && RedBlack(tree) && tree.Branch?
      ensures order == old(order) && nodes == old(nodes) && rotations <= old(rotations) + 2
    {
      hide Linked, Deficit, RedBlack;
      var w := start;
      ghost var c := c0;
      LookSibling(c, t);
      if !w.left.red {
        DeficitFarRedRight(c, t);
        ghost var d, x := InLeft(c.up, c.node, c.red, t), c.left.right;
        SetColor(w.right, false, InRight(d, c.left.left, w, false), x);
        SetColor(w, true, d, Branch(c.left.left, w, false, Repaint(x, false)));
        LeftRotateAt(w, d, Branch(c.left.left, w, true, Repaint(x, false)));
        c := InRight(c.up, Branch(Branch(c.left.left, w, true, x.left), x.node, false, x.right), c.node, c.red);
        LookSibling(c, t);
        w := temp.parent.left;
      }
      DeficitSolvedRight(c, t);
      ghost var d, b, r := InLeft(c.up, c.node, c.red, t), c.left, Repaint(c.left.left, false);
      SetColor(w, temp.parent.red, d, b);
      LookSibling(InRight(c.up, b.(red := c.red), c.node, c.red), t);
      SetColor(temp.parent, false, c.up, Branch(b.(red := c.red), c.node, c.red, t));
      LookSibling(InRight(c.up, b.(red := c.red), c.node, false), t);
      SetColor(w.left, false, InLeft(InLeft(c.up, c.node, false, t), w, c.red, b.right), b.left);
      LookSibling(InRight(c.up, Branch(r, w, c.red, b.right), c.node, false), t);
      RightRotateAt(temp.parent, c.up, Branch(Branch(r, w, c.red, b.right), c.node, false, t));
      PlugIsBranch(c.up, RotateRight(Branch(Branch(r, w, c.red, b.right), c.node, false, t)));
    }

    // One turn of the deletion loop for a deficit on the left.
    method FixLeft(start: Node, ghost c0: Context, ghost t0: Tree)
      returns (temp: Node, ghost c: Context, ghost t: Tree)
      requires Linked() && tree == Plug(c0, t0) && Deficit(c0, t0) && !IsRed(t0) && c0.InLeft?
      requires start == RootOf(sentinel, t0) && start.parent == c0.node
      modifies this, nodes
      ensures Linked() && tree == Plug(c, t) && tree.Branch? && temp == RootOf(sentinel, t)
      ensures if c.Top? then RedBlack(Repaint(t, false)) else Deficit(c, t) && temp.parent == c.node
      ensures order == old(order) && nodes == old(nodes) && rotations <= old(rotations) + 3
      ensures c.Top? || IsRed(t) || (rotations == old(rotations) && Depth(c) < Depth(c0))
    {
      hide Linked, Deficit, RedBlack;
      temp, c, t := start, c0, t0;
      DeficitSibling(c, t);
      LookSibling(c, t);
      var w := temp.parent.right;
      if w.red {
        w, c := BlackenSiblingLeft(temp, c, t);
        LookSibling(c, t);
      }
      if !w.left.red && !w.right.red {
        DeficitUpLeft(c, t);
        SetColor(w, true, InRight(c.up, t, c.node, c.red), c.right);
        ghost var s := Repaint(c.right, true);
        LookSibling(InLeft(c.up, c.node, c.red, s), t);
        temp := temp.parent;
        c, t := c.up, Branch(t, c.node, c.red, s);
        PlugIsBranch(c, t);
        Look(c, t);
        DeficitAtTop(c, t);
      } else {
        SolveLeft(temp, w, c, t);
        temp, c, t := root, Top, tree;
        WholeTree(tree);
        Look(c, t);
        RedBlackRepainted(t);
      }
    }

    // The mirror image.
    method FixRight(start: Node, ghost c0: Context, ghost t0: Tree)
      returns (temp: Node, ghost c: Context, ghost t: Tree)
      requires Linked() && tree == Plug(c0, t0) && Deficit(c0, t0) && !IsRed(t0) && c0.InRight?
      requires start == RootOf(sentinel, t0) && start.parent == c0.node
      modifies this, nodes
      ensures Linked() && tree == Plug(c, t) && tree.Branch? && temp == RootOf(sentinel, t)
      ensures if c.Top? then RedBlack(Repaint(t, false)) else Deficit(c, t) && temp.parent == c.node
      ensures order == old(order) && nodes == old(nodes) && rotations <= old(rotations) + 3
      ensures c.Top? || IsRed(t) || (rotations == old(rotations) && Depth(c) < Depth(c0))
    {
      hide Linked, Deficit, RedBlack;
      temp, c, t := start, c0, t0;
      DeficitSibling(c, t);
      LookSibling(c, t);
      var w := temp.parent.left;
      if w.red {
        w, c := BlackenSiblingRight(temp, c, t);
        LookSibling(c, t);
      }
      if !w.right.red && !w.left.red {
        DeficitUpRight(c, t);
        SetColor(w, true, InLeft(c.up, c.node, c.red, t), c.left);
        ghost var s := Repaint(c.left, true);
        LookSibling(InRight(c.up, s, c.node, c.red), t);
        temp := temp.parent;
        c, t := c.up, Branch(s, c.node, c.red, t);
        PlugIsBranch(c, t);
        Look(c, t);
        DeficitAtTop(c, t);
      } else {
        SolveRight(temp, w, c, t);
        temp, c, t := root, Top, tree;
        WholeTree(tree);
        Look(c, t);
        RedBlackRepainted(t);
      }
    }

    // The loop that moves a missing black node up until it is made up for.
    method RebalanceDeleted(start: Node, ghost c0: Context, ghost t0: Tree)
      requires Linked() && tree == Plug(c0, t0) && Deficit(c0, t0) && !c0.Top?
      requires start == RootOf(sentinel, t0) && start.parent == c0.node
      modifies this, nodes
      ensures Linked() && RedBlack(tree)
      ensures order == old(order) && nodes == old(nodes) && rotations <= old(rotations) + 3
    {
      hide Linked, Deficit, RedBlack;
      var temp := start;
      ghost var c, t := c0, t0;
      RootPlug(c, t);
      Look(c, t);
      while temp != root && !temp.red
        invariant Linked() && tree == Plug(c, t) && tree.Branch? && temp == RootOf(sentinel, t)
        invariant if c.Top? then RedBlack(Repaint(t, false)) else Deficit(c, t) && temp.parent == c.node
        invariant c.Top? <==> temp == root
        invariant temp.red == IsRed(t)
        invariant order == old(order) && nodes == old(nodes)
        invariant rotations <= old(rotations) + if c.Top? || IsRed(t) then 3 else 0
        decreases if c.Top? || IsRed(t) then 0 else Depth(c)
      {
        DeficitSibling(c, t);
        LookSibling(c, t);
        if temp == temp.parent.left {
          temp, c, t := FixLeft(temp, c, t);
        } else {
          temp, c, t := FixRight(temp, c, t);
        }
        Look(c, t);
      }
      assert t.Branch?;
      if !c.Top? {
        DeficitEnd(c, t);
      }
      SetColor(temp, false, c, t);
      WholeTree(Repaint(t, false));
    }

    // What the fields hold around the only child of a position.
    lemma LookChild(c: Context, t: Tree)
      requires Linked() && tree == Plug(c, t) && t.Branch? && (t.left.Leaf? || t.right.Leaf?)
      ensures var x := OnlyChild(t);
        && (x.Branch? ==> x.node in nodes && x.node != t.node && x.node.parent == t.node)
        && (!c.Top? ==> c.node !in {t.node, RootOf(sentinel, x)})
        && RootOf(sentinel, x).red == IsRed(x)
    {
      Look(c, t);
      if t.left.Leaf? {
        Look(InRight(c, t.left, t.node, t.red), t.right);
      } else {
        Look(InLeft(c, t.node, t.red, t.right), t.left);
      }
    }

    // Painting the root black, a real node or the sentinel.
    method BlackenRoot(ghost t: Tree)
      requires Linked() && tree == t
      modifies this, nodes, sentinel
      ensures Linked() && tree == Repaint(t, false)
      ensures order == old(order) && nodes == old(nodes) && rotations == old(rotations)
    {
      WholeTree(t);
      WholeTree(Repaint(t, false));
      Look(Top, t);
      if root != sentinel {
        SetColor(root, false, Top, t);
      } else {
        root.red := false;
      }
    }

    // Taking out a node with at most one child, the root case.
    method RemoveRoot(node: Node, temp: Node, ghost t: Tree)
      requires Linked() && tree == t && t.Branch? && t.node == node && node == root
      requires (t.left.Leaf? || t.right.Leaf?) && temp == RootOf(sentinel, OnlyChild(t))
      modifies this, nodes, sentinel
      ensures Linked() && tree == Repaint(OnlyChild(t), false)
      ensures order == InOrder(OnlyChild(t)) && nodes == old(nodes) - {node}
      ensures node.left == null && node.right == null && node.parent == null
      ensures rotations == old(rotations)
    {
      hide Represents, Plug, InOrder, NodeSet, Around, Repaint;
      WholeTree(t);
      Look(Top, t);
      LookChild(Top, t);
      ghost var h, x := Snap(nodes), OnlyChild(t);
      SpliceOutWhole(h, sentinel, Top, t);
      WholeTree(x);
      root := temp;
      tree, order, nodes := x, InOrder(x), nodes - {node};
      node.left := null;
      node.right := null;
      node.parent := null;
      assert Snap(nodes) == SpliceOut(h, Top, node, temp, null);
      BlackenRoot(x);
    }

    // From the fields around a bypassed node to the cells of a snapshot.
    lemma Bypassed(h: Heap, c: Context, n: Node, x: Node)
      requires n in h && !c.Top? && c.node in h && c.node != n && x !in {n, c.node}
      requires forall m :: m in h && m != n ==>
        Cell(m.left, m.right, m.parent, m.red) ==
          if m == c.node then Relink(c, h[m], x) else if m == x then h[m].(parent := c.node) else h[m]
      ensures Snap(h.Keys - {n}) == SpliceOut(h, c, n, x, c.node)
    {
    }

    // The pointer writes that hang `temp` where `node` was, in terms of a snapshot.
    method BypassLinks(node: Node, temp: Node, ghost c: Context, ghost h: Heap)
      requires h == Snap(h.Keys) && node in h && !c.Top? && c.node in h && c.node != node && sentinel !in h
      requires node.parent == c.node && (node == c.node.left <==> c.InLeft?)
      requires temp !in {node, c.node} && (temp in h || temp == sentinel)
      modifies h.Keys, sentinel
      ensures Snap(h.Keys - {node}) == SpliceOut(h, c, node, temp, Above(c))
      ensures temp.parent == c.node && node.left == null && node.right == null && node.parent == null
      ensures sentinel.left == old(sentinel.left) && sentinel.right == old(sentinel.right)
      ensures sentinel.red == old(sentinel.red)
    {
      hide SpliceOut;
      if node == node.parent.left {
        node.parent.left := temp;
      } else {
        node.parent.right := temp;
      }
      temp.parent := node.parent;
      node.left := null;
      node.right := null;
      node.parent := null;
      Bypassed(h, c, node, temp);
    }

    // Taking out a node with at most one child below the root.
    method Bypass(node: Node, temp: Node, ghost c: Context, ghost t: Tree)
      requires Linked() && tree == Plug(c, t) && t.Branch? && t.node == node && !c.Top?
      requires (t.left.Leaf? || t.right.Leaf?) && temp == RootOf(sentinel, OnlyChild(t))
      modifies this, nodes, sentinel
      ensures Linked() && tree == Plug(c, OnlyChild(t)) && temp.parent == c.node
      ensures order == Before(c) + InOrder(OnlyChild(t)) + After(c) && nodes == old(nodes) - {node}
      ensures node.left == null && node.right == null && node.parent == null
      ensures rotations == old(rotations)
    {
      hide Represents, Plug, InOrder, NodeSet, Around, Before, After, SpliceOut;
      Look(c, t);
      LookChild(c, t);
      ghost var h, x := Snap(nodes), OnlyChild(t);
      SpliceOutWhole(h, sentinel, c, t);
      tree, order, nodes := Plug(c, x), Before(c) + InOrder(x) + After(c), nodes - {node};
      assert nodes == h.Keys - {node};
      BypassLinks(node, temp, c, h);
    }

    // ----- A node with two children: its successor takes its place -----

    // The first half of the exchange: the successor leaves its place.
    method UnhookSuccessor(node: Node, subst: Node, temp: Node, ghost d: Context, ghost h: Heap)
      requires h == Snap(h.Keys) && sentinel !in h && subst in h && !d.Top? && d.node in h && d.node != subst
      requires subst.parent == d.node && (subst == d.node.left <==> d.InLeft?)
      requires temp !in {subst, d.node} && (temp in h || temp == sentinel)
      modifies h.Keys, sentinel
      ensures temp.parent == (if d.node == node then subst else d.node)
      ensures Snap(h.Keys - {subst}) == SpliceOut(h, d, subst, temp, temp.parent)
      ensures forall n :: n in h && n !in {d.node, temp} ==> Cell(n.left, n.right, n.parent, n.red) == h[n]
      ensures Cell(d.node.left, d.node.right, d.node.parent, d.node.red) == Relink(d, h[d.node], temp)
      ensures sentinel.left == old(sentinel.left) && sentinel.right == old(sentinel.right)
      ensures sentinel.red == old(sentinel.red)
    {
      if subst == subst.parent.left {
        subst.parent.left := temp;
      } else {
        subst.parent.right := temp;
      }
      if subst.parent == node {
        temp.parent := subst;
      } else {
        temp.parent := subst.parent;
      }
    }

    // From the fields after the second half to the cells of a snapshot.
    lemma TakenOver(h: Heap, c: Context, z: Node, y: Node)
      requires z in h && y !in h && h[z].left != y && h[z].right != y
      requires Cell(y.left, y.right, y.parent, y.red) == h[z]
      requires forall m :: m in h && m != z ==>
        Cell(m.left, m.right, m.parent, m.red) ==
          if m == h[z].left || m == h[z].right then h[m].(parent := y)
          else if !c.Top? && m == c.node then Relink(c, h[m], y)
          else h[m]
      ensures Snap(h.Keys - {z} + {y}) == TakePlace(h, c, z, y)
    {
    }

    // The pointer to a node, in its parent or at the root, goes to another one.
    method HangInstead(node: Node, subst: Node, ghost c: Context, ghost h: Heap)
      requires h == Snap(h.Keys) && node in h && (c.Top? <==> node == root)
      requires !c.Top? ==>
        && node.parent == c.node && c.node in h && (node == c.node.left <==> c.InLeft?) && c.node != node
      modifies `root, h.Keys
      ensures root == if c.Top? then subst else old(root)
      ensures forall m :: m in h ==>
        Cell(m.left, m.right, m.parent, m.red) == if !c.Top? && m == c.node then Relink(c, h[m], subst) else h[m]
    {
      if node == root {
        root := subst;
      } else {
        if node == node.parent.left {
          node.parent.left := subst;
        } else {
          node.parent.right := subst;
        }
      }
    }

    // The children of a node that has moved get it as their parent.
    method Adopt(subst: Node, ghost h: Heap)
      requires h == Snap(h.Keys) && subst !in h && sentinel !in h && subst != sentinel
      requires subst.left != null && subst.right != null && {subst.left, subst.right} <= h.Keys + {sentinel}
      modifies h.Keys
      ensures forall m :: m in h ==>
        Cell(m.left, m.right, m.parent, m.red) ==
          if m == subst.left || m == subst.right then h[m].(parent := subst) else h[m]
    {
      if subst.left != sentinel {
        subst.left.parent := subst;
      }
      if subst.right != sentinel {
        subst.right.parent := subst;
      }
    }

    // The second half: it takes over links and colour of the node that goes.
    method TakeOver(node: Node, subst: Node, ghost c: Context, ghost h: Heap)
      requires h == Snap(h.Keys) && sentinel !in h && node in h && subst !in h && subst != sentinel
      requires node.left != null && node.right != null && node !in {node.left, node.right}
      requires node.left == node.right ==> node.left == sentinel
      requires {node.left, node.right} <= h.Keys + {sentinel}
      requires c.Top? <==> node == root
      requires !c.Top? ==>
        && node.parent == c.node && c.node in h && (node == c.node.left <==> c.InLeft?)
        && c.node !in {node, node.left, node.right}
      modifies `root, h.Keys, subst
      ensures root == if c.Top? then subst else old(root)
      ensures Snap(h.Keys - {node} + {subst}) == TakePlace(h, c, node, subst)
    {
      hide TakePlace, Relink;
      subst.left := node.left;
      subst.right := node.right;
      subst.parent := node.parent;
      subst.red := node.red;
      HangInstead(node, subst, c, h);
      Adopt(subst, Snap(h.Keys));
      TakenOver(h, c, node, subst);
    }

    // The source clears the links of a node that left the tree.
    method ClearLinks(node: Node)
      requires Linked() && node !in nodes && node != sentinel
      modifies node
      ensures Linked() && node.left == null && node.right == null && node.parent == null
    {
      hide Represents;
      node.left := null;
      node.right := null;
      node.parent := null;
    }

    method Exchange(node: Node, subst: Node, temp: Node, ghost c: Context, ghost d: Context, ghost h: Heap)
      requires h == Snap(h.Keys) && Exchangeable(h, sentinel, c, node, subst, temp, d)
      requires c.Top? <==> node == root
      modifies `root, h.Keys, sentinel
      ensures root == if c.Top? then subst else old(root)
      ensures var h1 := SpliceOut(h, d, subst, temp, if d.node == node then subst else d.node);
        node in h1 && Snap(h.Keys - {node}) == TakePlace(h1, c, node, subst)
      ensures temp == sentinel ==> temp.parent == if d.node == node then subst else d.node
      ensures sentinel.left == old(sentinel.left) && sentinel.right == old(sentinel.right)
      ensures sentinel.red == old(sentinel.red)
    {
      hide SpliceOut, TakePlace;
      UnhookSuccessor(node, subst, temp, d, h);
      ghost var h1 := Snap(h.Keys - {subst});
      TakeOver(node, subst, c, h1);
      assert h.Keys - {node} == h1.Keys - {node} + {subst};
    }

    // Taking out a node with two children.
    method Transplant(node: Node, subst: Node, temp: Node, ghost c: Context, ghost t: Tree, ghost inner: Context, ghost m: Tree)
      requires Linked() && tree == Plug(c, t) && t.Branch? && t.node == node
      requires t.left.Branch? && t.right == Plug(inner, m) && m.Branch? && m.left.Leaf?
      requires subst == m.node && temp == RootOf(sentinel, m.right)
      modifies this, nodes, sentinel
      ensures Linked() && tree == Plug(c, Branch(t.left, subst, t.red, Plug(inner, m.right)))
      ensures order == Before(c) + InOrder(Branch(t.left, subst, t.red, Plug(inner, m.right))) + After(c)
      ensures nodes == old(nodes) - {node} && rotations == old(rotations)
      ensures m.right.Leaf? ==> temp.parent == Over(inner, subst)
      ensures node.left == null && node.right == null && node.parent == null
    {
      hide Represents, Plug, InOrder, NodeSet, Around, Before, After, SpliceOut, TakePlace, Compose, Separate, Exchangeable;
      ghost var d := Compose(inner, InRight(c, t.left, t.node, t.red));
      Look(c, t);
      ghost var h := Snap(nodes);
      SuccessorExchangeable(h, sentinel, c, t, inner, m);
      SuccessorWhole(h, sentinel, c, t, inner, m);
      ghost var t' := Branch(t.left, subst, t.red, Plug(inner, m.right));
      tree, order, nodes := Plug(c, t'), Before(c) + InOrder(t') + After(c), nodes - {node};
      Exchange(node, subst, temp, c, d, h);
      assert nodes == h.Keys - {node};
      ClearLinks(node);
    }

    lemma LocateNode(node: Node) returns (c: Context, t: Tree)
      requires Linked() && node in nodes
      ensures tree == Plug(c, t) && t.Branch? && t.node == node
    {
      c, t := Locate(tree, node);
    }

    // The node to be bypassed, the only child it may have, and where it sits.
    method ChooseSubst(node: Node, ghost c: Context, ghost t: Tree)
      returns (subst: Node, temp: Node, ghost inner: Context, ghost m: Tree)
      requires Linked() && tree == Plug(c, t) && t.Branch? && t.node == node
      ensures if t.left.Leaf? || t.right.Leaf?
        then subst == node && temp == RootOf(sentinel, OnlyChild(t)) && subst.red == t.red
        else
          && t.right == Plug(inner, m) && Before(inner) == [] && m.Branch? && m.left.Leaf?
          && subst == m.node && subst != node && temp == RootOf(sentinel, m.right) && subst.red == m.red
      ensures subst == root <==> (t.left.Leaf? || t.right.Leaf?) && c.Top?
    {
      hide Linked, Plug, InOrder, NodeSet, Around, Before, Compose;
      subst, temp, inner, m := node, node, Top, Leaf;
      Look(c, t);
      if node.left == sentinel {
        temp := node.right;
        LookLeaf(c, t);
      } else if node.right == sentinel {
        temp := node.left;
        LookLeaf(c, t);
      } else {
        ghost var outer := InRight(c, t.left, t.node, t.red);
        LookLeaf(c, t);
        WholeTree(t.right);
        SuccessorPlug(c, t, Top, t.right);
        ComposeTop(Top, outer);
        var least;
        least, inner, m := Min(node.right, outer, t.right);
        subst := least;
        LookSubst(c, t, inner, m);
        if subst.left != sentinel {
          assert false;  // the smallest node has no left child
        }
        temp := subst.right;
      }
    }

    // A child pointer is the sentinel exactly when the subtree is empty.
    lemma LookLeaf(c: Context, t: Tree)
      requires Linked() && tree == Plug(c, t) && t.Branch?
      ensures t.node.left == sentinel <==> t.left.Leaf?
      ensures t.node.right == sentinel <==> t.right.Leaf?
      ensures Plug(InRight(c, t.left, t.node, t.red), t.right) == tree
    {
      Look(InLeft(c, t.node, t.red, t.right), t.left);
      Look(InRight(c, t.left, t.node, t.red), t.right);
    }

    lemma LookSubst(c: Context, t: Tree, inner: Context, m: Tree)
      requires Linked() && tree == Plug(c, t) && t.Branch? && t.right == Plug(inner, m) && m.Branch?
      ensures m.node != t.node && m.node != root && m.node.red == m.red
      ensures m.node.left == RootOf(sentinel, m.left) && m.node.right == RootOf(sentinel, m.right)
    {
      hide Linked, Compose, Around;
      var outer := InRight(c, t.left, t.node, t.red);
      SuccessorPlug(c, t, inner, m);
      ComposeTop(inner, outer);
      Look(Compose(inner, outer), m);
      Look(c, t);
      NodeSetPlug(inner, m);
    }

    // The node that leaves is this very node, whatever other nodes have its key.
    method Delete(node: Node)
      requires Valid() && node in nodes
      modifies this, nodes, sentinel
      ensures Valid() && Removed(old(order), order, node) && nodes == old(nodes) - {node}
      ensures node.left == null && node.right == null && node.parent == null
      ensures rotations <= old(rotations) + 3
    {
      hide Linked, Plug, InOrder, RedBlack, Deficit, Sorted, Removed, NodeSet, Around, Before, After, Compose, Over;
      ghost var c, t := LocateNode(node);
      Look(c, t);
      var subst, temp;
      ghost var inner, m;
      subst, temp, inner, m := ChooseSubst(node, c, t);
      if subst == root {
        BypassOrder(c, t);
        DeficitStart(c, t);
        WholeTree(t);
        RemoveRoot(node, temp, t);
        assert order == Before(c) + order + After(c);
      } else {
        var red := subst.red;
        ghost var d, x;
        if subst == node {
          d, x := c, OnlyChild(t);
          BypassOrder(c, t);
          DeficitStart(c, t);
          Bypass(node, temp, c, t);
        } else {
          d, x := Compose(inner, InRight(c, t.left, subst, t.red)), m.right;
          TransplantOrder(c, t, inner, m);
          DeficitSuccessor(c, t, inner, m);
          Transplant(node, subst, temp, c, t, inner, m);
          Look(d, x);
        }
        if !red {
          RebalanceDeleted(temp, d, x);
        }
      }
      RemovedSorted(old(order), order, node);
    }

    // ----- Queries -----

    // NULL exactly on the empty tree, otherwise the first node.
    method MinNode() returns (node: Node?)
      requires Valid()
      ensures node == if order == [] then null else order[0]
    {
      hide Represents;
      WholeTree(tree);
      ghost var c, t;
      node, c, t := Min(root, Top, tree);
      InOrderPlug(c, t);
    }

    // Searching with any procedure that is negative, then zero, then positive
    // along ascending keys. The number of nodes looked at is logarithmic.
    method FindNode(find: int -> int) returns (node: Node?, ghost steps: nat)
      requires Valid() && Ascending(find)
      ensures node == null ==> forall n :: n in nodes ==> find(n.record.key) != 0
      ensures node != null ==> node in nodes && find(node.record.key) == 0
      ensures Pow2((steps + 1) / 2) <= |order| + 1
    {
      hide Linked, Plug, InOrder, RedBlack, NodeSet, Around, Before, After, AllFind, Sorted, Ascending, Pow2;
      LogarithmicHeight(tree);
      WholeTree(tree);
      FindStart(find);
      Look(Top, tree);
      steps := 0;
      if root == sentinel {
        return null, steps;
      }
      ghost var c, t := Top, tree;
      var at := root;
      while at != sentinel
        invariant Valid() && tree == Plug(c, t) && at == RootOf(sentinel, t)
        invariant AllFind(Before(c), find, true) && AllFind(After(c), find, false)
        invariant steps + Height(t) <= Height(tree)
        decreases t
      {
        Look(c, t);
        FindAround(c, t, find);
        steps := steps + 1;
        var r := find(at.record.key);
        if r == 0 {
          Pow2Monotone((steps + 1) / 2, (Height(tree) + 1) / 2);
          return at, steps;
        }
        if r < 0 {
          at, c, t := at.right, InRight(c, t.left, t.node, t.red), t.right;
        } else {
          at, c, t := at.left, InLeft(c, t.node, t.red, t.right), t.left;
        }
      }
      Look(c, t);
      FindNone(c, find);
      Pow2Monotone((steps + 1) / 2, (Height(tree) + 1) / 2);
      node := null;
    }

    // The walk of rbtree_foreach: the nodes the procedure is called with, in turn.
    method ForEach() returns (visited: seq<Node>)
      requires Valid()
      ensures visited == PreOrder(tree) && multiset(visited) == multiset(order)
    {
      PreOrderVisits(tree);
      WholeTree(tree);
      Look(Top, tree);
      if root == sentinel {
        return [];
      }
      Look(InLeft(Top, tree.node, tree.red, tree.right), tree.left);
      Look(InRight(Top, tree.left, tree.node, tree.red), tree.right);
      var l := ForEachOrder(root.left, InLeft(Top, tree.node, tree.red, tree.right), tree.left);
      var r := ForEachOrder(root.right, InRight(Top, tree.left, tree.node, tree.red), tree.right);
      visited := [root] + l + r;
    }

    method ForEachOrder(node: Node?, ghost c: Context, ghost t: Tree) returns (visited: seq<Node>)
      requires Linked() && tree == Plug(c, t) && node == RootOf(sentinel, t)
      ensures visited == PreOrder(t)
      decreases t
    {
      Look(c, t);
      visited := [];
      if node != null && node != sentinel {
        visited := [node];
        if node.left != null {
          var l := ForEachOrder(node.left, InLeft(c, t.node, t.red, t.right), t.left);
          visited := visited + l;
        }
        if node.right != null {
          var r := ForEachOrder(node.right, InRight(c, t.left, t.node, t.red), t.right);
          visited := visited + r;
        }
      }
    }

    // Taking the smallest node out until none is left.
    method Drain() returns (drained: seq<Node>)
      requires Valid()
      modifies this, nodes, sentinel
      ensures Valid() && order == [] && drained == old(order) && root == sentinel
    {
      hide Linked, RedBlack, Sorted, Removed, Distinct, InOrder, Plug, NodeSet, Around;
      drained := [];
      var i := MinNode();
      while i != null
        invariant Valid() && nodes <= old(nodes) && old(order) == drained + order
        invariant i == if order == [] then null else order[0]
        decreases |order|
      {
        ghost var before := order;
        assert Distinct(before) && i in nodes by { LookOrder(); }
        Delete(i);
        MovedOver(drained, before, order, i);
        drained := drained + [i];
        i := MinNode();
      }
      LookOrder();
    }

    lemma LookOrder()
      requires Linked()
      ensures Distinct(order) && nodes == (set n | n in order) && (order == [] ==> root == sentinel)
    {
      NodeSetInOrder(tree);
      SeparateDistinct(tree);
    }
  }
}

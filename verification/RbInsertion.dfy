// What one turn of the insertion loop does to the colours: the only defect is a
// red node under a red node, and it moves up or disappears.

module RbInsertion {
  import opened RbNodes
  import opened RbModel

  // The parent of the hole with the hole filled.
  ghost function Fill(c: Context, t: Tree): Tree
    requires !c.Top?
  {
    if c.InLeft? then Branch(t, c.node, c.red, c.right) else Branch(c.left, c.node, c.red, t)
  }

  ghost function Sibling(c: Context): Tree
    requires !c.Top?
  {
    if c.InLeft? then c.right else c.left
  }

  // All is well but for one thing: the red root of `t` may hang under a red node.
  ghost predicate RedDefect(c: Context, t: Tree) {
    && IsRed(t) && NoRedRed(t) && Balanced(t)
    && ContextColors(c, false) && ContextBalanced(c, BlackCount(t)) && BlackAtTop(c)
  }

  lemma DefectStart(c: Context, n: Node)
    requires !c.Top? && RedBlack(Plug(c, Leaf))
    ensures RedDefect(c, Branch(Leaf, n, true, Leaf))
  {
    ColorsPlug(c, Leaf);
  }

  // One frame of a context, spelled out.
  lemma Frames(c: Context, holeRed: bool, k: nat)
    requires !c.Top?
    ensures ContextColors(c, holeRed) <==>
      && (c.red ==> !holeRed && !IsRed(Sibling(c))) && NoRedRed(Sibling(c)) && ContextColors(c.up, c.red)
    ensures ContextBalanced(c, k) <==>
      && Balanced(Sibling(c)) && BlackCount(Sibling(c)) == k
      && ContextBalanced(c.up, k + if c.red then 0 else 1)
    ensures BlackAtTop(c) <==> if c.up.Top? then !c.red else BlackAtTop(c.up)
  {
  }

  // A red parent is never the root, and a grandparent above it is black.
  lemma DefectGrandparent(c: Context, t: Tree)
    requires RedDefect(c, t) && !c.Top? && c.red
    ensures IsRed(t) && !c.up.Top? && !c.up.red && Depth(c) == Depth(c.up.up) + 2
  {
    Frames(c, false, BlackCount(t));
  }

  // Once the parent is black, or there is none, blackening the root is enough.
  lemma DefectEnd(c: Context, t: Tree)
    requires RedDefect(c, t) && (c.Top? || !c.red)
    ensures Plug(c, t).Branch? && RedBlack(Repaint(Plug(c, t), false))
  {
    ColorsPlug(c, t);
    if c.Top? {
      ColorsPlug(Top, Repaint(t, false));
    } else {
      RootPlug(c, t);
      assert ContextColors(c, true);
      assert RedBlack(Plug(c, t));
      assert Repaint(Plug(c, t), false) == Plug(c, t);
    }
  }

  // Red uncle: the grandparent's subtree with both its children black.
  ghost function PassUp(c: Context, t: Tree): Tree
    requires !c.Top? && !c.up.Top?
  {
    var p, u := Repaint(Fill(c, t), false), Repaint(Sibling(c.up), false);
    if c.up.InLeft? then Branch(p, c.up.node, true, u) else Branch(u, c.up.node, true, p)
  }

  lemma DefectPassUp(c: Context, t: Tree)
    requires RedDefect(c, t) && !c.Top? && c.red && !c.up.Top? && IsRed(Sibling(c.up))
    ensures RedDefect(c.up.up, PassUp(c, t))
  {
    DefectGrandparent(c, t);
    Frames(c, false, BlackCount(t));
    Frames(c.up, true, BlackCount(t));
  }

  // Black uncle, and the node is an inner grandchild: after a rotation at the
  // parent the old parent is an outer grandchild.
  lemma DefectOuter(c: Context, t: Tree)
    requires RedDefect(c, t) && !c.Top? && c.red && !c.up.Top?
    ensures c.InRight? ==> RedDefect(InLeft(c.up, t.node, true, t.right), Branch(c.left, c.node, true, t.left))
    ensures c.InLeft? ==> RedDefect(InRight(c.up, t.left, t.node, true), Branch(t.right, c.node, true, c.right))
  {
  }

  // Black uncle, and the node is an outer grandchild.
  lemma DefectRotated(c: Context, t: Tree)
    requires RedDefect(c, t) && !c.Top? && c.red && !c.up.Top? && !IsRed(Sibling(c.up))
    ensures c.InLeft? && c.up.InLeft? ==>
      RedDefect(InLeft(c.up.up, c.node, false, Branch(c.right, c.up.node, true, c.up.right)), t)
    ensures c.InRight? && c.up.InRight? ==>
      RedDefect(InRight(c.up.up, Branch(c.up.left, c.up.node, true, c.left), c.node, false), t)
  {
    DefectGrandparent(c, t);
    Frames(c, false, BlackCount(t));
    Frames(c.up, true, BlackCount(t));
  }
}

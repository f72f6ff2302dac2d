// What the deletion loop does to the colours: the only defect is one missing
// black node on every path through one subtree, and it moves up or disappears.

module RbDeletion {
  import opened RbNodes
  import opened RbModel
  import opened RbInsertion

  // All is well outside `t`, except that every path through `t` lacks one black
  // node. The root of `t` may be red under a red node or above one.
  ghost predicate Deficit(c: Context, t: Tree) {
    && NoRedRed(Repaint(t, false)) && Balanced(t)
    && ContextColors(c, false) && ContextBalanced(c, BlackCount(t) + 1) && BlackAtTop(c)
  }

  // The sibling of a deficient subtree is a node.
  lemma DeficitSibling(c: Context, t: Tree)
    requires Deficit(c, t) && !c.Top?
    ensures Sibling(c).Branch?
  {
    Frames(c, false, BlackCount(t) + 1);
  }

  // A red root of the deficient subtree, painted black, makes up for the loss;
  // at the root of the whole tree there is nothing to make up for.
  lemma DeficitEnd(c: Context, t: Tree)
    requires Deficit(c, t) && (c.Top? || IsRed(t))
    ensures RedBlack(Plug(c, Repaint(t, false)))
  {
    ColorsPlug(c, Repaint(t, false));
  }

  // One level of a tree, spelled out.
  lemma Level(t: Tree)
    requires t.Branch?
    ensures NoRedRed(t) <==>
      && (t.red ==> !IsRed(t.left) && !IsRed(t.right)) && NoRedRed(t.left) && NoRedRed(t.right)
    ensures Balanced(t) <==> BlackCount(t.left) == BlackCount(t.right) && Balanced(t.left) && Balanced(t.right)
    ensures BlackCount(t) == BlackCount(t.left) + if t.red then 0 else 1
  {
  }

  // Red sibling: after recolouring and a rotation the sibling is black.
  lemma DeficitBlackSiblingLeft(c: Context, t: Tree)
    requires Deficit(c, t) && !IsRed(t) && c.InLeft? && IsRed(c.right)
    ensures var w := c.right;
      && !c.red && w.left.Branch? && !w.left.red
      && Deficit(InLeft(InLeft(c.up, w.node, false, w.right), c.node, true, w.left), t)
  {
    Frames(c, false, BlackCount(t) + 1);
  }

  // Black sibling with black children: the deficit moves up.
  lemma DeficitUpLeft(c: Context, t: Tree)
    requires Deficit(c, t) && !IsRed(t) && c.InLeft? && c.right.Branch? && !c.right.red
    requires !IsRed(c.right.left) && !IsRed(c.right.right)
    ensures Deficit(c.up, Branch(t, c.node, c.red, Repaint(c.right, true)))
  {
    Frames(c, false, BlackCount(t) + 1);
  }

  // Black sibling with a red near and a black far child: the far child turns red.
  lemma DeficitFarRedLeft(c: Context, t: Tree)
    requires Deficit(c, t) && !IsRed(t) && c.InLeft? && c.right.Branch? && !c.right.red
    requires IsRed(c.right.left) && !IsRed(c.right.right)
    ensures var w, x := c.right, c.right.left;
      Deficit(InLeft(c.up, c.node, c.red, Branch(x.left, x.node, false, Branch(x.right, w.node, true, w.right))), t)
  {
    var w, x := c.right, c.right.left;
    var w' := Branch(x.right, w.node, true, w.right);
    var s := Branch(x.left, x.node, false, w');
    Frames(c, false, BlackCount(t) + 1);
    Frames(InLeft(c.up, c.node, c.red, s), false, BlackCount(t) + 1);
    Level(w);
    Level(x);
    Level(w');
    Level(s);
  }

  // Black sibling with a red far child: one rotation ends the deficit.
  lemma DeficitSolvedLeft(c: Context, t: Tree)
    requires Deficit(c, t) && !IsRed(t) && c.InLeft? && c.right.Branch? && !c.right.red && IsRed(c.right.right)
    ensures var w := c.right;
      RedBlack(Plug(c.up, Branch(Branch(t, c.node, false, w.left), w.node, c.red, Repaint(w.right, false))))
  {
    Frames(c, false, BlackCount(t) + 1);
    var w := c.right;
    var l, r := Branch(t, c.node, false, w.left), Repaint(w.right, false);
    Level(w);
    Level(w.right);
    Level(l);
    Level(r);
    Level(Branch(l, w.node, c.red, r));
    ColorsPlug(c.up, Branch(l, w.node, c.red, r));
  }

  // Red sibling: after recolouring and a rotation the sibling is black.
  lemma DeficitBlackSiblingRight(c: Context, t: Tree)
    requires Deficit(c, t) && !IsRed(t) && c.InRight? && IsRed(c.left)
    ensures var w := c.left;
      && !c.red && w.right.Branch? && !w.right.red
      && Deficit(InRight(InRight(c.up, w.left, w.node, false), w.right, c.node, true), t)
  {
    Frames(c, false, BlackCount(t) + 1);
  }

  // Black sibling with black children: the deficit moves up.
  lemma DeficitUpRight(c: Context, t: Tree)
    requires Deficit(c, t) && !IsRed(t) && c.InRight? && c.left.Branch? && !c.left.red
    requires !IsRed(c.left.right) && !IsRed(c.left.left)
    ensures Deficit(c.up, Branch(Repaint(c.left, true), c.node, c.red, t))
  {
    Frames(c, false, BlackCount(t) + 1);
  }

  // Black sibling with a red near and a black far child: the far child turns red.
  lemma DeficitFarRedRight(c: Context, t: Tree)
    requires Deficit(c, t) && !IsRed(t) && c.InRight? && c.left.Branch? && !c.left.red
    requires IsRed(c.left.right) && !IsRed(c.left.left)
    ensures var w, x := c.left, c.left.right;
      Deficit(InRight(c.up, Branch(Branch(w.left, w.node, true, x.left), x.node, false, x.right), c.node, c.red), t)
  {
    var w, x := c.left, c.left.right;
    var w' := Branch(w.left, w.node, true, x.left);
    var s := Branch(w', x.node, false, x.right);
    Frames(c, false, BlackCount(t) + 1);
    Frames(InRight(c.up, s, c.node, c.red), false, BlackCount(t) + 1);
    Level(w);
    Level(x);
    Level(w');
    Level(s);
  }

  // Black sibling with a red far child: one rotation ends the deficit.
  lemma DeficitSolvedRight(c: Context, t: Tree)
    requires Deficit(c, t) && !IsRed(t) && c.InRight? && c.left.Branch? && !c.left.red && IsRed(c.left.left)
    ensures var w := c.left;
      RedBlack(Plug(c.up, Branch(Repaint(w.left, false), w.node, c.red, Branch(w.right, c.node, false, t))))
  {
    Frames(c, false, BlackCount(t) + 1);
    var w := c.left;
    var l, r := Branch(w.right, c.node, false, t), Repaint(w.left, false);
    Level(w);
    Level(w.left);
    Level(l);
    Level(r);
    Level(Branch(r, w.node, c.red, l));
    ColorsPlug(c.up, Branch(r, w.node, c.red, l));
  }

  // ----- Where the deficit comes from -----

  // Bypassing a red node costs nothing, bypassing a black one costs one black node.
  lemma DeficitStart(c: Context, t: Tree)
    requires t.Branch? && (t.left.Leaf? || t.right.Leaf?) && RedBlack(Plug(c, t))
    ensures c.Top? ==> RedBlack(Repaint(OnlyChild(t), false))
    ensures !c.Top? && t.red ==> RedBlack(Plug(c, OnlyChild(t)))
    ensures !c.Top? && !t.red ==> Deficit(c, OnlyChild(t))
  {
    var x := OnlyChild(t);
    ColorsPlug(c, t);
    ColorsPlug(c, x);
    Level(t);
    if x.Branch? {
      Level(x);
      Level(Repaint(x, false));
    }
    assert BlackCount(Leaf) == 0;
  }

  // Colours do not depend on which node carries them.
  lemma {:induction false} RenamedFrame(inner: Context, c: Context, l: Tree, z: Node, y: Node, red: bool, b: bool, k: nat)
    ensures var d, d' := Compose(inner, InRight(c, l, z, red)), Compose(inner, InRight(c, l, y, red));
      && (ContextColors(d, b) <==> ContextColors(d', b))
      && (ContextBalanced(d, k) <==> ContextBalanced(d', k))
      && (BlackAtTop(d) <==> BlackAtTop(d'))
  {
    match inner
    case Top =>
    case InLeft(up, _, red', _) => RenamedFrame(up, c, l, z, y, red, red', k + if red' then 0 else 1);
    case InRight(up, _, _, red') => RenamedFrame(up, c, l, z, y, red, red', k + if red' then 0 else 1);
  }

  lemma RenamedDeficit(inner: Context, c: Context, l: Tree, z: Node, y: Node, red: bool, t: Tree)
    ensures var d, d' := Compose(inner, InRight(c, l, z, red)), Compose(inner, InRight(c, l, y, red));
      && (Deficit(d, t) <==> Deficit(d', t))
      && (RedBlack(Plug(d, t)) <==> RedBlack(Plug(d', t)))
  {
    var d, d' := Compose(inner, InRight(c, l, z, red)), Compose(inner, InRight(c, l, y, red));
    RenamedFrame(inner, c, l, z, y, red, false, BlackCount(t) + 1);
    RenamedFrame(inner, c, l, z, y, red, IsRed(t), BlackCount(t));
    ColorsPlug(d, t);
    ColorsPlug(d', t);
    assert !d.Top? && !d'.Top?;
  }

  // At the root of the whole tree the deficit is no harm.
  lemma DeficitAtTop(c: Context, t: Tree)
    requires Deficit(c, t)
    ensures c.Top? ==> RedBlack(Repaint(t, false))
  {
    if t.Branch? {
      Level(t);
      Level(Repaint(t, false));
    }
  }

  lemma RedBlackRepainted(t: Tree)
    requires RedBlack(t)
    ensures RedBlack(Repaint(t, false))
  {
    assert Repaint(t, false) == t;
  }

  // The same for a node with two children, whose successor takes its place.
  lemma DeficitSuccessor(c: Context, t: Tree, inner: Context, m: Tree)
    requires t.Branch? && t.right == Plug(inner, m) && m.Branch? && m.left.Leaf? && RedBlack(Plug(c, t))
    ensures var d' := Compose(inner, InRight(c, t.left, m.node, t.red));
      && !d'.Top? && d'.node == Over(inner, m.node)
      && Plug(d', m.right) == Plug(c, Branch(t.left, m.node, t.red, Plug(inner, m.right)))
      && (if m.red then RedBlack(Plug(d', m.right)) else Deficit(d', m.right))
  {
    hide RedBlack, Deficit;
    var d := Compose(inner, InRight(c, t.left, t.node, t.red));
    SuccessorPlug(c, t, inner, m);
    SuccessorPlug(c, t.(node := m.node), inner, m.right);
    ComposeTop(inner, InRight(c, t.left, t.node, t.red));
    ComposeTop(inner, InRight(c, t.left, m.node, t.red));
    DeficitStart(d, m);
    RenamedDeficit(inner, c, t.left, t.node, m.node, t.red, m.right);
  }
}

// The mathematical side of the red-black tree: what a heap full of nodes means
// as a tree, and how a tree is taken apart at one position.

module RbNodes {

  // The record a node is embedded in, down to what the modelled code reads of
  // it: the key that the comparison procedures look at and an event mask.
  class Record {
    var key: int
    var mask: bv32

    constructor ()
      ensures key == 0 && mask == 0
    {
      key, mask := 0, 0;
    }
  }

  // The embedded node. The way from a node to its record is a fixed offset, so
  // `record` never changes.
  class Node {
    var left: Node?
    var right: Node?
    var parent: Node?
    var red: bool
    const record: Record

    constructor (record: Record)
      ensures this.record == record
      ensures left == null && right == null && parent == null && !red
    {
      this.record := record;
      left, right, parent, red := null, null, null, false;
    }
  }
}

module RbModel {
  import opened RbNodes
  import opened Sequences

  datatype Tree = Leaf | Branch(left: Tree, node: Node, red: bool, right: Tree)

  // A tree with one hole. The frame next to the hole comes first.
  datatype Context =
    | Top
    | InLeft(up: Context, node: Node, red: bool, right: Tree)
    | InRight(up: Context, left: Tree, node: Node, red: bool)

  ghost function Plug(c: Context, t: Tree): Tree {
    match c
    case Top => t
    case InLeft(up, n, red, r) => Plug(up, Branch(t, n, red, r))
    case InRight(up, l, n, red) => Plug(up, Branch(l, n, red, t))
  }

  // `inner` placed in the hole of `outer`.
  ghost function Compose(inner: Context, outer: Context): Context {
    match inner
    case Top => outer
    case InLeft(up, n, red, r) => InLeft(Compose(up, outer), n, red, r)
    case InRight(up, l, n, red) => InRight(Compose(up, outer), l, n, red)
  }

  lemma {:induction false} PlugCompose(inner: Context, outer: Context, t: Tree)
    ensures Plug(Compose(inner, outer), t) == Plug(outer, Plug(inner, t))
  {
    match inner
    case Top =>
    case InLeft(up, n, red, r) => PlugCompose(up, outer, Branch(t, n, red, r));
    case InRight(up, l, n, red) => PlugCompose(up, outer, Branch(l, n, red, t));
  }

  ghost function Depth(c: Context): nat {
    if c.Top? then 0 else 1 + Depth(c.up)
  }

  // ----- In-order sequences -----

  ghost function InOrder(t: Tree): seq<Node> {
    match t
    case Leaf => []
    case Branch(l, n, _, r) => InOrder(l) + [n] + InOrder(r)
  }

  ghost function Before(c: Context): seq<Node> {
    match c
    case Top => []
    case InLeft(up, _, _, _) => Before(up)
    case InRight(up, l, n, _) => Before(up) + InOrder(l) + [n]
  }

  ghost function After(c: Context): seq<Node> {
    match c
    case Top => []
    case InLeft(up, n, _, r) => [n] + InOrder(r) + After(up)
    case InRight(up, _, _, _) => After(up)
  }

  lemma {:induction false} InOrderPlug(c: Context, t: Tree)
    ensures InOrder(Plug(c, t)) == Before(c) + InOrder(t) + After(c)
  {
    match c
    case Top =>
    case InLeft(up, n, red, r) =>
      InOrderPlug(up, Branch(t, n, red, r));
      Regroup(Before(up), InOrder(t), [n], InOrder(r), After(up));
    case InRight(up, l, n, red) =>
      InOrderPlug(up, Branch(l, n, red, t));
      Regroup(Before(up), InOrder(l), [n], InOrder(t), After(up));
  }

  // The root of a tree with a hole below the root.
  ghost function TopNode(c: Context): Node
    requires !c.Top?
  {
    if c.up.Top? then c.node else TopNode(c.up)
  }

  lemma {:induction false} RootPlug(c: Context, t: Tree)
    requires !c.Top?
    ensures Plug(c, t).Branch? && Plug(c, t).node == TopNode(c) && TopNode(c) in Around(c)
  {
    match c
    case InLeft(up, n, red, r) => if !up.Top? { RootPlug(up, Branch(t, n, red, r)); }
    case InRight(up, l, n, red) => if !up.Top? { RootPlug(up, Branch(l, n, red, t)); }
  }

  lemma PlugIsBranch(c: Context, t: Tree)
    requires t.Branch?
    ensures Plug(c, t).Branch?
  {
    if !c.Top? {
      RootPlug(c, t);
    }
  }

  // ----- Node sets and separation -----

  ghost function NodeSet(t: Tree): set<Node> {
    match t
    case Leaf => {}
    case Branch(l, n, _, r) => NodeSet(l) + {n} + NodeSet(r)
  }

  ghost function Around(c: Context): set<Node> {
    match c
    case Top => {}
    case InLeft(up, n, _, r) => Around(up) + {n} + NodeSet(r)
    case InRight(up, l, n, _) => Around(up) + {n} + NodeSet(l)
  }

  // No node occurs twice.
  ghost predicate Separate(t: Tree) {
    t.Branch? ==>
      && t.node !in NodeSet(t.left) && t.node !in NodeSet(t.right)
      && NodeSet(t.left) !! NodeSet(t.right)
      && Separate(t.left) && Separate(t.right)
  }

  lemma {:induction false} SeparatePlug(c: Context, t: Tree)
    requires Separate(Plug(c, t))
    ensures Separate(t) && NodeSet(t) !! Around(c)
  {
    match c
    case Top =>
    case InLeft(up, n, red, r) => SeparatePlug(up, Branch(t, n, red, r));
    case InRight(up, l, n, red) => SeparatePlug(up, Branch(l, n, red, t));
  }

  lemma {:induction false} SeparateReplace(c: Context, t: Tree, t': Tree)
    requires Separate(Plug(c, t)) && Separate(t') && NodeSet(t') !! Around(c)
    ensures Separate(Plug(c, t'))
  {
    match c
    case Top =>
    case InLeft(up, n, red, r) =>
      SeparatePlug(up, Branch(t, n, red, r));
      SeparateReplace(up, Branch(t, n, red, r), Branch(t', n, red, r));
    case InRight(up, l, n, red) =>
      SeparatePlug(up, Branch(l, n, red, t));
      SeparateReplace(up, Branch(l, n, red, t), Branch(l, n, red, t'));
  }

  lemma {:induction false} NodeSetPlug(c: Context, t: Tree)
    ensures NodeSet(Plug(c, t)) == NodeSet(t) + Around(c)
  {
    match c
    case Top =>
    case InLeft(up, n, red, r) => NodeSetPlug(up, Branch(t, n, red, r));
    case InRight(up, l, n, red) => NodeSetPlug(up, Branch(l, n, red, t));
  }

  lemma {:induction false} NodeSetInOrder(t: Tree)
    ensures forall n :: n in NodeSet(t) ==> n in InOrder(t)
    ensures forall n :: n in InOrder(t) ==> n in NodeSet(t)
  {
    if t.Branch? {
      NodeSetInOrder(t.left);
      NodeSetInOrder(t.right);
    }
  }

  lemma {:induction false} SeparateDistinct(t: Tree)
    ensures Separate(t) <==> Distinct(InOrder(t))
  {
    if t.Branch? {
      SeparateDistinct(t.left);
      SeparateDistinct(t.right);
      NodeSetInOrder(t.left);
      NodeSetInOrder(t.right);
      DistinctMiddle(InOrder(t.left), t.node, InOrder(t.right));
      if Distinct(InOrder(t)) {
        assert NodeSet(t.left) * NodeSet(t.right) == {};
      }
      if Separate(t) {
        forall x | x in InOrder(t.left) ensures x !in InOrder(t.right) {
          assert x in NodeSet(t.left);
        }
      }
    }
  }

  // ----- Heaps that represent trees -----

  datatype Cell = Cell(left: Node?, right: Node?, parent: Node?, red: bool)
  type Heap = map<Node, Cell>

  ghost function Snap(s: set<Node>): Heap
    reads s
  {
    map n | n in s :: Cell(n.left, n.right, n.parent, n.red)
  }

  ghost function RootOf(nil: Node, t: Tree): Node {
    if t.Leaf? then nil else t.node
  }

  ghost predicate HasParent(h: Heap, t: Tree, p: Node) {
    t.Branch? ==> t.node in h && h[t.node].parent == p
  }

  // The heap holds the tree, with every parent link except the root's.
  ghost predicate Shape(h: Heap, nil: Node, t: Tree) {
    t.Branch? ==>
      && t.node in h && t.node != nil
      && h[t.node].left == RootOf(nil, t.left)
      && h[t.node].right == RootOf(nil, t.right)
      && h[t.node].red == t.red
      && HasParent(h, t.left, t.node) && HasParent(h, t.right, t.node)
      && Shape(h, nil, t.left) && Shape(h, nil, t.right)
  }

  // Shape looks at the nodes of the tree only, and not at the root's parent.
  lemma {:induction false} ShapeFrame(h: Heap, h': Heap, nil: Node, t: Tree)
    requires Shape(h, nil, t) && Separate(t)
    requires forall n :: n in NodeSet(t) && n in h ==>
      n in h' && (h'[n] == h[n] || (n == t.node && h'[n] == h[n].(parent := h'[n].parent)))
    ensures Shape(h', nil, t)
  {
    if t.Branch? {
      ShapeFrame(h, h', nil, t.left);
      ShapeFrame(h, h', nil, t.right);
    }
  }

  // The frame around a hole, as the heap holds it when `x` sits in the hole.
  ghost predicate FrameShape(h: Heap, nil: Node, c: Context, x: Node) {
    match c
    case Top => true
    case InLeft(_, n, red, r) =>
      n in h && n != nil && h[n].left == x && h[n].right == RootOf(nil, r) && h[n].red == red
      && HasParent(h, r, n) && Shape(h, nil, r)
    case InRight(_, l, n, red) =>
      n in h && n != nil && h[n].right == x && h[n].left == RootOf(nil, l) && h[n].red == red
      && HasParent(h, l, n) && Shape(h, nil, l)
  }

  // Taking a represented tree apart.
  lemma {:induction false} Unplug(h: Heap, nil: Node, c: Context, t: Tree)
    requires Shape(h, nil, Plug(c, t))
    ensures Shape(h, nil, t) && FrameShape(h, nil, c, RootOf(nil, t))
    ensures !c.Top? ==> HasParent(h, t, c.node)
  {
    match c
    case Top =>
    case InLeft(up, n, red, r) => Unplug(h, nil, up, Branch(t, n, red, r));
    case InRight(up, l, n, red) => Unplug(h, nil, up, Branch(l, n, red, t));
  }

  // What writing the child pointer next to the hole does to a cell.
  ghost function Relink(c: Context, cell: Cell, x: Node): Cell
    requires !c.Top?
  {
    if c.InLeft? then cell.(left := x) else cell.(right := x)
  }

  // The nodes of the context keep their cells, except for the one pointer to
  // what sits in the hole.
  ghost predicate Rehung(h: Heap, h': Heap, c: Context, x: Node) {
    forall n :: n in h && n in Around(c) ==>
      n in h' && h'[n] == if !c.Top? && n == c.node then Relink(c, h[n], x) else h[n]
  }

  // One frame of a context, moved from the context to the subtree in its hole.
  lemma ReplaceInLeft(h: Heap, h': Heap, nil: Node, c: Context, t: Tree, t': Tree)
    requires c.InLeft? && Shape(h, nil, Plug(c, t)) && Separate(Plug(c, t))
    requires Shape(h', nil, t') && Rehung(h, h', c, RootOf(nil, t')) && HasParent(h', t', c.node)
    ensures var whole' := Branch(t', c.node, c.red, c.right);
      && Shape(h', nil, whole') && Rehung(h, h', c.up, RootOf(nil, whole'))
      && (!c.up.Top? ==> HasParent(h', whole', c.up.node))
  {
    hide Plug;
    var whole := Branch(t, c.node, c.red, c.right);
    PlugOne(c, t);
    Unplug(h, nil, c.up, whole);
    SeparatePlug(c.up, whole);
    ShapeFrame(h, h', nil, c.right);
  }

  lemma ReplaceInRight(h: Heap, h': Heap, nil: Node, c: Context, t: Tree, t': Tree)
    requires c.InRight? && Shape(h, nil, Plug(c, t)) && Separate(Plug(c, t))
    requires Shape(h', nil, t') && Rehung(h, h', c, RootOf(nil, t')) && HasParent(h', t', c.node)
    ensures var whole' := Branch(c.left, c.node, c.red, t');
      && Shape(h', nil, whole') && Rehung(h, h', c.up, RootOf(nil, whole'))
      && (!c.up.Top? ==> HasParent(h', whole', c.up.node))
  {
    hide Plug;
    var whole := Branch(c.left, c.node, c.red, t);
    PlugOne(c, t);
    Unplug(h, nil, c.up, whole);
    SeparatePlug(c.up, whole);
    ShapeFrame(h, h', nil, c.left);
  }

  lemma PlugOne(c: Context, t: Tree)
    ensures c.InLeft? ==> Plug(c, t) == Plug(c.up, Branch(t, c.node, c.red, c.right))
    ensures c.InRight? ==> Plug(c, t) == Plug(c.up, Branch(c.left, c.node, c.red, t))
    ensures c.Top? ==> Plug(c, t) == t
  {
  }

  // Putting another subtree into the hole: enough to check the subtree, the
  // pointer to it and its parent pointer.
  lemma {:induction false} Replace(h: Heap, h': Heap, nil: Node, c: Context, t: Tree, t': Tree)
    requires Shape(h, nil, Plug(c, t)) && Separate(Plug(c, t))
    requires Shape(h', nil, t')
    requires Rehung(h, h', c, RootOf(nil, t'))
    requires !c.Top? ==> HasParent(h', t', c.node)
    ensures Shape(h', nil, Plug(c, t'))
  {
    hide Shape, Separate, Plug, Rehung;
    PlugOne(c, t);
    PlugOne(c, t');
    match c
    case Top =>
    case InLeft(up, n, red, r) =>
      ReplaceInLeft(h, h', nil, c, t, t');
      Replace(h, h', nil, up, Branch(t, n, red, r), Branch(t', n, red, r));
    case InRight(up, l, n, red) =>
      ReplaceInRight(h, h', nil, c, t, t');
      Replace(h, h', nil, up, Branch(l, n, red, t), Branch(l, n, red, t'));
  }

  // ----- Rotations -----

  ghost function RotateLeft(t: Tree): Tree
    requires t.Branch? && t.right.Branch?
  {
    var u := t.right;
    Branch(Branch(t.left, t.node, t.red, u.left), u.node, u.red, u.right)
  }

  ghost function RotateRight(t: Tree): Tree
    requires t.Branch? && t.left.Branch?
  {
    var u := t.left;
    Branch(u.left, u.node, u.red, Branch(u.right, t.node, t.red, t.right))
  }

  // Rotations undo each other and keep the order.
  lemma RotateInverse(t: Tree)
    requires t.Branch?
    ensures t.right.Branch? ==> RotateRight(RotateLeft(t)) == t && InOrder(RotateLeft(t)) == InOrder(t)
    ensures t.left.Branch? ==> RotateLeft(RotateRight(t)) == t && InOrder(RotateRight(t)) == InOrder(t)
  {
    hide InOrder;
    InOrderBranch(t);
    if t.right.Branch? {
      RotateOrder(t, t.right);
    }
    if t.left.Branch? {
      RotateOrder(RotateRight(t), Branch(t.left.right, t.node, t.red, t.right));
      InOrderBranch(t.left);
    }
  }

  // The order around a node and its right child, in both shapes.
  lemma RotateOrder(t: Tree, u: Tree)
    requires t.Branch? && t.right == u && u.Branch?
    ensures InOrder(t) == InOrder(RotateLeft(t))
  {
    hide InOrder;
    InOrderBranch(t);
    InOrderBranch(u);
    InOrderBranch(RotateLeft(t));
    InOrderBranch(RotateLeft(t).left);
    Rebracket(InOrder(t.left), [t.node], InOrder(u.left), [u.node], InOrder(u.right));
  }

  // The heap after the pointer writes of a left rotation, cell by cell: `x` goes
  // down, `y` comes up, `m` changes sides, and `p` is the node above, if any.
  ghost predicate RotatedLeft(h: Heap, h': Heap, x: Node, y: Node, m: Node, p: Node?) {
    && x in h && y in h && h'.Keys == h.Keys
    && h'[x] == h[x].(right := m, parent := y)
    && h'[y] == h[y].(left := x, parent := h[x].parent)
    && (m in h ==> h'[m] == h[m].(parent := x))
    && (p != null && p in h ==> h'[p] == if h[p].left == x then h[p].(left := y) else h[p].(right := y))
    && forall n :: n in h && n !in {x, y, m, p} ==> h'[n] == h[n]
  }

  ghost predicate RotatedRight(h: Heap, h': Heap, x: Node, y: Node, m: Node, p: Node?) {
    && x in h && y in h && h'.Keys == h.Keys
    && h'[x] == h[x].(left := m, parent := y)
    && h'[y] == h[y].(right := x, parent := h[x].parent)
    && (m in h ==> h'[m] == h[m].(parent := x))
    && (p != null && p in h ==> h'[p] == if h[p].right == x then h[p].(right := y) else h[p].(left := y))
    && forall n :: n in h && n !in {x, y, m, p} ==> h'[n] == h[n]
  }

  // The heap holds exactly this tree.
  ghost predicate Represents(h: Heap, nil: Node, t: Tree) {
    Separate(t) && NodeSet(t) == h.Keys && nil !in h && Shape(h, nil, t)
  }

  // Another subtree in the hole, for a tree as a whole.
  lemma ReplaceWhole(h: Heap, h': Heap, nil: Node, c: Context, t: Tree, t': Tree)
    requires Represents(h, nil, Plug(c, t))
    requires Separate(t') && NodeSet(t') !! Around(c) && h'.Keys == NodeSet(t') + Around(c) && nil !in h'
    requires Shape(h', nil, t') && Rehung(h, h', c, RootOf(nil, t'))
    requires !c.Top? ==> HasParent(h', t', c.node)
    ensures Represents(h', nil, Plug(c, t'))
    ensures InOrder(Plug(c, t')) == Before(c) + InOrder(t') + After(c)
    ensures RootOf(nil, Plug(c, t')) == if c.Top? then RootOf(nil, t') else RootOf(nil, Plug(c, t))
  {
    NodeSetPlug(c, t');
    SeparateReplace(c, t, t');
    InOrderPlug(c, t');
    if !c.Top? {
      RootPlug(c, t);
      RootPlug(c, t');
    }
    Replace(h, h', nil, c, t, t');
  }

  // What Represents says about one position.
  lemma UnplugWhole(h: Heap, nil: Node, c: Context, t: Tree)
    requires Represents(h, nil, Plug(c, t))
    ensures Shape(h, nil, t) && FrameShape(h, nil, c, RootOf(nil, t)) && (!c.Top? ==> HasParent(h, t, c.node))
    ensures Separate(t) && NodeSet(t) !! Around(c) && h.Keys == NodeSet(t) + Around(c) && nil !in h
    ensures InOrder(Plug(c, t)) == Before(c) + InOrder(t) + After(c)
    ensures if c.Top? then RootOf(nil, Plug(c, t)) == RootOf(nil, t)
      else RootOf(nil, Plug(c, t)) == TopNode(c) && TopNode(c) in Around(c)
    ensures !c.Top? ==> c.node in Around(c)
  {
    Unplug(h, nil, c, t);
    SeparatePlug(c, t);
    NodeSetPlug(c, t);
    InOrderPlug(c, t);
    if !c.Top? {
      RootPlug(c, t);
    }
  }

  // The pointers of a frame, without the sibling subtree.
  lemma UnplugFrame(h: Heap, nil: Node, c: Context, t: Tree)
    requires Represents(h, nil, Plug(c, t)) && !c.Top? && t.Branch?
    ensures c.node in h && t.node in h && h[t.node].parent == c.node
    ensures t.node == h[c.node].left <==> c.InLeft?
    ensures t.node == h[c.node].right <==> c.InRight?
  {
    UnplugWhole(h, nil, c, t);
  }

  lemma RotateLeftSubtree(h: Heap, h': Heap, nil: Node, t: Tree, p: Node?)
    requires t.Branch? && t.right.Branch? && Shape(h, nil, t) && Separate(t)
    requires p == null || p !in NodeSet(t)
    requires nil !in NodeSet(t)
    requires RotatedLeft(h, h', t.node, t.right.node, RootOf(nil, t.right.left), p)
    ensures Shape(h', nil, RotateLeft(t))
  {
    var u := t.right;
    assert NodeSet(t) >= NodeSet(u);
    ShapeFrame(h, h', nil, t.left);
    ShapeFrame(h, h', nil, u.left);
    ShapeFrame(h, h', nil, u.right);
    assert Shape(h', nil, RotateLeft(t).left);
  }

  lemma RotateRightSubtree(h: Heap, h': Heap, nil: Node, t: Tree, p: Node?)
    requires t.Branch? && t.left.Branch? && Shape(h, nil, t) && Separate(t)
    requires p == null || p !in NodeSet(t)
    requires nil !in NodeSet(t)
    requires RotatedRight(h, h', t.node, t.left.node, RootOf(nil, t.left.right), p)
    ensures Shape(h', nil, RotateRight(t))
  {
    var u := t.left;
    assert NodeSet(t) >= NodeSet(u);
    ShapeFrame(h, h', nil, t.right);
    ShapeFrame(h, h', nil, u.left);
    ShapeFrame(h, h', nil, u.right);
    assert Shape(h', nil, RotateRight(t).right);
  }

  ghost function Above(c: Context): Node? {
    if c.Top? then null else c.node
  }

  lemma RotateLeftWhole(h: Heap, h': Heap, nil: Node, c: Context, t: Tree)
    requires t.Branch? && t.right.Branch? && Represents(h, nil, Plug(c, t))
    requires RotatedLeft(h, h', t.node, t.right.node, RootOf(nil, t.right.left), Above(c))
    ensures Represents(h', nil, Plug(c, RotateLeft(t)))
    ensures InOrder(Plug(c, RotateLeft(t))) == InOrder(Plug(c, t))
    ensures RootOf(nil, Plug(c, RotateLeft(t))) == if c.Top? then t.right.node else RootOf(nil, Plug(c, t))
  {
    hide Plug, InOrder, Before, After, Represents;
    UnplugWhole(h, nil, c, t);
    RotateLeftSubtree(h, h', nil, t, Above(c));
    RotateInverse(t);
    ReplaceWhole(h, h', nil, c, t, RotateLeft(t));
  }

  lemma RotateRightWhole(h: Heap, h': Heap, nil: Node, c: Context, t: Tree)
    requires t.Branch? && t.left.Branch? && Represents(h, nil, Plug(c, t))
    requires RotatedRight(h, h', t.node, t.left.node, RootOf(nil, t.left.right), Above(c))
    ensures Represents(h', nil, Plug(c, RotateRight(t)))
    ensures InOrder(Plug(c, RotateRight(t))) == InOrder(Plug(c, t))
    ensures RootOf(nil, Plug(c, RotateRight(t))) == if c.Top? then t.left.node else RootOf(nil, Plug(c, t))
  {
    hide Plug, InOrder, Before, After, Represents;
    UnplugWhole(h, nil, c, t);
    RotateRightSubtree(h, h', nil, t, Above(c));
    RotateInverse(t);
    ReplaceWhole(h, h', nil, c, t, RotateRight(t));
  }

  lemma RepaintWhole(h: Heap, h': Heap, nil: Node, c: Context, t: Tree, red: bool)
    requires t.Branch? && Represents(h, nil, Plug(c, t))
    requires t.node in h && h' == h[t.node := h[t.node].(red := red)]
    ensures Represents(h', nil, Plug(c, Repaint(t, red)))
    ensures InOrder(Plug(c, Repaint(t, red))) == InOrder(Plug(c, t))
    ensures RootOf(nil, Plug(c, Repaint(t, red))) == RootOf(nil, Plug(c, t))
  {
    hide Plug, InOrder, Before, After, Represents;
    UnplugWhole(h, nil, c, t);
    ShapeFrame(h, h', nil, t.left);
    ShapeFrame(h, h', nil, t.right);
    ReplaceWhole(h, h', nil, c, t, Repaint(t, red));
  }

  // ----- A new leaf node -----

  lemma AttachWhole(h: Heap, h': Heap, nil: Node, c: Context, n: Node)
    requires !c.Top? && Represents(h, nil, Plug(c, Leaf)) && n !in h && n != nil
    requires c.node in h && h' == h[c.node := Relink(c, h[c.node], n)][n := Cell(nil, nil, c.node, true)]
    ensures Represents(h', nil, Plug(c, Branch(Leaf, n, true, Leaf)))
    ensures InOrder(Plug(c, Branch(Leaf, n, true, Leaf))) == Before(c) + [n] + After(c)
    ensures RootOf(nil, Plug(c, Branch(Leaf, n, true, Leaf))) == RootOf(nil, Plug(c, Leaf))
  {
    var t := Branch(Leaf, n, true, Leaf);
    assert InOrder(t) == [n];
    UnplugWhole(h, nil, c, Leaf);
    ReplaceWhole(h, h', nil, c, Leaf, t);
  }

  // ----- Taking a node out -----

  // The cells after `n` was bypassed: `x` hangs where `n` did, with parent `p`.
  ghost function SpliceOut(h: Heap, c: Context, n: Node, x: Node, p: Node?): Heap {
    map m | m in h && m != n ::
      if c.Top? then h[m]
      else if m == c.node then Relink(c, h[m], x)
      else if m == x then h[m].(parent := p)
      else h[m]
  }

  ghost function OnlyChild(t: Tree): Tree
    requires t.Branch?
  {
    if t.left.Leaf? then t.right else t.left
  }

  lemma SpliceOutWhole(h: Heap, nil: Node, c: Context, t: Tree)
    requires t.Branch? && (t.left.Leaf? || t.right.Leaf?) && Represents(h, nil, Plug(c, t))
    ensures var x := OnlyChild(t);
      && Represents(SpliceOut(h, c, t.node, RootOf(nil, x), Above(c)), nil, Plug(c, x))
      && InOrder(Plug(c, x)) == Before(c) + InOrder(x) + After(c)
      && RootOf(nil, Plug(c, x)) == if c.Top? then RootOf(nil, x) else RootOf(nil, Plug(c, t))
  {
    hide Plug, InOrder, Before, After, Represents;
    var x := OnlyChild(t);
    var h' := SpliceOut(h, c, t.node, RootOf(nil, x), Above(c));
    UnplugWhole(h, nil, c, t);
    ShapeFrame(h, h', nil, x);
    ReplaceWhole(h, h', nil, c, t, x);
  }

  // The cells after `y` took the place of `z`.
  ghost function TakePlace(h: Heap, c: Context, z: Node, y: Node): Heap
    requires z in h
  {
    map m | m in (h.Keys - {z}) + {y} ::
      if m == y then h[z]
      else if m == h[z].left || m == h[z].right then h[m].(parent := y)
      else if !c.Top? && m == c.node then Relink(c, h[m], y)
      else h[m]
  }

  // The subtrees of the replaced node keep their shape, the nodes above their cells.
  lemma TakePlaceShape(h: Heap, nil: Node, c: Context, t: Tree, y: Node)
    requires t.Branch? && Shape(h, nil, t) && Separate(t) && FrameShape(h, nil, c, t.node)
    requires !c.Top? ==> HasParent(h, t, c.node) && c.node in Around(c)
    requires NodeSet(t) !! Around(c) && h.Keys == NodeSet(t) + Around(c)
    requires t.node in h && y !in h && y != nil && nil !in h
    ensures var h', t' := TakePlace(h, c, t.node, y), t.(node := y);
      && Shape(h', nil, t') && (!c.Top? ==> HasParent(h', t', c.node))
  {
    var h' := TakePlace(h, c, t.node, y);
    ShapeFrame(h, h', nil, t.left);
    ShapeFrame(h, h', nil, t.right);
  }

  lemma TakePlaceRehung(h: Heap, nil: Node, c: Context, t: Tree, y: Node)
    requires t.Branch? && Shape(h, nil, t) && NodeSet(t) !! Around(c) && h.Keys == NodeSet(t) + Around(c)
    requires t.node in h && y !in h && nil !in h
    ensures Rehung(h, TakePlace(h, c, t.node, y), c, y)
  {
  }

  lemma TakePlaceWhole(h: Heap, nil: Node, c: Context, t: Tree, y: Node)
    requires t.Branch? && Represents(h, nil, Plug(c, t)) && t.node in h && y !in h && y != nil
    ensures var t' := t.(node := y);
      && Represents(TakePlace(h, c, t.node, y), nil, Plug(c, t'))
      && InOrder(Plug(c, t')) == Before(c) + InOrder(t') + After(c)
      && RootOf(nil, Plug(c, t')) == if c.Top? then y else RootOf(nil, Plug(c, t))
  {
    hide Plug, InOrder, Before, After, Represents, Shape, Rehung, FrameShape, HasParent;
    var t' := t.(node := y);
    var h' := TakePlace(h, c, t.node, y);
    UnplugWhole(h, nil, c, t);
    TakePlaceShape(h, nil, c, t, y);
    TakePlaceRehung(h, nil, c, t, y);
    ReplaceWhole(h, h', nil, c, t, t');
  }

  // The successor's parent.
  ghost function Over(inner: Context, node: Node): Node {
    if inner.Top? then node else inner.node
  }

  lemma ComposeTop(inner: Context, outer: Context)
    requires !outer.Top?
    ensures var d := Compose(inner, outer);
      && !d.Top? && d.node == Over(inner, outer.node)
      && (d.InLeft? <==> if inner.Top? then outer.InLeft? else inner.InLeft?)
  {
  }

  // The parents of the children of the node that goes do not matter.
  lemma TakePlaceSame(h: Heap, h': Heap, c: Context, z: Node, y: Node)
    requires h.Keys == h'.Keys && z in h && h[z] == h'[z]
    requires forall m :: m in h && m != h[z].right ==> h'[m] == h[m]
    requires h[z].right in h ==> h'[h[z].right] == h[h[z].right].(parent := h'[h[z].right].parent)
    ensures TakePlace(h', c, z, y) == TakePlace(h, c, z, y)
  {
  }

  lemma SuccessorApart(h: Heap, nil: Node, c: Context, t: Tree, inner: Context, m: Tree)
    requires t.Branch? && t.right == Plug(inner, m) && m.Branch? && Represents(h, nil, Plug(c, t))
    ensures t.node in h && m.node in h && m.node != t.node && m.node != nil
    ensures nil !in NodeSet(t) && Separate(t) && NodeSet(t) !! Around(c)
  {
    UnplugWhole(h, nil, c, t);
    NodeSetPlug(inner, m);
  }

  // Which nodes around a node and its successor are different ones.
  lemma SuccessorSets(c: Context, t: Tree, inner: Context, m: Tree)
    requires t.Branch? && t.left.Branch? && t.right == Plug(inner, m) && m.Branch?
    requires Separate(t) && NodeSet(t) !! Around(c)
    ensures t.node in NodeSet(t) && m.node in NodeSet(t) && t.node != m.node
    ensures t.right.Branch? && t.left.node in NodeSet(t) && t.right.node in NodeSet(t)
    ensures inner.Top? <==> Over(inner, t.node) == t.node
    ensures Over(inner, t.node) in NodeSet(t)
    ensures m.right.Branch? ==> m.right.node in NodeSet(t) && m.right.node !in {t.node, t.left.node, t.right.node}
    ensures t.left.node !in {t.node, m.node, Over(inner, t.node), t.right.node}
    ensures t.right.node != t.node && (inner.Top? <==> t.right.node == m.node)
    ensures !c.Top? ==> c.node !in NodeSet(t)
  {
    NodeSetPlug(inner, m);
    SeparatePlug(inner, m);
    if !inner.Top? {
      RootPlug(inner, m);
    }
    assert NodeSet(t) == NodeSet(t.left) + {t.node} + (NodeSet(m) + Around(inner));
    assert m.node in NodeSet(m) && t.left.node in NodeSet(t.left);
    assert !inner.Top? ==> inner.node in Around(inner);
    assert m.right.Branch? ==> m.right.node in NodeSet(m);
  }

  // What the pointer writes rely on when `y`, with only child `x` and below the
  // frame `d`, takes the place of `z`.
  ghost predicate Exchangeable(h: Heap, nil: Node, c: Context, z: Node, y: Node, x: Node, d: Context) {
    && z in h && y in h && nil !in h && z != y
    && !d.Top? && d.node in h && d.node != y && h[y].parent == d.node
    && (y == h[d.node].left <==> d.InLeft?) && (d.InRight? ==> y == h[d.node].right)
    && (x in h || x == nil) && x !in {z, y, d.node}
    && h[z].left != null && h[z].right != null && h[z].left in h && h[z].right in h
    && h[z].left !in {z, y, x, d.node, h[z].right} && h[z].right !in {z, x}
    && (d.node == z <==> h[z].right == y) && (d.node == z ==> d.InRight?)
    && (!c.Top? ==> c.node in h && h[z].parent == c.node && (z == h[c.node].left <==> c.InLeft?))
    && (!c.Top? ==> c.node !in {z, y, x, d.node, h[z].left, h[z].right})
  }

  // The lower end of the exchange.
  lemma SuccessorBelow(h: Heap, nil: Node, d: Context, m: Tree)
    requires !d.Top? && m.Branch? && m.left.Leaf? && Represents(h, nil, Plug(d, m))
    ensures var y, x := m.node, RootOf(nil, m.right);
      && y in h && nil !in h && d.node in h && d.node != y && h[y].parent == d.node
      && (y == h[d.node].left <==> d.InLeft?) && (d.InRight? ==> y == h[d.node].right)
      && (x in h || x == nil) && x !in {y, d.node}
  {
    hide Plug, InOrder, Before, After;
    UnplugWhole(h, nil, d, m);
    UnplugFrame(h, nil, d, m);
  }

  // The upper end of the exchange.
  lemma SuccessorAbove(h: Heap, nil: Node, c: Context, t: Tree)
    requires t.Branch? && t.left.Branch? && t.right.Branch? && Represents(h, nil, Plug(c, t))
    ensures var z := t.node;
      && NodeSet(t) <= h.Keys && z in h && h[z].left == t.left.node && h[z].right == t.right.node
      && (!c.Top? ==> c.node in h && h[z].parent == c.node && (z == h[c.node].left <==> c.InLeft?))
  {
    hide Plug, InOrder, Before, After;
    UnplugWhole(h, nil, c, t);
    if !c.Top? {
      UnplugFrame(h, nil, c, t);
    }
  }

  lemma SuccessorExchangeable(h: Heap, nil: Node, c: Context, t: Tree, inner: Context, m: Tree)
    requires t.Branch? && t.left.Branch? && t.right == Plug(inner, m) && m.Branch? && m.left.Leaf?
    requires Represents(h, nil, Plug(c, t))
    ensures var d := Compose(inner, InRight(c, t.left, t.node, t.red));
      && Exchangeable(h, nil, c, t.node, m.node, RootOf(nil, m.right), d)
      && d.node == Over(inner, t.node) && (inner.Top? <==> d.node == t.node)
  {
    hide Plug, InOrder, Before, After, Compose, Around, Represents, Shape, Separate, NodeSet, Over;
    var outer := InRight(c, t.left, t.node, t.red);
    PlugIsBranch(inner, m);
    SuccessorPlug(c, t, inner, m);
    ComposeTop(inner, outer);
    SuccessorBelow(h, nil, Compose(inner, outer), m);
    SuccessorAbove(h, nil, c, t);
    SuccessorApart(h, nil, c, t, inner, m);
    SuccessorSets(c, t, inner, m);
  }

  lemma SuccessorCells(h: Heap, c: Context, inner: Context, outer: Context, y: Node, x: Node)
    requires outer.InRight? && outer.node in h && y in h && y != outer.node
    ensures var d, z := Compose(inner, outer), outer.node;
      && !d.Top?
      && var h0, h1 := SpliceOut(h, d, y, x, d.node), SpliceOut(h, d, y, x, Over(inner, y));
      && z in h0 && z in h1 && y !in h0
      && TakePlace(h1, c, z, y) == TakePlace(h0, c, z, y)
  {
    ComposeTop(inner, outer);
    var d := Compose(inner, outer);
    if inner.Top? {
      TakePlaceSame(SpliceOut(h, d, y, x, d.node), SpliceOut(h, d, y, x, y), c, outer.node, y);
    }
  }

  lemma SuccessorPlug(c: Context, t: Tree, inner: Context, x: Tree)
    requires t.Branch?
    ensures Plug(Compose(inner, InRight(c, t.left, t.node, t.red)), x) ==
      Plug(c, Branch(t.left, t.node, t.red, Plug(inner, x)))
  {
    PlugCompose(inner, InRight(c, t.left, t.node, t.red), x);
  }

  // A node with two children: its successor is bypassed and takes its place.
  lemma SuccessorWhole(h: Heap, nil: Node, c: Context, t: Tree, inner: Context, m: Tree)
    requires t.Branch? && t.right == Plug(inner, m) && m.Branch? && m.left.Leaf?
    requires Represents(h, nil, Plug(c, t))
    ensures var h1 := SpliceOut(h, Compose(inner, InRight(c, t.left, t.node, t.red)), m.node,
        RootOf(nil, m.right), Over(inner, m.node));
      var t' := Branch(t.left, m.node, t.red, Plug(inner, m.right));
      && t.node in h1
      && Represents(TakePlace(h1, c, t.node, m.node), nil, Plug(c, t'))
      && InOrder(Plug(c, t')) == Before(c) + InOrder(t') + After(c)
      && RootOf(nil, Plug(c, t')) == if c.Top? then m.node else RootOf(nil, Plug(c, t))
  {
    hide InOrder, Before, After, Represents, NodeSet, Shape, Separate, TakePlace, Around, SpliceOut;
    hide Compose, TopNode, Plug, Relink;
    var outer := InRight(c, t.left, t.node, t.red);
    var d := Compose(inner, outer);
    var t0 := Branch(t.left, t.node, t.red, Plug(inner, m.right));
    SuccessorApart(h, nil, c, t, inner, m);
    SuccessorCells(h, c, inner, outer, m.node, RootOf(nil, m.right));
    SuccessorPlug(c, t, inner, m);
    SuccessorPlug(c, t, inner, m.right);
    assert t == Branch(t.left, t.node, t.red, Plug(inner, m));
    SpliceOutWhole(h, nil, d, m);
    TakePlaceWhole(SpliceOut(h, d, m.node, RootOf(nil, m.right), d.node), nil, c, t0, m.node);
  }

  // ----- Colours -----

  ghost predicate IsRed(t: Tree) {
    t.Branch? && t.red
  }

  ghost function Repaint(t: Tree, red: bool): (r: Tree)
    ensures InOrder(r) == InOrder(t)
  {
    if t.Leaf? then t else t.(red := red)
  }

  // No red node has a red child.
  ghost predicate NoRedRed(t: Tree) {
    t.Branch? ==>
      && (t.red ==> !IsRed(t.left) && !IsRed(t.right))
      && NoRedRed(t.left) && NoRedRed(t.right)
  }

  // Black nodes on the leftmost path.
  ghost function BlackCount(t: Tree): nat {
    if t.Leaf? then 0 else BlackCount(t.left) + if t.red then 0 else 1
  }

  ghost predicate Balanced(t: Tree) {
    t.Branch? ==> BlackCount(t.left) == BlackCount(t.right) && Balanced(t.left) && Balanced(t.right)
  }

  ghost predicate RedBlack(t: Tree) {
    !IsRed(t) && NoRedRed(t) && Balanced(t)
  }

  // The part of NoRedRed that lies outside the hole.
  ghost predicate ContextColors(c: Context, holeRed: bool) {
    match c
    case Top => true
    case InLeft(up, _, red, r) =>
      (red ==> !holeRed && !IsRed(r)) && NoRedRed(r) && ContextColors(up, red)
    case InRight(up, l, _, red) =>
      (red ==> !holeRed && !IsRed(l)) && NoRedRed(l) && ContextColors(up, red)
  }

  // The part of Balanced that lies outside a hole for `k` black nodes.
  ghost predicate ContextBalanced(c: Context, k: nat) {
    match c
    case Top => true
    case InLeft(up, _, red, r) =>
      Balanced(r) && BlackCount(r) == k && ContextBalanced(up, k + if red then 0 else 1)
    case InRight(up, l, _, red) =>
      Balanced(l) && BlackCount(l) == k && ContextBalanced(up, k + if red then 0 else 1)
  }

  // The outermost node is black.
  ghost predicate BlackAtTop(c: Context) {
    match c
    case Top => true
    case InLeft(up, _, red, _) => if up.Top? then !red else BlackAtTop(up)
    case InRight(up, _, _, red) => if up.Top? then !red else BlackAtTop(up)
  }

  lemma {:induction false} ColorsPlug(c: Context, t: Tree)
    ensures NoRedRed(Plug(c, t)) <==> NoRedRed(t) && ContextColors(c, IsRed(t))
    ensures Balanced(Plug(c, t)) <==> Balanced(t) && ContextBalanced(c, BlackCount(t))
    ensures !c.Top? ==> (IsRed(Plug(c, t)) <==> !BlackAtTop(c))
  {
    match c
    case Top =>
    case InLeft(up, n, red, r) => ColorsPlug(up, Branch(t, n, red, r));
    case InRight(up, l, n, red) => ColorsPlug(up, Branch(l, n, red, t));
  }

  // ----- Keys -----

  ghost predicate Sorted(s: seq<Node>)
    reads set n | n in s :: n.record
  {
    forall i, j :: 0 <= i < j < |s| ==> s[i].record.key <= s[j].record.key
  }

  ghost predicate AllAtMost(s: seq<Node>, key: int)
    reads set n | n in s :: n.record
  {
    forall n :: n in s ==> n.record.key <= key
  }

  ghost predicate AllAbove(s: seq<Node>, key: int)
    reads set n | n in s :: n.record
  {
    forall n :: n in s ==> n.record.key > key
  }

  // `n` stands right after the last node of `s` that is not greater.
  ghost predicate Spliced(s: seq<Node>, s': seq<Node>, n: Node)
    reads n.record, set m | m in s :: m.record
  {
    exists k :: 0 <= k <= |s| && s' == s[..k] + [n] + s[k..]
      && AllAtMost(s[..k], n.record.key) && AllAbove(s[k..], n.record.key)
  }

  // A node with key `key` between nodes that allow for it.
  lemma SortedSplice(a: seq<Node>, n: Node, b: seq<Node>)
    requires Sorted(a + b) && AllAtMost(a, n.record.key) && AllAbove(b, n.record.key)
    ensures Sorted(a + [n] + b)
  {
    var s, s' := a + b, a + [n] + b;
    forall i, j | 0 <= i < j < |s'| ensures s'[i].record.key <= s'[j].record.key {
      var i', j' := if i <= |a| then i else i - 1, if j <= |a| then j else j - 1;
      assert i != |a| ==> s'[i] == s[i'];
      assert j != |a| ==> s'[j] == s[j'];
    }
  }

  lemma SplicedFirst(n: Node)
    ensures Spliced([], [n], n) && Sorted([n])
  {
    var s: seq<Node> := [];
    assert [n] == s[..0] + [n] + s[0..];
  }

  lemma SplicedSorted(s: seq<Node>, s': seq<Node>, n: Node)
    requires Sorted(s) && Spliced(s, s', n)
    ensures Sorted(s')
  {
    var k :| 0 <= k <= |s| && s' == s[..k] + [n] + s[k..]
      && AllAtMost(s[..k], n.record.key) && AllAbove(s[k..], n.record.key);
    assert s == s[..k] + s[k..];
    hide Sorted, AllAtMost, AllAbove;
    SortedSplice(s[..k], n, s[k..]);
  }

  // Which side of a node a key belongs to.
  lemma OrderAround(c: Context, t: Tree, key: int)
    requires t.Branch? && Sorted(InOrder(Plug(c, t)))
    requires AllAtMost(Before(c), key) && AllAbove(After(c), key)
    ensures key < t.node.record.key ==>
      var d := InLeft(c, t.node, t.red, t.right);
      Plug(d, t.left) == Plug(c, t) && AllAtMost(Before(d), key) && AllAbove(After(d), key)
    ensures key >= t.node.record.key ==>
      var d := InRight(c, t.left, t.node, t.red);
      Plug(d, t.right) == Plug(c, t) && AllAtMost(Before(d), key) && AllAbove(After(d), key)
  {
    InOrderPlug(c, t);
    var a, l, r, b := Before(c), InOrder(t.left), InOrder(t.right), After(c);
    RegroupMiddle(a, l, [t.node], r, b);
    assert InOrder(t) == l + [t.node] + r;
    hide InOrder;
    assert InOrder(Plug(c, t)) == (a + l) + [t.node] + (r + b);
    SortedAround(a + l, t.node, r + b);
  }

  lemma WholeTree(t: Tree)
    ensures Plug(Top, t) == t && Before(Top) == [] && After(Top) == []
  {
  }

  lemma HoleOrder(c: Context)
    ensures InOrder(Plug(c, Leaf)) == Before(c) + After(c)
  {
    InOrderPlug(c, Leaf);
    assert InOrder(Leaf) == [];
    assert Before(c) + [] + After(c) == Before(c) + After(c);
  }

  lemma SortedAround(a: seq<Node>, n: Node, b: seq<Node>)
    ensures Sorted(a + [n] + b) ==> AllAtMost(a, n.record.key) && forall m :: m in b ==> m.record.key >= n.record.key
  {
    var s := a + [n] + b;
    if Sorted(s) {
      assert s[|a|] == n;
      forall m | m in a ensures m.record.key <= n.record.key {
        var i :| 0 <= i < |a| && a[i] == m;
        assert s[i] == m;
      }
      forall m | m in b ensures m.record.key >= n.record.key {
        var i :| 0 <= i < |b| && b[i] == m;
        assert s[|a| + 1 + i] == m;
      }
    }
  }

  // ----- Order after a deletion -----

  // The same sequence without one element.
  ghost predicate Removed(s: seq<Node>, s': seq<Node>, n: Node) {
    exists k :: 0 <= k < |s| && s[k] == n && s' == s[..k] + s[k + 1..]
  }

  lemma RemovedMiddle(a: seq<Node>, n: Node, b: seq<Node>)
    ensures Removed(a + [n] + b, a + b, n)
  {
    var s := a + [n] + b;
    assert s[..|a|] == a && s[|a| + 1..] == b && s[|a|] == n;
    assert a + b == s[..|a|] + s[|a| + 1..];
  }

  lemma RemovedAt(s: seq<Node>, k: int, i: int)
    requires 0 <= k < |s| && 0 <= i < |s| - 1
    ensures (s[..k] + s[k + 1..])[i] == s[if i < k then i else i + 1]
  {
  }

  lemma RemovedSorted(s: seq<Node>, s': seq<Node>, n: Node)
    requires Sorted(s) && Removed(s, s', n)
    ensures Sorted(s')
  {
    var k :| 0 <= k < |s| && s[k] == n && s' == s[..k] + s[k + 1..];
    forall i, j | 0 <= i < j < |s'| ensures s'[i].record.key <= s'[j].record.key {
      RemovedAt(s, k, i);
      RemovedAt(s, k, j);
    }
  }

  lemma RemovedAround(a: seq<Node>, l: seq<Node>, n: Node, r: seq<Node>, b: seq<Node>)
    ensures Removed(a + (l + [n] + r) + b, a + (l + r) + b, n)
  {
    hide Removed;
    RegroupMiddle(a, l, [n], r, b);
    RemovedMiddle(a + l, n, r + b);
    assert (a + l) + (r + b) == a + (l + r) + b;
  }

  // Bypassing a node with at most one child takes it out of the order.
  lemma BypassOrder(c: Context, t: Tree)
    requires t.Branch? && (t.left.Leaf? || t.right.Leaf?)
    ensures Removed(InOrder(Plug(c, t)), Before(c) + InOrder(OnlyChild(t)) + After(c), t.node)
  {
    InOrderPlug(c, t);
    var l, r := InOrder(t.left), InOrder(t.right);
    RemovedAround(Before(c), l, t.node, r, After(c));
    assert t.left.Leaf? ==> l == [] && l + r == r;
    assert t.right.Leaf? ==> r == [] && l + r == l;
  }

  // Putting the successor in a node's place takes the node out of the order.
  lemma TransplantOrder(c: Context, t: Tree, inner: Context, m: Tree)
    requires t.Branch? && t.right == Plug(inner, m) && Before(inner) == [] && m.Branch? && m.left.Leaf?
    ensures var t' := Branch(t.left, m.node, t.red, Plug(inner, m.right));
      Removed(InOrder(Plug(c, t)), Before(c) + InOrder(t') + After(c), t.node)
  {
    hide InOrder, Plug, Before, After, Removed;
    var t' := Branch(t.left, m.node, t.red, Plug(inner, m.right));
    InOrderBranch(t);
    InOrderBranch(t');
    SuccessorFirst(inner, m);
    InOrderPlug(c, t);
    var l, r' := InOrder(t.left), InOrder(Plug(inner, m.right));
    Bracket(l, [m.node], r');
    RemovedAround(Before(c), l, t.node, [m.node] + r', After(c));
  }

  lemma Bracket(a: seq<Node>, b: seq<Node>, c: seq<Node>)
    ensures a + b + c == a + (b + c)
  {
  }

  lemma InOrderBranch(t: Tree)
    requires t.Branch?
    ensures InOrder(t) == InOrder(t.left) + [t.node] + InOrder(t.right)
  {
  }

  lemma SuccessorFirst(inner: Context, m: Tree)
    requires Before(inner) == [] && m.Branch? && m.left.Leaf?
    ensures InOrder(Plug(inner, m)) == [m.node] + InOrder(Plug(inner, m.right))
  {
    InOrderPlug(inner, m);
    InOrderPlug(inner, m.right);
  }

  // Every node of a tree sits somewhere in it.
  lemma {:induction false} Locate(t: Tree, n: Node) returns (c: Context, s: Tree)
    requires n in NodeSet(t)
    ensures Plug(c, s) == t && s.Branch? && s.node == n
  {
    if t.node == n {
      c, s := Top, t;
    } else if n in NodeSet(t.left) {
      c, s := Locate(t.left, n);
      PlugCompose(c, InLeft(Top, t.node, t.red, t.right), s);
      c := Compose(c, InLeft(Top, t.node, t.red, t.right));
    } else {
      c, s := Locate(t.right, n);
      PlugCompose(c, InRight(Top, t.left, t.node, t.red), s);
      c := Compose(c, InRight(Top, t.left, t.node, t.red));
    }
  }

  // ----- Searching -----

  ghost predicate Ascending(find: int -> int) {
    forall a, b :: a <= b ==> (find(b) < 0 ==> find(a) < 0) && (find(a) > 0 ==> find(b) > 0)
  }

  // All on the left of what is searched for, or all on the right of it.
  ghost predicate AllFind(s: seq<Node>, find: int -> int, left: bool)
    reads set n | n in s :: n.record
  {
    forall n :: n in s ==> if left then find(n.record.key) < 0 else find(n.record.key) > 0
  }

  lemma FindAround(c: Context, t: Tree, find: int -> int)
    requires t.Branch? && Sorted(InOrder(Plug(c, t))) && Ascending(find)
    requires AllFind(Before(c), find, true) && AllFind(After(c), find, false)
    ensures find(t.node.record.key) < 0 ==>
      var d := InRight(c, t.left, t.node, t.red);
      Plug(d, t.right) == Plug(c, t) && AllFind(Before(d), find, true) && AllFind(After(d), find, false)
    ensures find(t.node.record.key) > 0 ==>
      var d := InLeft(c, t.node, t.red, t.right);
      Plug(d, t.left) == Plug(c, t) && AllFind(Before(d), find, true) && AllFind(After(d), find, false)
  {
    InOrderPlug(c, t);
    var a, l, r, b := Before(c), InOrder(t.left), InOrder(t.right), After(c);
    RegroupMiddle(a, l, [t.node], r, b);
    assert InOrder(t) == l + [t.node] + r;
    hide InOrder;
    SortedAround(a + l, t.node, r + b);
  }

  // Nothing is left to find when the search ends in a hole.
  lemma FindNone(c: Context, find: int -> int)
    requires AllFind(Before(c), find, true) && AllFind(After(c), find, false)
    ensures forall n :: n in InOrder(Plug(c, Leaf)) ==> find(n.record.key) != 0
  {
    HoleOrder(c);
  }

  lemma FindStart(find: int -> int)
    ensures AllFind([], find, true) && AllFind([], find, false)
  {
  }

  lemma RemovedFirst(s: seq<Node>, s': seq<Node>, n: Node)
    requires Distinct(s) && s != [] && s[0] == n && Removed(s, s', n)
    ensures s == [n] + s' && |s'| < |s|
  {
    var k :| 0 <= k < |s| && s[k] == n && s' == s[..k] + s[k + 1..];
    assert k == 0;
  }

  // The first element passes from one sequence to the end of another.
  lemma MovedOver(taken: seq<Node>, s: seq<Node>, s': seq<Node>, n: Node)
    requires Distinct(s) && s != [] && s[0] == n && Removed(s, s', n)
    ensures taken + s == taken + [n] + s' && |s'| < |s|
  {
    RemovedFirst(s, s', n);
    assert taken + ([n] + s') == taken + [n] + s';
  }
}

// The balance conditions in terms of paths, and what they say about height.

module RbShape {
  import opened RbNodes
  import opened RbModel

  // A path from the root to the sentinel: `true` for each step to the right.
  ghost predicate IsPath(t: Tree, p: seq<bool>) {
    if t.Leaf? then p == []
    else p != [] && IsPath(Step(t, p[0]), p[1..])
  }

  ghost function BlacksOn(t: Tree, p: seq<bool>): nat
    requires IsPath(t, p)
  {
    if t.Leaf? then 0
    else (if t.red then 0 else 1) + BlacksOn(Step(t, p[0]), p[1..])
  }

  ghost function Step(t: Tree, right: bool): Tree
    requires t.Branch?
  {
    if right then t.right else t.left
  }

  // A path with two red nodes in a row.
  ghost predicate RedPairPath(t: Tree, p: seq<bool>) {
    t.Branch? && p != [] &&
      ((t.red && IsRed(Step(t, p[0])) && IsPath(Step(t, p[0]), p[1..])) || RedPairPath(Step(t, p[0]), p[1..]))
  }

  ghost function LeftmostPath(t: Tree): (p: seq<bool>)
    ensures IsPath(t, p) && BlacksOn(t, p) == BlackCount(t)
  {
    if t.Leaf? then [] else [false] + LeftmostPath(t.left)
  }

  // Balanced is the fifth condition of the source: the same number of black
  // nodes on every path.
  lemma {:induction false} BalancedPaths(t: Tree)
    ensures Balanced(t) <==> forall p, q :: IsPath(t, p) && IsPath(t, q) ==> BlacksOn(t, p) == BlacksOn(t, q)
  {
    if Balanced(t) {
      forall p, q | IsPath(t, p) && IsPath(t, q) ensures BlacksOn(t, p) == BlacksOn(t, q) {
        BlacksOfBalanced(t, p);
        BlacksOfBalanced(t, q);
      }
    } else {
      var p, q := UnbalancedPaths(t);
    }
  }

  lemma {:induction false} BlacksOfBalanced(t: Tree, p: seq<bool>)
    requires Balanced(t) && IsPath(t, p)
    ensures BlacksOn(t, p) == BlackCount(t)
  {
    if t.Branch? {
      BlacksOfBalanced(Step(t, p[0]), p[1..]);
    }
  }

  lemma {:induction false} UnbalancedPaths(t: Tree) returns (p: seq<bool>, q: seq<bool>)
    requires !Balanced(t)
    ensures IsPath(t, p) && IsPath(t, q) && BlacksOn(t, p) != BlacksOn(t, q)
  {
    if !Balanced(t.left) {
      p, q := UnbalancedPaths(t.left);
      p, q := [false] + p, [false] + q;
    } else if !Balanced(t.right) {
      p, q := UnbalancedPaths(t.right);
      p, q := [true] + p, [true] + q;
    } else {
      p, q := [false] + LeftmostPath(t.left), [true] + LeftmostPath(t.right);
    }
  }

  // NoRedRed is the fourth condition: no red node on any path has a red child.
  lemma {:induction false} ColouredPaths(t: Tree)
    ensures NoRedRed(t) <==> forall p :: !RedPairPath(t, p)
  {
    if NoRedRed(t) {
      forall p ensures !RedPairPath(t, p) {
        NoPairOn(t, p);
      }
    } else {
      var p := PairPath(t);
      assert exists q :: RedPairPath(t, q);
    }
  }

  lemma {:induction false} NoPairOn(t: Tree, p: seq<bool>)
    requires NoRedRed(t)
    ensures !RedPairPath(t, p)
  {
    if t.Branch? && p != [] {
      NoPairOn(Step(t, p[0]), p[1..]);
    }
  }

  lemma {:induction false} PairPath(t: Tree) returns (p: seq<bool>)
    requires !NoRedRed(t)
    ensures RedPairPath(t, p)
  {
    if t.red && IsRed(t.left) {
      p := [false] + LeftmostPath(t.left);
    } else if t.red && IsRed(t.right) {
      p := [true] + LeftmostPath(t.right);
    } else if !NoRedRed(t.left) {
      p := PairPath(t.left);
      p := [false] + p;
    } else {
      p := PairPath(t.right);
      p := [true] + p;
    }
  }

  // ----- Height -----

  ghost function Pow2(n: nat): nat {
    if n == 0 then 1 else 2 * Pow2(n - 1)
  }

  lemma {:induction false} Pow2Monotone(m: nat, n: nat)
    requires m <= n
    ensures Pow2(m) <= Pow2(n)
  {
    if m < n {
      Pow2Monotone(m, n - 1);
    }
  }

  ghost function Height(t: Tree): nat {
    if t.Leaf? then 0
    else 1 + if Height(t.left) > Height(t.right) then Height(t.left) else Height(t.right)
  }

  lemma {:induction false} HeightByColour(t: Tree)
    requires NoRedRed(t) && Balanced(t)
    ensures Height(t) <= 2 * BlackCount(t) + if IsRed(t) then 1 else 0
  {
    if t.Branch? {
      HeightByColour(t.left);
      HeightByColour(t.right);
    }
  }

  lemma {:induction false} SizeByColour(t: Tree)
    requires Balanced(t)
    ensures Pow2(BlackCount(t)) <= |InOrder(t)| + 1
  {
    if t.Branch? {
      SizeByColour(t.left);
      SizeByColour(t.right);
    }
  }

  // The height is at most twice the binary logarithm of the number of nodes plus one.
  lemma LogarithmicHeight(t: Tree)
    requires RedBlack(t)
    ensures Pow2((Height(t) + 1) / 2) <= |InOrder(t)| + 1
  {
    HeightByColour(t);
    SizeByColour(t);
    Pow2Monotone((Height(t) + 1) / 2, BlackCount(t));
  }

  lemma {:induction false} PathWithinHeight(t: Tree, p: seq<bool>)
    requires IsPath(t, p)
    ensures |p| <= Height(t)
  {
    if t.Branch? {
      PathWithinHeight(Step(t, p[0]), p[1..]);
    }
  }

  lemma LogarithmicPath(t: Tree, p: seq<bool>)
    requires RedBlack(t) && IsPath(t, p)
    ensures Pow2((|p| + 1) / 2) <= |InOrder(t)| + 1
  {
    PathWithinHeight(t, p);
    LogarithmicHeight(t);
    Pow2Monotone((|p| + 1) / 2, (Height(t) + 1) / 2);
  }

  ghost function PreOrder(t: Tree): seq<Node> {
    if t.Leaf? then [] else [t.node] + PreOrder(t.left) + PreOrder(t.right)
  }

  // Both walks meet the same nodes, each once.
  lemma {:induction false} PreOrderVisits(t: Tree)
    ensures multiset(PreOrder(t)) == multiset(InOrder(t))
  {
    if t.Branch? {
      PreOrderVisits(t.left);
      PreOrderVisits(t.right);
    }
  }

  ghost predicate Precedes(s: seq<Node>, m: Node, n: Node) {
    exists i, j :: 0 <= i < j < |s| && s[i] == m && s[j] == n
  }

  // At every position of the tree a node is met before what is below it, and all on
  // its left before all on its right.
  lemma PreOrderPlaces(c: Context, t: Tree)
    requires t.Branch?
    ensures var s := PreOrder(Plug(c, t));
      && (forall n :: n in InOrder(t.left) || n in InOrder(t.right) ==> Precedes(s, t.node, n))
      && (forall m, n :: m in InOrder(t.left) && n in InOrder(t.right) ==> Precedes(s, m, n))
  {
    hide PreOrder, InOrder, Plug, Precedes;
    var a, b := PreOrderPlug(c, t);
    var s, l, r := PreOrder(Plug(c, t)), PreOrder(t.left), PreOrder(t.right);
    PreOrderBranch(t);
    assert s == a + [t.node] + l + (r + b) && s == (a + [t.node] + l) + r + b;
    forall n | n in InOrder(t.left) || n in InOrder(t.right) ensures Precedes(s, t.node, n) {
      SameNodes(t.left, n);
      SameNodes(t.right, n);
      PrecedesParts(a, [t.node], l + r, b, t.node, n);
      assert s == a + [t.node] + (l + r) + b;
    }
    forall m, n | m in InOrder(t.left) && n in InOrder(t.right) ensures Precedes(s, m, n) {
      SameNodes(t.left, m);
      SameNodes(t.right, n);
      PrecedesParts(a + [t.node], l, r, b, m, n);
    }
  }

  lemma PreOrderBranch(t: Tree)
    requires t.Branch?
    ensures PreOrder(t) == [t.node] + PreOrder(t.left) + PreOrder(t.right)
  {
  }

  lemma SameNodes(t: Tree, n: Node)
    ensures n in InOrder(t) <==> n in PreOrder(t)
  {
    hide PreOrder, InOrder;
    PreOrderVisits(t);
    assert n in multiset(PreOrder(t)) <==> n in multiset(InOrder(t));
  }

  lemma PrecedesParts(a: seq<Node>, x: seq<Node>, y: seq<Node>, b: seq<Node>, m: Node, n: Node)
    requires m in x && n in y
    ensures Precedes(a + x + y + b, m, n)
  {
    var i :| 0 <= i < |x| && x[i] == m;
    var j :| 0 <= j < |y| && y[j] == n;
    var s := a + x + y + b;
    assert s[|a| + i] == m && s[|a| + |x| + j] == n;
  }

  // What is met of a subtree is met without a break.
  lemma {:induction false} PreOrderPlug(c: Context, t: Tree) returns (a: seq<Node>, b: seq<Node>)
    ensures PreOrder(Plug(c, t)) == a + PreOrder(t) + b
    decreases c
  {
    hide PreOrder, Plug;
    PlugOne(c, t);
    match c
    case Top =>
      a, b := [], [];
    case InLeft(up, node, red, right) =>
      var p := Branch(t, node, red, right);
      a, b := PreOrderPlug(up, p);
      PreOrderBranch(p);
      assert a + PreOrder(p) + b == (a + [node]) + PreOrder(t) + (PreOrder(right) + b);
      a, b := a + [node], PreOrder(right) + b;
    case InRight(up, left, node, red) =>
      var p := Branch(left, node, red, t);
      a, b := PreOrderPlug(up, p);
      PreOrderBranch(p);
      assert a + PreOrder(p) + b == (a + [node] + PreOrder(left)) + PreOrder(t) + b;
      a := a + [node] + PreOrder(left);
  }
}

// The array heap of src/ez_max_heap.c: push sifts up, pop moves a hole down to a
// leaf and puts the last element there.

module MaxHeaps {
  import opened Options

  // The comparison is an order in which different elements may be equal.
  ghost predicate Order<T(!new)>(cmp: (T, T) -> int) {
    && (forall a, b :: cmp(a, b) > 0 <==> cmp(b, a) < 0)
    && (forall a, b, c :: cmp(a, b) >= 0 && cmp(b, c) >= 0 ==> cmp(a, c) >= 0)
  }

  // The division of the source, which rounds to zero.
  function Parent(i: nat): (p: nat)
    ensures i > 0 ==> p < i
  {
    if i == 0 then 0 else (i - 1) / 2
  }

  // No element is above its parent.
  ghost predicate Heap<T>(s: seq<T>, cmp: (T, T) -> int) {
    forall i :: 1 <= i < |s| ==> cmp(s[Parent(i)], s[i]) >= 0
  }

  // The same but for one edge, the one above `hole`.
  ghost predicate HeapBut<T>(s: seq<T>, cmp: (T, T) -> int, hole: nat) {
    forall i :: 1 <= i < |s| && i != hole ==> cmp(s[Parent(i)], s[i]) >= 0
  }

  ghost predicate RootMax<T>(s: seq<T>, cmp: (T, T) -> int) {
    forall i :: 0 <= i < |s| ==> cmp(s[0], s[i]) >= 0
  }

  lemma {:induction false} HeapRoot<T(!new)>(s: seq<T>, cmp: (T, T) -> int, i: nat)
    requires Order(cmp) && Heap(s, cmp) && i < |s|
    ensures cmp(s[0], s[i]) >= 0
  {
    if i > 0 {
      HeapRoot(s, cmp, Parent(i));
    }
  }

  // ----- Push -----

  // What is left of a sift from `hole` upwards.
  ghost function Lifted<T>(s: seq<T>, cmp: (T, T) -> int, hole: nat, x: T): (r: seq<T>)
    requires hole < |s|
    ensures |r| == |s|
    decreases hole
  {
    if hole > 0 && cmp(s[Parent(hole)], x) < 1
    then Lifted(s[hole := s[Parent(hole)]], cmp, Parent(hole), x)
    else s[hole := x]
  }

  ghost function Pushed<T>(s: seq<T>, cmp: (T, T) -> int, x: T): seq<T> {
    Lifted(s + [x], cmp, |s|, x)
  }

  // With the element in the hole only the edge above it may be wrong, and what
  // hangs below the hole fits below its parent too.
  ghost predicate Liftable<T>(s: seq<T>, cmp: (T, T) -> int, hole: nat, x: T)
    requires hole < |s|
  {
    && HeapBut(s[hole := x], cmp, hole)
    && (hole > 0 ==> forall i :: 1 <= i < |s| && Parent(i) == hole ==> cmp(s[Parent(hole)], s[i]) >= 0)
  }

  lemma {:induction false} LiftedHeap<T(!new)>(s: seq<T>, cmp: (T, T) -> int, hole: nat, x: T)
    requires Order(cmp) && hole < |s| && Liftable(s, cmp, hole, x)
    ensures Heap(Lifted(s, cmp, hole, x), cmp)
    decreases hole
  {
    if hole > 0 && cmp(s[Parent(hole)], x) < 1 {
      LiftOne(s, cmp, hole, x);
      LiftedHeap(s[hole := s[Parent(hole)]], cmp, Parent(hole), x);
    } else {
      var t := s[hole := x];
      assert forall i :: 1 <= i < |s| && i != hole ==> cmp(t[Parent(i)], t[i]) >= 0;
    }
  }

  lemma LiftOne<T(!new)>(s: seq<T>, cmp: (T, T) -> int, hole: nat, x: T)
    requires Order(cmp) && 0 < hole < |s| && Liftable(s, cmp, hole, x) && cmp(s[Parent(hole)], x) < 1
    ensures Liftable(s[hole := s[Parent(hole)]], cmp, Parent(hole), x)
  {
    hide Order, HeapBut, Parent;
    LiftOneEdges(s, cmp, hole, x);
    if Parent(hole) > 0 {
      LiftOneBelow(s, cmp, hole, x);
    }
  }

  lemma LiftOneEdges<T(!new)>(s: seq<T>, cmp: (T, T) -> int, hole: nat, x: T)
    requires Order(cmp) && 0 < hole < |s| && Liftable(s, cmp, hole, x) && cmp(s[Parent(hole)], x) < 1
    ensures HeapBut(s[hole := s[Parent(hole)]][Parent(hole) := x], cmp, Parent(hole))
  {
    var p := Parent(hole);
    var t, t' := s[hole := x], s[hole := s[p]][p := x];
    assert cmp(x, s[p]) >= 0;
    forall i | 1 <= i < |s| && i != p ensures cmp(t'[Parent(i)], t'[i]) >= 0 {
      if i != hole {
        assert cmp(t[Parent(i)], t[i]) >= 0;
      }
    }
  }

  lemma LiftOneBelow<T(!new)>(s: seq<T>, cmp: (T, T) -> int, hole: nat, x: T)
    requires Order(cmp) && 0 < hole < |s| && Liftable(s, cmp, hole, x) && Parent(hole) > 0
    ensures var p, s' := Parent(hole), s[hole := s[Parent(hole)]];
      forall i :: 1 <= i < |s| && Parent(i) == p ==> cmp(s'[Parent(p)], s'[i]) >= 0
  {
    var p := Parent(hole);
    var s', t := s[hole := s[p]], s[hole := x];
    assert cmp(t[Parent(p)], t[p]) >= 0;
    forall i | 1 <= i < |s| && Parent(i) == p ensures cmp(s'[Parent(p)], s'[i]) >= 0 {
      if i != hole {
        assert cmp(t[p], t[i]) >= 0;
      }
    }
  }

  lemma {:induction false} LiftedBag<T>(s: seq<T>, cmp: (T, T) -> int, hole: nat, x: T)
    requires hole < |s|
    ensures multiset(Lifted(s, cmp, hole, x)) == multiset(s[hole := x])
    decreases hole
  {
    if hole > 0 && cmp(s[Parent(hole)], x) < 1 {
      var p := Parent(hole);
      LiftedBag(s[hole := s[p]], cmp, p, x);
      MovedBag(s, hole, p, x);
    }
  }

  // An element moved into the hole leaves a hole behind.
  lemma MovedBag<T>(s: seq<T>, hole: nat, p: nat, x: T)
    requires hole < |s| && p < |s| && p != hole
    ensures multiset(s[hole := s[p]][p := x]) == multiset(s[hole := x])
  {
    UpdateBag(s, hole, x);
    UpdateBag(s, hole, s[p]);
    UpdateBag(s[hole := s[p]], p, x);
  }

  lemma UpdateBag<T>(s: seq<T>, i: nat, x: T)
    requires i < |s|
    ensures multiset(s[i := x]) == multiset(s) - multiset{s[i]} + multiset{x}
  {
  }

  // Pushing keeps the heap, and the largest element at the root even where
  // earlier pops broke the heap.
  lemma PushKeeps<T(!new)>(s: seq<T>, cmp: (T, T) -> int, x: T)
    requires Order(cmp)
    ensures multiset(Pushed(s, cmp, x)) == multiset(s) + multiset{x}
    ensures Heap(s, cmp) ==> Heap(Pushed(s, cmp, x), cmp)
    ensures RootMax(s, cmp) ==> RootMax(Pushed(s, cmp, x), cmp)
  {
    var t := s + [x];
    assert t[|s| := x] == t;
    LiftedBag(t, cmp, |s|, x);
    if Heap(s, cmp) {
      LiftedHeap(t, cmp, |s|, x);
    }
    if RootMax(s, cmp) {
      LiftedRoot(t, cmp, |s|, x);
    }
  }

  lemma {:induction false} LiftedRoot<T(!new)>(s: seq<T>, cmp: (T, T) -> int, hole: nat, x: T)
    requires Order(cmp) && hole < |s|
    requires hole > 0 ==> forall i :: 0 <= i < |s| && i != hole ==> cmp(s[0], s[i]) >= 0
    requires hole == 0 ==> forall i :: 1 <= i < |s| ==> cmp(x, s[i]) >= 0
    ensures RootMax(Lifted(s, cmp, hole, x), cmp)
    decreases hole
  {
    assert cmp(x, x) >= 0;
    if hole > 0 {
      var p := Parent(hole);
      if cmp(s[p], x) < 1 {
        assert cmp(x, s[p]) >= 0;
        LiftedRoot(s[hole := s[p]], cmp, p, x);
      } else {
        assert cmp(s[0], s[p]) >= 0 && cmp(s[p], x) >= 0;
      }
    }
  }

  // Where the new element comes to rest: right below one that is strictly above it,
  // past all that are not. Only elements it has passed have moved, one level down.
  lemma PushLands<T>(s: seq<T>, cmp: (T, T) -> int, x: T) returns (p: nat)
    ensures var r := Pushed(s, cmp, x);
      && |r| == |s| + 1 && p <= |s| && r[p] == x && (p > 0 ==> cmp(r[Parent(p)], x) > 0)
      && forall i :: 0 <= i <= |s| && i != p ==>
        (i < |s| && r[i] == s[i]) || (i > p && r[i] == s[Parent(i)] && cmp(r[i], x) <= 0)
  {
    p := LiftedLands(s + [x], cmp, |s|, x);
  }

  lemma {:induction false} LiftedLands<T>(s: seq<T>, cmp: (T, T) -> int, hole: nat, x: T) returns (p: nat)
    requires hole < |s|
    ensures var r := Lifted(s, cmp, hole, x);
      && p <= hole && r[p] == x && (p > 0 ==> cmp(r[Parent(p)], x) > 0)
      && (forall i :: 0 <= i < |s| && (i < p || i > hole) ==> r[i] == s[i])
      && forall i :: p < i <= hole ==>
        (i < hole && r[i] == s[i]) || (r[i] == s[Parent(i)] && cmp(r[i], x) <= 0)
    decreases hole
  {
    if hole > 0 && cmp(s[Parent(hole)], x) < 1 {
      var up := Parent(hole);
      p := LiftedLands(s[hole := s[up]], cmp, up, x);
      assert forall i :: 0 < i <= up ==> Parent(i) < hole;
    } else {
      p := hole;
    }
  }

  // ----- Pop -----

  // The child that is moved up: the left one if it is above the right one.
  ghost function Child<T>(s: seq<T>, cmp: (T, T) -> int, i: nat): (c: nat)
    requires 2 * i + 1 < |s|
    ensures c < |s| && c > i && Parent(c) == i
  {
    if 2 * i + 2 == |s| || cmp(s[2 * i + 1], s[2 * i + 2]) > 0 then 2 * i + 1 else 2 * i + 2
  }

  // The leaf where the hole ends that starts at `i`.
  ghost function Leaf<T>(s: seq<T>, cmp: (T, T) -> int, i: nat): (h: nat)
    requires i < |s|
    ensures i <= h < |s| <= 2 * h + 1
    decreases |s| - i
  {
    if 2 * i + 1 >= |s| then i else Leaf(s, cmp, Child(s, cmp, i))
  }

  // The elements when the hole has come down; it still holds what was moved up.
  ghost function Sunk<T>(s: seq<T>, cmp: (T, T) -> int, i: nat): (r: seq<T>)
    requires i < |s|
    ensures |r| == |s|
    decreases |s| - i
  {
    if 2 * i + 1 >= |s| then s else Sunk(s[i := s[Child(s, cmp, i)]], cmp, Child(s, cmp, i))
  }

  ghost function Popped<T>(s: seq<T>, cmp: (T, T) -> int): seq<T>
    requires s != []
  {
    var n := |s| - 1;
    var r := Sunk(s, cmp, 0);
    r[Leaf(s, cmp, 0) := r[n]][..n]
  }

  // Moving a child up changes neither the choices below it nor what lies there.
  lemma {:induction false} LeafSame<T>(s: seq<T>, s': seq<T>, cmp: (T, T) -> int, i: nat)
    requires i < |s| == |s'| && forall j :: i <= j < |s| ==> s'[j] == s[j]
    ensures Leaf(s', cmp, i) == Leaf(s, cmp, i)
    decreases |s| - i
  {
    if 2 * i + 1 < |s| {
      LeafSame(s, s', cmp, Child(s, cmp, i));
    }
  }

  lemma {:induction false} SunkOutside<T>(s: seq<T>, cmp: (T, T) -> int, i: nat)
    requires i < |s|
    ensures var h, r := Leaf(s, cmp, i), Sunk(s, cmp, i);
      && (forall j :: 0 <= j < i ==> r[j] == s[j]) && (forall j :: h <= j < |s| ==> r[j] == s[j])
      && (h > i ==> r[Parent(h)] == s[h])
      && (h > i ==> r[i] == s[Child(s, cmp, i)])
    decreases |s| - i
  {
    if 2 * i + 1 < |s| {
      var c := Child(s, cmp, i);
      LeafSame(s, s[i := s[c]], cmp, c);
      SunkOutside(s[i := s[c]], cmp, c);
    }
  }

  lemma {:induction false} SunkBag<T>(s: seq<T>, cmp: (T, T) -> int, i: nat, x: T)
    requires i < |s|
    ensures multiset(Sunk(s, cmp, i)[Leaf(s, cmp, i) := x]) == multiset(s[i := x])
    decreases |s| - i
  {
    if 2 * i + 1 < |s| {
      var c := Child(s, cmp, i);
      var s' := s[i := s[c]];
      LeafSame(s, s', cmp, c);
      SunkBag(s', cmp, c, x);
      MovedBag(s, i, c, x);
    }
  }

  lemma {:induction false} SunkHeap<T(!new)>(s: seq<T>, cmp: (T, T) -> int, i: nat)
    requires Order(cmp) && Heap(s, cmp) && i < |s|
    ensures Heap(Sunk(s, cmp, i), cmp)
    decreases |s| - i
  {
    if 2 * i + 1 < |s| {
      SinkOne(s, cmp, i);
      SunkHeap(s[i := s[Child(s, cmp, i)]], cmp, Child(s, cmp, i));
    }
  }

  lemma SinkOne<T(!new)>(s: seq<T>, cmp: (T, T) -> int, i: nat)
    requires Order(cmp) && Heap(s, cmp) && 2 * i + 1 < |s|
    ensures Heap(s[i := s[Child(s, cmp, i)]], cmp)
  {
    var c := Child(s, cmp, i);
    var s' := s[i := s[c]];
    forall j | 1 <= j < |s| ensures cmp(s'[Parent(j)], s'[j]) >= 0 {
      assert cmp(s[Parent(j)], s[j]) >= 0;
      if j == i {
        assert cmp(s[i], s[c]) >= 0;
      } else if Parent(j) == i {
        assert j in {2 * i + 1, 2 * i + 2};
        assert cmp(s[c], s[c]) >= 0;
      }
    }
  }

  // `c` lies on the way from the root to `h`.
  ghost predicate OnWay(c: nat, h: nat) {
    c == h || (h > c && OnWay(c, Parent(h)))
  }

  lemma {:induction false} OnWayBelow(i: nat, c: nat, d: nat, h: nat)
    requires OnWay(c, h) && OnWay(d, h) && c > 0 && Parent(c) == i && d > i
    ensures d >= c
    decreases h
  {
    if c != h && d != h {
      OnWayBelow(i, c, d, Parent(h));
    }
  }

  lemma {:induction false} OnWayUp(c: nat, h: nat)
    requires OnWay(c, h) && c > 0
    ensures OnWay(Parent(c), h)
    decreases h
  {
    if c != h {
      OnWayUp(c, Parent(h));
    }
  }

  // The child that is not an only one is the right one, unless the left one is
  // strictly above it.
  ghost predicate Chosen<T>(s: seq<T>, cmp: (T, T) -> int, c: nat)
    requires 0 < c < |s|
  {
    var left, right := 2 * Parent(c) + 1, 2 * Parent(c) + 2;
    right < |s| ==> (c == left <==> cmp(s[left], s[right]) > 0)
  }

  // Every element on the way has moved to its parent. The others stay.
  ghost predicate MovedUp<T>(s: seq<T>, r: seq<T>, cmp: (T, T) -> int, i: nat, h: nat)
    requires |r| == |s|
  {
    && (forall c :: i < c <= h < |s| && OnWay(c, h) ==> r[Parent(c)] == s[c] && Chosen(s, cmp, c))
    && (forall j :: 0 <= j < |s| && (j < i || j == h || !OnWay(j, h)) ==> r[j] == s[j])
  }

  lemma {:induction false} SunkMovedUp<T>(s: seq<T>, cmp: (T, T) -> int, i: nat)
    requires i < |s|
    ensures OnWay(i, Leaf(s, cmp, i)) && MovedUp(s, Sunk(s, cmp, i), cmp, i, Leaf(s, cmp, i))
    decreases |s| - i
  {
    hide OnWay, MovedUp;
    if 2 * i + 1 < |s| {
      var c := Child(s, cmp, i);
      LeafSame(s, s[i := s[c]], cmp, c);
      SunkMovedUp(s[i := s[c]], cmp, c);
      OnWayUp(c, Leaf(s, cmp, i));
      MovedUpOne(s, Sunk(s, cmp, i), cmp, i, c, Leaf(s, cmp, i));
    } else {
      NothingMoved(s, cmp, i);
    }
  }

  lemma NothingMoved<T>(s: seq<T>, cmp: (T, T) -> int, i: nat)
    ensures OnWay(i, i) && MovedUp(s, s, cmp, i, i)
  {
  }

  // One more step on the way, in front of the others.
  lemma MovedUpOne<T>(s: seq<T>, r: seq<T>, cmp: (T, T) -> int, i: nat, c: nat, h: nat)
    requires |r| == |s| && i < c <= h < |s| && Parent(c) == i && OnWay(c, h)
    requires Chosen(s, cmp, c) && MovedUp(s[i := s[c]], r, cmp, c, h)
    ensures MovedUp(s, r, cmp, i, h)
  {
    hide OnWay, Chosen;
    OnWayUp(c, h);
    forall d | i < d <= h && OnWay(d, h) ensures r[Parent(d)] == s[d] && Chosen(s, cmp, d) {
      OnWayBelow(i, c, d, h);
      if d > c {
        OnWayNext(c, d, h);
        ChosenSame(s, cmp, d, i, s[c]);
      }
    }
  }

  lemma ChosenSame<T>(s: seq<T>, cmp: (T, T) -> int, c: nat, i: nat, x: T)
    requires 0 < c < |s| && i < Parent(c)
    ensures Chosen(s[i := x], cmp, c) == Chosen(s, cmp, c)
  {
  }

  lemma {:induction false} OnWayNext(c: nat, d: nat, h: nat)
    requires OnWay(c, h) && OnWay(d, h) && d > c
    ensures Parent(d) >= c
    decreases h
  {
    if d != h {
      OnWayNext(c, d, Parent(h));
    } else {
      OnWayLess(c, Parent(h));
    }
  }

  lemma OnWayLess(c: nat, h: nat)
    requires OnWay(c, h)
    ensures c <= h
  {
  }

  // A pop in terms of the array before.
  lemma PopWay<T>(s: seq<T>, cmp: (T, T) -> int) returns (h: nat, r: seq<T>)
    requires s != []
    ensures h < |s| <= 2 * h + 1 && |r| == |s| && MovedUp(s, r, cmp, 0, h)
    ensures Popped(s, cmp) == r[h := s[|s| - 1]][..|s| - 1]
  {
    h, r := Leaf(s, cmp, 0), Sunk(s, cmp, 0);
    SunkMovedUp(s, cmp, 0);
    SunkOutside(s, cmp, 0);
  }

  lemma PoppedAt<T>(s: seq<T>, cmp: (T, T) -> int)
    requires s != []
    ensures var n, h, r, t := |s| - 1, Leaf(s, cmp, 0), Sunk(s, cmp, 0), Popped(s, cmp);
      && |t| == n && (h < n ==> t[h] == s[n])
      && (forall i :: 0 <= i < n && i != h ==> t[i] == r[i])
      && t + [if h == n then s[n] else r[n]] == r[h := s[n]]
      && (0 < h < n ==> t[Parent(h)] == s[h])
  {
    hide Leaf, Sunk;
    SunkOutside(s, cmp, 0);
  }

  // Whatever the order in the array, pop takes out exactly the element at the root.
  lemma PopBag<T>(s: seq<T>, cmp: (T, T) -> int)
    requires s != []
    ensures multiset(Popped(s, cmp)) == multiset(s) - multiset{s[0]}
  {
    hide Leaf, Sunk, Popped;
    var n, h, r, t := |s| - 1, Leaf(s, cmp, 0), Sunk(s, cmp, 0), Popped(s, cmp);
    SunkBag(s, cmp, 0, s[0]);
    assert s[0 := s[0]] == s;
    SunkOutside(s, cmp, 0);
    PoppedAt(s, cmp);
    FilledBag(r, t, h, s[n], s[0]);
  }

  // The last element fills the hole, whose old content is what goes.
  lemma FilledBag<T>(r: seq<T>, t: seq<T>, h: nat, x: T, y: T)
    requires h < |r| && t + [x] == r[h := x]
    ensures multiset(t) == multiset(r[h := y]) - multiset{y}
  {
    UpdateBag(r, h, x);
    UpdateBag(r, h, y);
    assert multiset(t + [x]) == multiset(t) + multiset{x};
  }

  // Popping from a heap: the largest element comes out, the largest one left is at
  // the root, and only the edge above the filled leaf may be wrong.
  lemma PopKeeps<T(!new)>(s: seq<T>, cmp: (T, T) -> int)
    requires Order(cmp) && s != [] && Heap(s, cmp)
    ensures RootMax(s, cmp) && RootMax(Popped(s, cmp), cmp)
    ensures HeapBut(Popped(s, cmp), cmp, Leaf(s, cmp, 0))
  {
    hide Leaf, Sunk, Popped;
    var n, h, r, t := |s| - 1, Leaf(s, cmp, 0), Sunk(s, cmp, 0), Popped(s, cmp);
    SunkHeap(s, cmp, 0);
    SunkOutside(s, cmp, 0);
    PoppedAt(s, cmp);
    forall i | 0 <= i < |s| ensures cmp(s[0], s[i]) >= 0 && cmp(r[0], r[i]) >= 0 {
      HeapRoot(s, cmp, i);
      HeapRoot(r, cmp, i);
    }
    assert n > 0 ==> t[0] == r[0];
    assert r[n] == s[n];
    forall i | 1 <= i < n && i != h ensures cmp(t[Parent(i)], t[i]) >= 0 {
      assert cmp(r[Parent(i)], r[i]) >= 0;
      assert Parent(i) != h;
    }
  }

  // The heap stays one exactly when the last element is not above the leaf at the
  // end of the path of larger children.
  lemma PopHeapExactly<T(!new)>(s: seq<T>, cmp: (T, T) -> int)
    requires Order(cmp) && s != [] && Heap(s, cmp)
    ensures Heap(Popped(s, cmp), cmp) <==> cmp(s[Leaf(s, cmp, 0)], s[|s| - 1]) >= 0
  {
    hide Leaf, Sunk, Popped;
    var n, h, t := |s| - 1, Leaf(s, cmp, 0), Popped(s, cmp);
    PopKeeps(s, cmp);
    PoppedAt(s, cmp);
    assert cmp(s[n], s[n]) >= 0;
  }

  function Difference(a: int, b: int): int {
    a - b
  }

  lemma DifferenceOrder()
    ensures Order(Difference)
  {
  }

  // A heap that a pop breaks.
  lemma PopBreaks()
    ensures var s := [10, 9, 8, 1, 2, 7, 6];
      && Order(Difference) && Heap(s, Difference)
      && Popped(s, Difference) == [9, 2, 8, 1, 6, 7] && !Heap(Popped(s, Difference), Difference)
  {
    hide Leaf, Sunk, Child, Order;
    DifferenceOrder();
    var s := [10, 9, 8, 1, 2, 7, 6];
    var s1 := s[0 := 9];
    var s2 := s1[1 := 2];
    SunkStep(s, Difference, 0);
    SunkStep(s1, Difference, 1);
    SunkStep(s2, Difference, 4);
    var t := [9, 2, 8, 1, 6, 7];
    assert s2[4 := 6][..6] == t;
    assert Difference(t[Parent(4)], t[4]) < 0;
  }

  // ----- The heap in its array -----

  class MaxHeap<T(0)> {
    const cmp: (T, T) -> int
    var n: nat
    var slots: array<T>

    ghost predicate Valid()
      reads this
    {
      n <= slots.Length
    }

    ghost function Contents(): seq<T>
      reads this, slots
      requires Valid()
    {
      slots[..n]
    }

    constructor (size: nat, cmp: (T, T) -> int)
      ensures Valid() && Contents() == [] && slots.Length == size && fresh(slots) && this.cmp == cmp
    {
      this.cmp := cmp;
      n := 0;
      slots := new T[size];
    }

    // One slot in use is overwritten.
    method Set(i: nat, x: T)
      requires Valid() && i < n
      modifies slots
      ensures Contents() == old(Contents())[i := x]
    {
      slots[i] := x;
    }

    // extend_max_heap
    method Extend()
      requires Valid()
      modifies this
      ensures Valid() && Contents() == old(Contents()) && slots.Length == old(slots.Length) + 16 && fresh(slots)
    {
      var wider := new T[slots.Length + 16];
      forall i | 0 <= i < slots.Length {
        wider[i] := slots[i];
      }
      slots := wider;
    }

    // One more slot in use, in a larger array where it has to be; what it holds is
    // not known.
    method Lengthen()
      requires Valid()
      modifies this
      ensures Valid() && n == old(n) + 1 && Contents()[..old(n)] == old(Contents())
      ensures slots == old(slots) || fresh(slots)
    {
      if n >= slots.Length {
        Extend();
      }
      n := n + 1;
      assert slots[..n][..n - 1] == slots[..n - 1];
    }

    method Push(data: T)
      requires Valid()
      modifies this, slots
      ensures Valid() && Contents() == Pushed(old(Contents()), cmp, data)
      ensures slots == old(slots) || fresh(slots)
    {
      hide Lifted;
      var hole := n;
      Lengthen();
      var parent := Parent(hole);
      LiftedStep(Contents(), cmp, hole, data);
      LiftedStep(old(Contents()) + [data], cmp, hole, data);
      assert Contents()[hole := data] == old(Contents()) + [data];
      while hole > 0 && cmp(slots[parent], data) < 1
        invariant hole < n == old(n) + 1 <= slots.Length && parent == Parent(hole)
        invariant slots == old(slots) || fresh(slots)
        invariant Lifted(Contents(), cmp, hole, data) == Pushed(old(Contents()), cmp, data)
      {
        LiftedStep(Contents(), cmp, hole, data);
        Set(hole, slots[parent]);
        hole := parent;
        parent := Parent(hole);
      }
      LiftedStep(Contents(), cmp, hole, data);
      Set(hole, data);
    }

    method Pop() returns (data: Option<T>)
      requires Valid()
      modifies this, slots
      ensures Valid() && slots == old(slots)
      ensures old(Contents()) == [] ==> data == None && Contents() == []
      ensures old(Contents()) != [] ==> data == Some(old(Contents())[0]) && Contents() == Popped(old(Contents()), cmp)
    {
      hide Sunk, Leaf, Child;
      if n > 0 {
        var first := slots[0];
        ghost var s := Contents();
        var hole := 0;
        var child := 2 * (hole + 1);
        while child <= n
          invariant hole < n == old(n) <= slots.Length && child == 2 * (hole + 1) && slots == old(slots)
          invariant Sunk(Contents(), cmp, hole) == Sunk(s, cmp, 0) && Leaf(Contents(), cmp, hole) == Leaf(s, cmp, 0)
          decreases n - hole
        {
          SunkStep(Contents(), cmp, hole);
          if child == n || cmp(slots[child - 1], slots[child]) > 0 {
            child := child - 1;
          }
          Set(hole, slots[child]);
          hole := child;
          child := 2 * (hole + 1);
        }
        SunkStep(Contents(), cmp, hole);
        n := n - 1;
        slots[hole] := slots[n];
        return Some(first);
      }
      return None;
    }
  }

  // One turn of the loop of push.
  lemma LiftedStep<T>(s: seq<T>, cmp: (T, T) -> int, hole: nat, x: T)
    requires hole < |s|
    ensures Lifted(s[hole := x], cmp, hole, x) == Lifted(s, cmp, hole, x)
    ensures Lifted(s, cmp, hole, x) ==
      if hole > 0 && cmp(s[Parent(hole)], x) < 1
      then Lifted(s[hole := s[Parent(hole)]], cmp, Parent(hole), x)
      else s[hole := x]
  {
    assert s[hole := x][hole := s[Parent(hole)]] == s[hole := s[Parent(hole)]];
  }

  // One turn of the loop of pop.
  lemma SunkStep<T>(s: seq<T>, cmp: (T, T) -> int, i: nat)
    requires i < |s|
    ensures 2 * i + 1 >= |s| ==> Sunk(s, cmp, i) == s && Leaf(s, cmp, i) == i
    ensures 2 * i + 1 < |s| ==>
      var c := Child(s, cmp, i);
      && c == (if 2 * i + 2 == |s| || cmp(s[2 * i + 1], s[2 * i + 2]) > 0 then 2 * i + 1 else 2 * i + 2)
      && Sunk(s, cmp, i) == Sunk(s[i := s[c]], cmp, c) && Leaf(s, cmp, i) == Leaf(s[i := s[c]], cmp, c)
  {
    if 2 * i + 1 < |s| {
      var c := Child(s, cmp, i);
      LeafSame(s, s[i := s[c]], cmp, c);
    }
  }
}

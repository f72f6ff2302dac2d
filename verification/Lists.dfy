// The circular intrusive list of src/ez_list.c.

module Lists {
  import opened Sequences

  // A list node with the record it is embedded in. A list head is a node whose
  // record is never looked at.
  class ListHead<T> {
    var next: ListHead?<T>
    var prev: ListHead?<T>
    var entry: T

    // A node before it is put into a list.
    constructor (entry: T)
      ensures this.entry == entry && next == null && prev == null
    {
      this.entry := entry;
      next, prev := null, null;
    }

    // init_list_head
    constructor Init(entry: T)
      ensures this.entry == entry && Ring(this, [])
    {
      this.entry := entry;
      new;
      next, prev := this, this;
    }
  }

  // The element after, or before, position `i` of a cycle.
  ghost function Next<X>(c: seq<X>, i: int): X
    requires 0 <= i < |c|
  {
    if i + 1 < |c| then c[i + 1] else c[0]
  }

  ghost function Previous<X>(c: seq<X>, i: int): X
    requires 0 <= i < |c|
  {
    if i > 0 then c[i - 1] else c[|c| - 1]
  }

  // The nodes of `c` form one cycle in both directions.
  ghost predicate Cycle<T>(c: seq<ListHead<T>>)
    reads c
  {
    && Distinct(c)
    && (forall i :: 0 <= i < |c| ==> c[i].next == Next(c, i))
    && (forall i :: 0 <= i < |c| ==> c[i].prev == Previous(c, i))
  }

  // A well-formed list: the head and, in order, the nodes.
  ghost predicate Ring<T>(head: ListHead<T>, nodes: seq<ListHead<T>>)
    reads head, nodes
  {
    Cycle([head] + nodes)
  }

  method ListIsEmpty<T>(head: ListHead<T>, ghost nodes: seq<ListHead<T>>) returns (empty: bool)
    requires Ring(head, nodes)
    ensures empty <==> nodes == []
  {
    ghost var c := [head] + nodes;
    assert c[0].next == Next(c, 0);
    empty := head.next == head;
    if nodes != [] {
      assert c[0] != c[1];
    }
  }

  lemma InsertedDistinct<X>(c: seq<X>, c': seq<X>, x: X, k: nat)
    requires Distinct(c) && x !in c && k <= |c| && c' == c[..k] + [x] + c[k..]
    ensures Distinct(c') && c'[k] == x
  {
    hide Distinct;
    assert c == c[..k] + c[k..];
    DistinctSplit(c[..k], c[k..]);
    DistinctMiddle(c[..k], x, c[k..]);
  }

  lemma InsertedAt<X>(c: seq<X>, c': seq<X>, x: X, k: nat, j: nat)
    requires k <= |c| && c' == c[..k] + [x] + c[k..] && j < |c'| && j != k
    ensures c'[j] == c[if j < k then j else j - 1]
  {
  }

  lemma Inserted<X>(c: seq<X>, c': seq<X>, x: X, k: nat)
    requires Distinct(c) && x !in c && 1 <= k <= |c| && c' == c[..k] + [x] + c[k..]
    ensures Distinct(c') && c'[k] == x && Next(c', k) == Next(c, k - 1) && Previous(c', k) == c[k - 1]
    ensures forall j :: 0 <= j < |c'| && j != k ==>
      var o := if j < k then j else j - 1;
      && c'[j] == c[o]
      && Next(c', j) == (if j == k - 1 then x else Next(c, o))
      && Previous(c', j) == (if c'[j] == Next(c, k - 1) then x else Previous(c, o))
  {
    InsertedDistinct(c, c', x, k);
    forall j: nat | j < |c'| && j != k ensures c'[j] == c[if j < k then j else j - 1] {
      InsertedAt(c, c', x, k, j);
    }
    assert |c'| == |c| + 1;
  }

  // The pointers of a cycle around a new node at position `k`.
  lemma CycleInserted<T>(c: seq<ListHead<T>>, c': seq<ListHead<T>>, x: ListHead<T>, k: nat)
    requires Distinct(c) && x !in c && 1 <= k <= |c| && c' == c[..k] + [x] + c[k..]
    requires forall j :: 0 <= j < |c| ==> c[j].next == if j == k - 1 then x else Next(c, j)
    requires forall j :: 0 <= j < |c| ==> c[j].prev == if c[j] == Next(c, k - 1) then x else Previous(c, j)
    requires x.next == Next(c, k - 1) && x.prev == c[k - 1]
    ensures Cycle(c')
  {
    hide Next, Previous, Distinct;
    Inserted(c, c', x, k);
    forall j | 0 <= j < |c'| ensures c'[j].next == Next(c', j) && c'[j].prev == Previous(c', j) {
    }
  }

  lemma RingInserted<T>(head: ListHead<T>, nodes: seq<ListHead<T>>, x: ListHead<T>, i: nat)
    requires i <= |nodes| && Distinct([head] + nodes) && x != head && x !in nodes
    requires var c := [head] + nodes;
      forall j :: 0 <= j < |c| ==> c[j].next == if j == i then x else Next(c, j)
    requires var c := [head] + nodes;
      forall j :: 0 <= j < |c| ==> c[j].prev == if c[j] == Next(c, i) then x else Previous(c, j)
    requires x.next == Next([head] + nodes, i) && x.prev == ([head] + nodes)[i]
    ensures Ring(head, nodes[..i] + [x] + nodes[i..])
  {
    hide Next, Previous, Distinct, Cycle;
    var c, c' := [head] + nodes, [head] + (nodes[..i] + [x] + nodes[i..]);
    assert c' == c[..i + 1] + [x] + c[i + 1..];
    CycleInserted(c, c', x, i + 1);
  }

  // __list_add
  method Link<T>(newNode: ListHead<T>, prev: ListHead<T>, next: ListHead<T>)
    requires newNode !in {prev, next}
    modifies newNode, prev, next
    ensures next.prev == newNode && prev.next == newNode && newNode.next == next && newNode.prev == prev
    ensures prev != next ==> prev.prev == old(prev.prev) && next.next == old(next.next)
    ensures newNode.entry == old(newNode.entry) && prev.entry == old(prev.entry) && next.entry == old(next.entry)
  {
    next.prev := newNode;
    newNode.next := next;
    newNode.prev := prev;
    prev.next := newNode;
  }

  // A new node goes after the node at position `i`, where position 0 is the head.
  method ListAdd<T>(newNode: ListHead<T>, pos: ListHead<T>, ghost head: ListHead<T>, ghost nodes: seq<ListHead<T>>, ghost i: nat)
    requires Ring(head, nodes) && newNode != head && newNode !in nodes
    requires i <= |nodes| && pos == ([head] + nodes)[i]
    modifies newNode, head, nodes
    ensures Ring(head, nodes[..i] + [newNode] + nodes[i..])
    ensures newNode.entry == old(newNode.entry) && head.entry == old(head.entry)
    ensures forall m :: m in nodes ==> m.entry == old(m.entry)
  {
    ghost var c := [head] + nodes;
    hide Next, Previous, Distinct;
    InCycle(head, nodes);
    AfterUnique(c, i);
    Link(newNode, pos, pos.next);
    RingInserted(head, nodes, newNode, i);
  }

  // Positions around a link of a cycle.
  lemma AfterUnique<X>(c: seq<X>, i: int)
    requires Distinct(c) && 0 <= i < |c|
    ensures Next(c, i) in c
    ensures forall j :: 0 <= j < |c| ==> (c[j] == Next(c, i) <==> Previous(c, j) == c[i])
    ensures forall j :: 0 <= j < |c| ==> (c[j] == c[i] <==> j == i)
    ensures i > 0 ==> Previous(c, i) == c[i - 1]
    ensures exists j :: 0 <= j < |c| && c[j] == Next(c, i)
  {
  }

  lemma Deleted<X>(c: seq<X>, c': seq<X>, k: nat)
    requires Distinct(c) && 1 <= k < |c| && c' == c[..k] + c[k + 1..]
    ensures Distinct(c')
    ensures forall j :: 0 <= j < |c'| ==>
      var o := if j < k then j else j + 1;
      && c'[j] == c[o] && c[o] != c[k]
      && Next(c', j) == (if o == k - 1 then Next(c, k) else Next(c, o))
      && Previous(c', j) == (if c[o] == Next(c, k) then c[k - 1] else Previous(c, o))
  {
  }

  lemma CycleDeleted<T>(c: seq<ListHead<T>>, c': seq<ListHead<T>>, k: nat)
    requires Distinct(c) && 1 <= k < |c| && c' == c[..k] + c[k + 1..]
    requires forall j :: 0 <= j < |c| && j != k ==> c[j].next == if j == k - 1 then Next(c, k) else Next(c, j)
    requires forall j :: 0 <= j < |c| && j != k ==> c[j].prev == if c[j] == Next(c, k) then c[k - 1] else Previous(c, j)
    ensures Cycle(c')
  {
    hide Next, Previous, Distinct;
    Deleted(c, c', k);
    forall j | 0 <= j < |c'| ensures c'[j].next == Next(c', j) && c'[j].prev == Previous(c', j) {
    }
  }

  lemma RingDeleted<T>(head: ListHead<T>, nodes: seq<ListHead<T>>, i: nat)
    requires i < |nodes| && Distinct([head] + nodes)
    requires var c := [head] + nodes;
      forall j :: 0 <= j < |c| && j != i + 1 ==> c[j].next == if j == i then Next(c, i + 1) else Next(c, j)
    requires var c := [head] + nodes;
      forall j :: 0 <= j < |c| && j != i + 1 ==> c[j].prev == if c[j] == Next(c, i + 1) then c[i] else Previous(c, j)
    ensures Ring(head, nodes[..i] + nodes[i + 1..])
  {
    var c, c' := [head] + nodes, [head] + (nodes[..i] + nodes[i + 1..]);
    assert c' == c[..i + 1] + c[i + 2..];
    CycleDeleted(c, c', i + 1);
  }

  lemma InCycle<T>(head: ListHead<T>, nodes: seq<ListHead<T>>)
    ensures var c := [head] + nodes;
      forall j :: 0 <= j < |c| ==> (if j == 0 then c[j] == head else c[j] == nodes[j - 1] && c[j] in nodes)
  {
  }

  // __list_del
  method Unlink<T>(prev: ListHead<T>, next: ListHead<T>)
    modifies prev, next
    ensures next.prev == prev && prev.next == next
    ensures prev != next ==> prev.prev == old(prev.prev) && next.next == old(next.next)
    ensures prev.entry == old(prev.entry) && next.entry == old(next.entry)
  {
    next.prev := prev;
    prev.next := next;
  }

  // The node at position `i` leaves the list and its own links are cleared.
  method ListDel<T>(entry: ListHead<T>, ghost head: ListHead<T>, ghost nodes: seq<ListHead<T>>, ghost i: nat)
    requires Ring(head, nodes) && i < |nodes| && entry == nodes[i]
    modifies head, nodes
    ensures Ring(head, nodes[..i] + nodes[i + 1..])
    ensures entry.next == null && entry.prev == null
    ensures head.entry == old(head.entry) && forall m :: m in nodes ==> m.entry == old(m.entry)
  {
    ghost var c := [head] + nodes;
    hide Next, Previous, Distinct;
    InCycle(head, nodes);
    AfterUnique(c, i);
    AfterUnique(c, i + 1);
    Unlink(entry.prev, entry.next);
    entry.next := null;
    entry.prev := null;
    RingDeleted(head, nodes, i);
  }

  // Where the walk over a list goes next.
  lemma RingNext<T>(head: ListHead<T>, nodes: seq<ListHead<T>>, i: nat)
    requires Ring(head, nodes) && i <= |nodes|
    ensures head !in nodes && Distinct(nodes)
    ensures ([head] + nodes)[i].next == if i < |nodes| then nodes[i] else head
  {
    var c := [head] + nodes;
    DistinctSplit([head], nodes);
    assert head in [head];
    assert c[i].next == Next(c, i);
  }

  // The node before position `i` of the nodes, or before the head.
  lemma RingPrev<T>(head: ListHead<T>, nodes: seq<ListHead<T>>, i: nat)
    requires Ring(head, nodes) && i <= |nodes|
    ensures (if i < |nodes| then nodes[i] else head).prev == ([head] + nodes)[i]
  {
    var c := [head] + nodes;
    var j := if i < |nodes| then i + 1 else 0;
    assert c[j].prev == Previous(c, j);
  }

  // ----- Walking over a list -----

  datatype EachResult = BreakEach | ContinueEach

  // What the procedure called with a node does: it may take this very node out of
  // the list, and it says whether the walk goes on.
  datatype Visit = Visit(delete: bool, result: EachResult)

  // How many nodes are visited, from the one with number `k` on.
  ghost function Visits(n: nat, k: nat, func: nat -> Visit): (m: nat)
    requires k <= n
    ensures k <= m <= n
    decreases n - k
  {
    if k == n then n else if func(k).result == BreakEach then k + 1 else Visits(n, k + 1, func)
  }

  // The visited nodes that stay.
  ghost function Staying<X>(s: seq<X>, k: nat, func: nat -> Visit): seq<X>
    requires k <= |s|
  {
    if k == 0 then [] else Staying(s, k - 1, func) + if func(k - 1).delete then [] else [s[k - 1]]
  }

  // One turn of the walk: the next node is read before the procedure is called.
  method VisitOne<T>(i: ListHead<T>, delete: bool, ghost head: ListHead<T>,
                     ghost a: seq<ListHead<T>>, ghost b: seq<ListHead<T>>, ghost all: set<ListHead<T>>)
    returns (next: ListHead<T>)
    requires Ring(head, a + [i] + b) && forall x :: x in a + [i] + b ==> x in all
    modifies head, all
    ensures Ring(head, a + (if delete then [] else [i]) + b)
    ensures next == (if b == [] then head else b[0]) && (b != [] ==> next != head)
  {
    ghost var s := a + [i] + b;
    assert s[|a|] == i && s[..|a|] == a && s[|a| + 1..] == b;
    NextOf(head, a, i, b);
    next := i.next;
    if delete {
      assert forall j :: 0 <= j < |s| ==> s[j] in s;
      ListDel(i, head, s, |a|);
      assert a + [] + b == s[..|a|] + s[|a| + 1..];
    }
  }

  lemma {:induction false} StayingIn<X>(s: seq<X>, k: nat, func: nat -> Visit)
    requires k <= |s|
    ensures forall x :: x in Staying(s, k, func) ==> x in s
  {
    if k > 0 {
      StayingIn(s, k - 1, func);
    }
  }

  // How far the walk is: the nodes visited, those of them that stayed, the others.
  ghost predicate Walked<X>(s: seq<X>, func: nat -> Visit, visited: seq<X>, stay: seq<X>, rest: seq<X>) {
    && visited + rest == s && stay == Staying(s, |visited|, func)
    && Visits(|s|, 0, func) == Visits(|s|, |visited|, func)
  }

  lemma WalkStart<X>(s: seq<X>, func: nat -> Visit)
    ensures Walked(s, func, [], [], s) && [] + s == s
  {
  }

  lemma WalkStep<X>(s: seq<X>, func: nat -> Visit, visited: seq<X>, stay: seq<X>, rest: seq<X>)
    requires Walked(s, func, visited, stay, rest) && rest != []
    ensures var k, x, b := |visited|, rest[0], rest[1..];
      var stay' := stay + if func(k).delete then [] else [x];
      && stay + rest == stay + [x] + b && (forall y :: y in stay + [x] + b ==> y in s)
      && (func(k).result == ContinueEach ==> Walked(s, func, visited + [x], stay', b))
      && (func(k).result == BreakEach ==> WalkOver(s, func, visited + [x], stay', b))
  {
    var k, x, b := |visited|, rest[0], rest[1..];
    assert s[k] == x && s[k..] == rest && s[..k + 1] == visited + [x] && s[k + 1..] == b;
    StayingIn(s, k, func);
    assert visited + [x] + b == s;
  }

  // What the walk leaves behind.
  ghost predicate WalkOver<X>(s: seq<X>, func: nat -> Visit, visited: seq<X>, stay: seq<X>, rest: seq<X>) {
    && visited == s[..Visits(|s|, 0, func)]
    && stay == Staying(s, |visited|, func) && rest == s[|visited|..]
  }

  lemma WalkEnd<X>(s: seq<X>, func: nat -> Visit, visited: seq<X>, stay: seq<X>)
    requires Walked(s, func, visited, stay, [])
    ensures WalkOver(s, func, visited, stay, [])
  {
    assert visited + [] == visited;
  }

  // list_foreach2: every node up to the one that ends the walk is visited once, in
  // order, although visited nodes may leave the list.
  method ListForEach2<T>(head: ListHead<T>, func: nat -> Visit, ghost nodes: seq<ListHead<T>>) returns (visited: seq<ListHead<T>>)
    requires Ring(head, nodes)
    modifies head, nodes
    ensures visited == nodes[..Visits(|nodes|, 0, func)]
    ensures Ring(head, Staying(nodes, |visited|, func) + nodes[|visited|..])
  {
    hide Ring, Walked;
    visited := [];
    ghost var stay: seq<ListHead<T>>, rest, all := [], nodes, set n | n in nodes;
    WalkStart(nodes, func);
    RingNext(head, nodes, 0);
    var i: ListHead<T> := head.next;
    while i != head
      invariant Walked(nodes, func, visited, stay, rest) && Ring(head, stay + rest)
      invariant i == (if rest == [] then head else rest[0]) && (rest != [] ==> i != head)
      decreases |rest|
    {
      WalkStep(nodes, func, visited, stay, rest);
      var answer := func(|visited|);
      visited := visited + [i];
      ghost var more := if answer.delete then [] else [i];
      i := VisitOne(i, answer.delete, head, stay, rest[1..], all);
      stay, rest := stay + more, rest[1..];
      if answer.result == BreakEach {
        return;
      }
    }
    WalkEnd(nodes, func, visited, stay);
  }

  lemma NextOf<T>(head: ListHead<T>, a: seq<ListHead<T>>, t: ListHead<T>, b: seq<ListHead<T>>)
    requires Ring(head, a + [t] + b)
    ensures t.next == (if b == [] then head else b[0]) && (b != [] ==> b[0] != head)
  {
    var s := a + [t] + b;
    RingNext(head, s, |a| + 1);
    assert ([head] + s)[|a| + 1] == t;
    if b != [] {
      assert s[|a| + 1] == b[0];
    }
  }
}

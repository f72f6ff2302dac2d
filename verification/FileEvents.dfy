// The file events of src/ez_event.c: a tree of registered descriptors, a list of
// free nodes, a counter and the kernel's interest map, which have to agree.

module FileEvents {
  import opened Epoll
  import opened RbNodes
  import opened RbModel
  import opened RbTrees
  import opened Sequences

  ghost function Records(s: set<Node>): set<Record> {
    set n | n in s :: n.record
  }

  ghost predicate OwnRecords(s: set<Node>) {
    forall m, n :: m in s && n in s && m.record == n.record ==> m == n
  }

  // The free nodes hang together by their parent links.
  ghost predicate Chain(top: Node?, s: seq<Node>)
    reads s
  {
    if s == [] then top == null else top == s[0] && Chain(s[0].parent, s[1..])
  }

  // The interest map for these masks, with the private descriptor if it is armed.
  ghost function Watched(masks: map<int, bv32>, evfd: int, armed: bool): map<int, bv32> {
    (map fd | fd in masks :: Events(masks[fd])) + if armed then map[evfd := EPOLLIN] else map[]
  }

  // The free nodes, the nodes of the tree and the sentinel are different ones.
  ghost predicate Separated(nodes: set<Node>, free: seq<Node>, sentinel: Node) {
    && OwnRecords(nodes + set n | n in free)
    && Distinct(free) && (forall n :: n in free ==> n !in nodes)
    && sentinel !in nodes && sentinel !in free
  }

  lemma Apart(nodes: set<Node>, free: seq<Node>, sentinel: Node)
    requires Separated(nodes, free, sentinel)
    ensures Distinct(free) && (forall n :: n in free ==> n !in nodes) && sentinel !in nodes && sentinel !in free
    ensures Records(nodes) !! Records(set n | n in free)
  {
  }

  lemma EmptyAgrees(sentinel: Node, evfd: int)
    ensures RedBlack(Leaf) && Sorted([]) && Separated({}, [], sentinel) && Chain(null, [])
    ensures Registered({}, map[], map[]) && Watched(map[], evfd, false) == map[]
  {
  }

  // A node from the free list, or a new one.
  lemma SeparatedTake(nodes: set<Node>, free: seq<Node>, sentinel: Node, fe: Node)
    requires Separated(nodes, free, sentinel)
    requires if free == [] then fe !in nodes + {sentinel} && fe.record !in Records(nodes) else fe == free[0]
    ensures var rest := if free == [] then [] else free[1..];
      Separated(nodes, rest, sentinel) && Separated(nodes + {fe}, rest, sentinel)
    ensures fe !in nodes
  {
    var rest := if free == [] then [] else free[1..];
    assert forall n :: n in rest ==> n in free;
    assert forall n :: n in nodes ==> n.record in Records(nodes);
    if free != [] {
      assert fe !in rest;
    }
  }

  // A node of the tree goes on the free list.
  lemma SeparatedPut(nodes: set<Node>, free: seq<Node>, sentinel: Node, fe: Node)
    requires Separated(nodes, free, sentinel) && fe in nodes
    ensures Separated(nodes - {fe}, [fe] + free, sentinel) && fe !in free
  {
  }

  // Arming and disarming the private descriptor.
  lemma WatchedArm(masks: map<int, bv32>, evfd: int, armed: bool)
    requires evfd !in masks
    ensures evfd in Watched(masks, evfd, armed) <==> armed
    ensures Watched(masks, evfd, false)[evfd := Events(Union(AE_READABLE, AE_NONE))] == Watched(masks, evfd, true)
    ensures Watched(masks, evfd, true) - {evfd} == Watched(masks, evfd, false)
    ensures Minus(AE_READABLE, AE_READABLE) == AE_NONE
  {
    assert Events(Union(AE_READABLE, AE_NONE)) == EPOLLIN;
  }

  // The tree holds one node for each registered descriptor, with its mask.
  ghost predicate Registered(nodes: set<Node>, masks: map<int, bv32>, at: map<int, Node>)
    reads set n | n in nodes :: n.record
  {
    && masks.Keys == at.Keys
    && (forall n :: n in nodes ==> n.record.key in at && at[n.record.key] == n)
    && (forall fd :: fd in at ==>
      && at[fd] in nodes && at[fd].record.key == fd
      && at[fd].record.mask == masks[fd] && masks[fd] != AE_NONE)
  }

  // The interest map keeps up with a changed mask.
  lemma WatchedSet(masks: map<int, bv32>, evfd: int, armed: bool, fd: int, mask: bv32)
    requires fd != evfd
    ensures Watched(masks, evfd, armed)[fd := Events(mask)] == Watched(masks[fd := mask], evfd, armed)
    ensures fd in Watched(masks, evfd, armed) <==> fd in masks
  {
    hide Events;
  }

  lemma WatchedRemove(masks: map<int, bv32>, evfd: int, armed: bool, fd: int)
    requires fd != evfd
    ensures Watched(masks, evfd, armed) - {fd} == Watched(masks - {fd}, evfd, armed)
  {
  }

  lemma RegisteredMore(nodes: set<Node>, masks: map<int, bv32>, at: map<int, Node>, fe: Node, fd: int, mask: bv32)
    requires Registered(nodes, masks, at) && fe !in nodes && fd !in masks
    requires fe.record.key == fd && fe.record.mask == mask && mask != AE_NONE
    ensures Registered(nodes + {fe}, masks[fd := mask], at[fd := fe])
  {
  }

  lemma RegisteredAt(nodes: set<Node>, masks: map<int, bv32>, at: map<int, Node>, fd: int)
    requires Registered(nodes, masks, at) && fd in masks
    ensures fd in at && at[fd] in nodes && at[fd].record.mask == masks[fd] != AE_NONE
  {
  }

  datatype Request = Create(fd: int, mask: bv32, refused: bool) | Remove(fd: int, mask: bv32)

  // What is registered after a request, in terms of what was.
  ghost function Answer(masks: map<int, bv32>, r: Request, setsize: int): map<int, bv32> {
    match r
    case Create(fd, mask, refused) =>
      if mask == AE_NONE || refused || (fd !in masks && |masks| >= setsize) then masks
      else masks[fd := Union(if fd in masks then masks[fd] else AE_NONE, mask)]
    case Remove(fd, mask) =>
      if fd >= setsize || fd !in masks then masks
      else if Minus(masks[fd], mask) == AE_NONE then masks - {fd}
      else masks[fd := Minus(masks[fd], mask)]
  }

  ghost function Served(masks: map<int, bv32>, requests: seq<Request>, setsize: int): map<int, bv32> {
    if requests == [] then masks
    else Answer(Served(masks, requests[..|requests| - 1], setsize), requests[|requests| - 1], setsize)
  }

  // One event of one descriptor.
  ghost predicate Waits(masks: map<int, bv32>, fd: int, n: bv32)
    requires n < 32
  {
    fd in masks && Has(masks[fd], n)
  }

  // A request gives or takes the events in its mask and no others.
  lemma AnswerEvent(masks: map<int, bv32>, r: Request, setsize: int, fd: int, n: bv32)
    requires n < 32
    ensures Waits(Answer(masks, r, setsize), fd, n) <==>
      var meant := r.fd == fd && Has(r.mask, n);
      match r
      case Create(_, _, refused) => Waits(masks, fd, n) || (meant && !refused && (fd in masks || |masks| < setsize))
      case Remove(_, _) => Waits(masks, fd, n) && !(meant && fd < setsize)
  {
    hide Has, Union, Minus;
    var mask := if fd in masks then masks[fd] else AE_NONE;
    NoneHas(n);
    UnionHas(mask, r.mask, n);
    MinusHas(mask, r.mask, n);
  }

  // Requests about other descriptors and other events leave an event alone.
  lemma {:induction false} EventStays(masks: map<int, bv32>, requests: seq<Request>, setsize: int, fd: int, n: bv32)
    requires n < 32
    requires forall i :: 0 <= i < |requests| ==> requests[i].fd != fd || !Has(requests[i].mask, n)
    ensures Waits(Served(masks, requests, setsize), fd, n) <==> Waits(masks, fd, n)
  {
    hide Waits, Has, Answer;
    if requests != [] {
      var front := requests[..|requests| - 1];
      EventStays(masks, front, setsize, fd, n);
      AnswerEvent(Served(masks, front, setsize), requests[|requests| - 1], setsize, fd, n);
    }
  }

  // A descriptor from `setsize` on that is registered stays so for ever, and no
  // request takes one of its events away.
  lemma {:induction false} ServedForEver(masks: map<int, bv32>, requests: seq<Request>, setsize: int, fd: int)
    requires fd in masks && fd >= setsize
    ensures var after := Served(masks, requests, setsize);
      fd in after && Minus(masks[fd], after[fd]) == AE_NONE
  {
    hide Union, Minus;
    if requests == [] {
      MinusSelf(masks[fd]);
    } else {
      var n := |requests| - 1;
      ServedForEver(masks, requests[..n], setsize, fd);
      var m := Served(masks, requests[..n], setsize)[fd];
      if requests[n].Create? {
        MinusUnion(masks[fd], m, requests[n].mask);
      }
    }
  }

  class Registry {
    const tree: RbTree
    const epoll: Instance
    const evfd: int
    const setsize: int
    var freeEvents: Node?
    var count: int
    ghost var armed: bool
    ghost var free: seq<Node>
    ghost var masks: map<int, bv32>  // what is registered
    ghost var at: map<int, Node>     // the node of each registered descriptor

    ghost predicate Counted()
      reads this, tree
    {
      && count == |tree.order| == |masks|
      && (count + |free| == 0 || count + |free| <= setsize)
    }

    ghost predicate Valid()
      reads this, tree, tree.sentinel, tree.nodes, Records(tree.nodes), set n | n in tree.order :: n.record
      reads free, epoll
    {
      && tree.Valid() && Separated(tree.nodes, free, tree.sentinel) && Chain(freeEvents, free)
      && Registered(tree.nodes, masks, at) && Counted()
      && evfd !in masks && epoll.interest == Watched(masks, evfd, armed)
    }

    // The file part of ez_create_event_loop.
    constructor (setsize: int, evfd: int)
      ensures Valid() && masks == map[] && free == [] && !armed && epoll.misuses == 0
      ensures this.setsize == setsize && this.evfd == evfd
      ensures fresh(tree) && fresh(tree.sentinel) && fresh(epoll) && tree.nodes == {}
    {
      hide RbTree.Linked, RedBlack, Sorted, Separated, Chain, Registered, Watched, Distinct;
      var record := new Record();
      var sentinel := new Node(record);
      tree := new RbTree(sentinel);
      epoll := new Instance();
      this.evfd, this.setsize := evfd, setsize;
      freeEvents, count := null, 0;
      armed, free, masks, at := false, [], map[], map[];
      new;
      tree.LookOrder();
      EmptyAgrees(tree.sentinel, evfd);
      assert tree.nodes == {};
    }

    // Comparing a key with the descriptor searched for.
    static function FindProc(fd: int): int -> int {
      key => if key == fd then 0 else if key > fd then 1 else -1
    }

    // ez_fund_file_event
    method FindFileEvent(fd: int) returns (fe: Node?)
      requires Valid()
      ensures if fd in masks then fe == at[fd] && fe in tree.nodes else fe == null
    {
      hide RedBlack, Sorted, Separated, Chain, Counted, Watched;
      ghost var steps;
      fe, steps := tree.FindNode(FindProc(fd));
    }

    // put_to_free_file_events
    method PutToFree(e: Node)
      requires Chain(freeEvents, free) && e !in free
      modifies this, e
      ensures Chain(freeEvents, free) && free == [e] + old(free)
      ensures count == old(count) && armed == old(armed) && masks == old(masks) && at == old(at)
      ensures e.left == old(e.left) && e.right == old(e.right) && e.red == old(e.red)
    {
      ghost var s := free;
      free := [e] + free;
      e.parent := freeEvents;
      freeEvents := e;
      assert free[1..] == s;
    }

    // A node for a new descriptor: the first free one, wiped, or a new one.
    method Take(fd: int, mask: bv32) returns (fe: Node)
      requires Chain(freeEvents, free) && Distinct(free)
      modifies this, free, Records(set n | n in free)
      ensures Chain(freeEvents, free)
      ensures if old(free) == []
        then fresh(fe) && fresh(fe.record) && free == []
        else fe == old(free)[0] && free == old(free)[1..]
      ensures fe.record.key == fd && fe.record.mask == mask
      ensures count == old(count) && armed == old(armed) && masks == old(masks) && at == old(at)
    {
      if freeEvents != null {
        fe := freeEvents;
        free := free[1..];
        freeEvents := fe.parent;
        fe.left, fe.right, fe.parent, fe.red := null, null, null, false;
      } else {
        var record := new Record();
        fe := new Node(record);
      }
      fe.record.key := fd;
      fe.record.mask := mask;
    }

    // A node that holds a new descriptor and its mask joins the tree.
    method Register(fe: Node, ghost fd: int, ghost mask: bv32)
      requires tree.Valid() && Separated(tree.nodes, free, tree.sentinel) && Chain(freeEvents, free)
      requires Registered(tree.nodes, masks, at) && Counted()
      requires Separated(tree.nodes + {fe}, free, tree.sentinel) && fe !in tree.nodes && count + |free| < setsize
      requires fe.record.key == fd && fe.record.mask == mask && fd !in masks && mask != AE_NONE
      modifies this, tree, tree.nodes, fe
      ensures tree.Valid() && Separated(tree.nodes, free, tree.sentinel) && Chain(freeEvents, free)
      ensures Registered(tree.nodes, masks, at) && Counted()
      ensures masks == old(masks)[fd := mask] && at == old(at)[fd := fe] && tree.nodes == old(tree.nodes) + {fe}
      ensures freeEvents == old(freeEvents) && free == old(free) && armed == old(armed)
    {
      hide RbTree.Linked, RedBlack, Sorted, Chain, Spliced, Separated, Registered;
      Apart(tree.nodes + {fe}, free, tree.sentinel);
      RegisteredMore(tree.nodes, masks, at, fe, fd, mask);
      masks, at := masks[fd := mask], at[fd := fe];
      count := count + 1;
      tree.Insert(fe);
      SplicedLonger(old(tree.order), tree.order, fe);
    }

    // The mask in the record of a registered descriptor changes. With an empty
    // mask the node is about to leave.
    method SetMask(fe: Node, mask: bv32, ghost fd: int)
      requires tree.Valid() && Separated(tree.nodes, free, tree.sentinel) && Registered(tree.nodes, masks, at)
      requires fd in masks && fe == at[fd]
      modifies this, fe.record
      ensures tree.Valid() && fe.record.mask == mask
      ensures mask != AE_NONE ==> masks == old(masks)[fd := mask] && Registered(tree.nodes, masks, at)
      ensures mask == AE_NONE ==> masks == old(masks) && Registered(tree.nodes - {fe}, masks - {fd}, at - {fd})
      ensures freeEvents == old(freeEvents) && free == old(free) && armed == old(armed)
      ensures count == old(count) && at == old(at)
    {
      hide RbTree.Linked, RedBlack;
      if mask != AE_NONE {
        masks := masks[fd := mask];
      }
      fe.record.mask := mask;
    }

    // ez_create_file_event for an unknown descriptor.
    method CreateNew(fd: int, mask: bv32, refused: bool) returns (rc: int)
      requires Valid() && fd != evfd && fd !in masks && mask != AE_NONE
      modifies this, tree, tree.nodes, free, Records(set n | n in free), epoll
      ensures Valid() && epoll.misuses == old(epoll.misuses) && armed == old(armed)
      ensures rc == if !refused && old(count) < setsize then AE_OK else AE_ERR
      ensures masks == if rc == AE_ERR then old(masks) else old(masks)[fd := mask]
      ensures free == if old(count) < setsize && old(free) != [] then old(free)[1..] else old(free)
      ensures rc == AE_ERR ==> at == old(at)
      ensures rc == AE_OK ==>
        && fd in at && at == old(at)[fd := at[fd]]
        && if old(free) == [] then fresh(at[fd]) && fresh(at[fd].record) else at[fd] == old(free)[0]
      ensures tree.nodes == if rc == AE_OK then old(tree.nodes) + {at[fd]} else old(tree.nodes)
    {
      hide RbTree.Linked, RedBlack, Sorted, Chain, Separated, Registered, Watched, Union, Events;
      if count >= setsize {
        return AE_ERR;
      }
      Apart(tree.nodes, free, tree.sentinel);
      tree.LookOrder();
      WatchedSet(masks, evfd, armed, fd, mask);
      var fe := Take(fd, mask);
      SeparatedTake(tree.nodes, old(free), tree.sentinel, fe);
      UnionLaws(mask, AE_NONE);
      var added := epoll.AddEvent(fd, mask, AE_NONE, refused);
      if added == -1 {
        return AE_ERR;
      }
      Register(fe, fd, mask);
      return AE_OK;
    }

    // ez_create_file_event for a descriptor that is registered already.
    method Extend(fe: Node, fd: int, mask: bv32, refused: bool) returns (rc: int)
      requires Valid() && fd in masks && fe == at[fd]
      modifies this, fe.record, epoll
      ensures Valid() && epoll.misuses == old(epoll.misuses) && armed == old(armed)
      ensures rc == if refused then AE_ERR else AE_OK
      ensures masks == if rc == AE_ERR then old(masks) else old(masks)[fd := Union(old(masks)[fd], mask)]
      ensures free == old(free) && at == old(at)
    {
      hide RbTree.Linked, RedBlack, Sorted, Chain, Separated, Registered, Watched, Union, Events;
      RegisteredAt(tree.nodes, masks, at, fd);
      var oldMask := fe.record.mask;
      UnionLaws(oldMask, mask);
      WatchedSet(masks, evfd, armed, fd, Union(oldMask, mask));
      var added := epoll.AddEvent(fd, mask, oldMask, refused);
      if added == -1 {
        return AE_ERR;
      }
      SetMask(fe, Union(fe.record.mask, mask), fd);
      return AE_OK;
    }

    // ez_create_file_event; `refused` is what epoll_ctl makes of it.
    method CreateFileEvent(fd: int, mask: bv32, refused: bool) returns (rc: int)
      requires Valid() && fd != evfd
      modifies this, tree, tree.nodes, free, Records(tree.nodes), Records(set n | n in free), epoll
      ensures Valid() && epoll.misuses == old(epoll.misuses) && armed == old(armed)
      ensures rc == if mask != AE_NONE && !refused && (fd in old(masks) || old(count) < setsize) then AE_OK else AE_ERR
      ensures rc == AE_ERR ==> masks == old(masks) && at == old(at)
      ensures rc == AE_OK ==> masks == old(masks)[fd := Union(if fd in old(masks) then old(masks)[fd] else AE_NONE, mask)]
      ensures rc == AE_OK && fd in old(masks) ==> at == old(at)
      ensures rc == AE_OK && fd !in old(masks) ==>
        && fd in at && at == old(at)[fd := at[fd]]
        && if old(free) == [] then fresh(at[fd]) && fresh(at[fd].record) else at[fd] == old(free)[0]
      ensures tree.nodes == if rc == AE_OK && fd !in old(masks) then old(tree.nodes) + {at[fd]} else old(tree.nodes)
      ensures free ==
        if mask != AE_NONE && fd !in old(masks) && old(count) < setsize && old(free) != [] then old(free)[1..] else old(free)
    {
      hide Valid, Union;
      if mask == AE_NONE {
        return AE_ERR;
      }
      var fe := FindFileEvent(fd);
      if fe == null {
        UnionLaws(mask, AE_NONE);
        rc := CreateNew(fd, mask, refused);
      } else {
        rc := Extend(fe, fd, mask, refused);
      }
    }

    // A node whose mask has become empty leaves the tree for the free list.
    method Unregister(fe: Node, ghost fd: int)
      requires tree.Valid() && Separated(tree.nodes, free, tree.sentinel) && Chain(freeEvents, free) && Counted()
      requires fd in at && fe == at[fd] && fe in tree.nodes
      requires Registered(tree.nodes - {fe}, masks - {fd}, at - {fd}) && fd in masks
      modifies this, tree, tree.nodes, tree.sentinel
      ensures tree.Valid() && Separated(tree.nodes, free, tree.sentinel) && Chain(freeEvents, free) && Counted()
      ensures Registered(tree.nodes, masks, at)
      ensures masks == old(masks) - {fd} && at == old(at) - {fd} && free == [fe] + old(free) && armed == old(armed)
      ensures tree.nodes == old(tree.nodes) - {fe}
    {
      hide RbTree.Linked, RedBlack, Sorted, Chain, Separated, Registered, Removed;
      Apart(tree.nodes, free, tree.sentinel);
      SeparatedPut(tree.nodes, free, tree.sentinel, fe);
      masks, at := masks - {fd}, at - {fd};
      tree.Delete(fe);
      RemovedShorter(old(tree.order), tree.order, fe);
      count := count - 1;
      PutToFree(fe);
    }

    // ez_delete_file_event: descriptors from `setsize` on are passed over.
    method DeleteFileEvent(fd: int, mask: bv32)
      requires Valid()
      modifies this, tree, tree.nodes, tree.sentinel, Records(tree.nodes), epoll
      ensures Valid() && epoll.misuses == old(epoll.misuses) && armed == old(armed)
      ensures fd >= setsize || fd !in old(masks) ==>
        masks == old(masks) && at == old(at) && free == old(free)
      ensures fd < setsize && fd in old(masks) && Minus(old(masks)[fd], mask) != AE_NONE ==>
        masks == old(masks)[fd := Minus(old(masks)[fd], mask)] && at == old(at) && free == old(free)
      ensures fd < setsize && fd in old(masks) && Minus(old(masks)[fd], mask) == AE_NONE ==>
        && masks == old(masks) - {fd} && at == old(at) - {fd} && free == [old(at)[fd]] + old(free)
        && old(at)[fd] in old(tree.nodes)
      ensures tree.nodes <= old(tree.nodes)
    {
      hide RbTree.Linked, RedBlack, Sorted, Chain, Separated, Registered, Watched, Minus, Events;
      if fd >= setsize {
        return;
      }
      var fe := FindFileEvent(fd);
      if fe == null || fe.record.mask == AE_NONE {
        if fe != null {
          RegisteredAt(tree.nodes, masks, at, fd);
          assert false;  // no mask in the tree is empty
        }
        return;
      }
      RegisteredAt(tree.nodes, masks, at, fd);
      ghost var left := Minus(masks[fd], mask);
      WatchedSet(masks, evfd, armed, fd, left);
      WatchedRemove(masks, evfd, armed, fd);
      epoll.DelEvent(fd, mask, fe.record.mask);
      SetMask(fe, Minus(fe.record.mask, mask), fd);
      if fe.record.mask == AE_NONE {
        Unregister(fe, fd);
      }
    }

    method ServeOne(r: Request)
      requires Valid() && r.fd != evfd
      modifies this, tree, tree.sentinel, tree.nodes, free, Records(tree.nodes), Records(set n | n in free), epoll
      ensures Valid() && epoll.misuses == old(epoll.misuses) && armed == old(armed)
      ensures masks == Answer(old(masks), r, setsize)
      ensures forall n :: n in tree.nodes || n in free ==>
        n in old(tree.nodes) || n in old(free) || (fresh(n) && fresh(n.record))
    {
      hide Valid, Union, Minus;
      LookCount();
      match r
      case Create(fd, mask, refused) => var _ := CreateFileEvent(fd, mask, refused);
      case Remove(fd, mask) => DeleteFileEvent(fd, mask);
    }

    // One request after the other. Whatever they are and whatever the kernel
    // refuses, the structures agree afterwards and no call was misissued.
    method Serve(requests: seq<Request>)
      requires Valid() && forall i :: 0 <= i < |requests| ==> requests[i].fd != evfd
      modifies this, tree, tree.sentinel, tree.nodes, free, Records(tree.nodes), Records(set n | n in free), epoll
      ensures Valid() && epoll.misuses == old(epoll.misuses) && armed == old(armed)
      ensures masks == Served(old(masks), requests, setsize)
      ensures forall n :: n in tree.nodes || n in free ==>
        n in old(tree.nodes) || n in old(free) || (fresh(n) && fresh(n.record))
    {
      hide Valid, Answer;
      assert requests[..|requests|] == requests;
      for i := 0 to |requests|
        invariant Valid() && epoll.misuses == old(epoll.misuses) && armed == old(armed)
        invariant masks == Served(old(masks), requests[..i], setsize)
        invariant forall n :: n in tree.nodes || n in free ==>
          n in old(tree.nodes) || n in old(free) || (fresh(n) && fresh(n.record))
      {
        assert requests[..i + 1][..i] == requests[..i];
        ServeOne(requests[i]);
      }
    }

    lemma LookInterest(fd: int)
      requires Valid() && fd in masks
      ensures fd in epoll.interest && epoll.interest[fd] == Events(masks[fd])
    {
    }

    lemma LookCount()
      requires Valid()
      ensures count == |masks| == |tree.order|
    {
    }

    // ezApiBeforePoll; its answer is not looked at.
    method BeforePoll(refused: bool)
      requires Valid()
      modifies this, epoll
      ensures Valid() && armed == (old(armed) || !refused)
      ensures epoll.misuses == old(epoll.misuses) + if old(armed) then 1 else 0
      ensures masks == old(masks) && at == old(at) && free == old(free)
    {
      hide RbTree.Linked, RedBlack, Sorted, Chain, Separated, Registered, Watched, Events;
      WatchedArm(masks, evfd, armed);
      armed := armed || !refused;
      var _ := epoll.AddEvent(evfd, AE_READABLE, AE_NONE, refused);
    }

    // ezApiAfterPoll
    method AfterPoll()
      requires Valid()
      modifies this, epoll
      ensures Valid() && !armed
      ensures epoll.misuses == old(epoll.misuses) + if old(armed) then 0 else 1
      ensures masks == old(masks) && at == old(at) && free == old(free)
    {
      hide RbTree.Linked, RedBlack, Sorted, Chain, Separated, Registered, Watched, Events;
      WatchedArm(masks, evfd, armed);
      armed := false;
      epoll.DelEvent(evfd, AE_READABLE, AE_READABLE);
    }

    // The part of ez_delete_event_loop that frees the file events: every node once.
    method DeleteFileEvents() returns (freed: seq<Node>)
      requires Valid()
      modifies tree, tree.nodes, tree.sentinel
      ensures freed == old(free) + old(tree.order) && Distinct(freed) && tree.order == []
    {
      hide RbTree.Linked, RedBlack, Sorted, Registered, Watched, Distinct;
      tree.LookOrder();
      DistinctSplit(free, tree.order);
      freed := [];
      var i := freeEvents;
      ghost var rest := free;
      while i != null
        invariant free == freed + rest && Chain(i, rest)
        decreases |rest|
      {
        freed := freed + [i];
        i := i.parent;
        rest := rest[1..];
      }
      var drained := tree.Drain();
      freed := freed + drained;
    }
  }

  lemma SplicedLonger(s: seq<Node>, s': seq<Node>, n: Node)
    requires Spliced(s, s', n)
    ensures |s'| == |s| + 1
  {
  }

  lemma RemovedShorter(s: seq<Node>, s': seq<Node>, n: Node)
    requires Removed(s, s', n)
    ensures |s'| == |s| - 1
  {
  }

  // A descriptor that is created and cannot be deleted.
  method CreateBeyondBound(evfd: int) returns (registry: Registry)
    requires evfd != 1
    ensures registry.Valid() && registry.setsize == 1 && registry.masks == map[1 := AE_READABLE]
  {
    hide Registry.Valid;
    registry := new Registry(1, evfd);
    registry.LookCount();
    var rc := registry.CreateFileEvent(1, AE_READABLE, false);
    assert rc == AE_OK;
    UnionLaws(AE_READABLE, AE_NONE);
    registry.DeleteFileEvent(1, AE_READABLE);
  }

  // Reading and writing created on a descriptor, and one of them removed again: the
  // other one is what stays, here and in the kernel.
  method CreateTwoRemoveOne(registry: Registry, fd: int, removed: bv32)
    requires registry.Valid() && fd < registry.setsize && fd != registry.evfd && fd !in registry.masks
    requires |registry.masks| < registry.setsize && removed in {1, 2}
    modifies registry, registry.tree, registry.tree.sentinel, registry.tree.nodes, registry.free
    modifies Records(registry.tree.nodes), Records(set n | n in registry.free), registry.epoll
    ensures registry.Valid() && registry.masks == old(registry.masks)[fd := if removed == 1 then 2 else 1]
    ensures fd in registry.epoll.interest && registry.epoll.interest[fd] == if removed == 1 then 4 else 1
    ensures registry.epoll.misuses == old(registry.epoll.misuses)
  {
    hide Registry.Valid, Served;
    ghost var masks, setsize := registry.masks, registry.setsize;
    var requests := [Create(fd, 1, false), Create(fd, 2, false), Remove(fd, removed)];
    ServedTwoOne(masks, setsize, fd, removed);
    registry.Serve(requests);
    registry.LookInterest(fd);
  }

  lemma ServedTwoOne(masks: map<int, bv32>, setsize: int, fd: int, removed: bv32)
    requires fd < setsize && fd !in masks && |masks| < setsize && removed in {1, 2}
    ensures Served(masks, [Create(fd, 1, false), Create(fd, 2, false), Remove(fd, removed)], setsize) ==
      masks[fd := if removed == 1 then 2 else 1]
    ensures Events(1) == 1 && Events(2) == 4
  {
    hide Served, Union, Minus;
    var a, b, c := Create(fd, 1, false), Create(fd, 2, false), Remove(fd, removed);
    ServedMore(masks, [], a, setsize);
    ServedMore(masks, [a], b, setsize);
    ServedMore(masks, [a, b], c, setsize);
    assert [] + [a] == [a] && [a] + [b] == [a, b] && [a, b] + [c] == [a, b, c];
    assert Union(AE_NONE, 1) == 1 && Union(1, 2) == 3 && Minus(3, 1) == 2 && Minus(3, 2) == 1 by {
      TwoMasks();
    }
  }

  lemma TwoMasks()
    ensures Union(AE_NONE, 1) == 1 && Union(1, 2) == 3 && Minus(3, 1) == 2 && Minus(3, 2) == 1
  {
  }

  lemma ServedMore(masks: map<int, bv32>, requests: seq<Request>, r: Request, setsize: int)
    ensures Served(masks, [], setsize) == masks
    ensures Served(masks, requests + [r], setsize) == Answer(Served(masks, requests, setsize), r, setsize)
  {
    assert (requests + [r])[..|requests|] == requests;
  }

  // A whole life of the registry: created, armed, used, disarmed, and its nodes
  // freed. Only disarming what the kernel refused to arm is misissued.
  method Lifetime(setsize: int, evfd: int, refused: bool, requests: seq<Request>)
    returns (registry: Registry, freed: seq<Node>)
    requires forall i :: 0 <= i < |requests| ==> requests[i].fd != evfd
    ensures registry.masks == Served(map[], requests, setsize)
    ensures registry.epoll.misuses == if refused then 1 else 0
    ensures Distinct(freed) && |freed| >= |registry.masks|
  {
    hide Registry.Valid, Distinct;
    registry := new Registry(setsize, evfd);
    registry.BeforePoll(refused);
    registry.Serve(requests);
    registry.AfterPoll();
    registry.LookCount();
    freed := registry.DeleteFileEvents();
  }
}

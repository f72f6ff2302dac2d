// The timer part of src/ez_event.c: a sorted intrusive list of time events.

module Timers {
  import opened Sequences
  import opened Lists
  import opened TimerDeadlines
  import opened TimerModel

  class TimerQueue {
    const head: ListHead<Timer>
    var lastTime: int
    var timeNextId: int
    ghost var nodes: seq<ListHead<Timer>>  // the list, in order
    ghost var timers: seq<Timer>           // what its nodes hold

    ghost predicate Linked()
      reads this, head, nodes
    {
      && Ring(head, nodes)
      && |nodes| == |timers| && forall i :: 0 <= i < |nodes| ==> nodes[i].entry == timers[i]
    }

    ghost predicate Valid()
      reads this, head, nodes
    {
      Linked() && Sorted(timers) && FreshIds(timers, timeNextId)
    }

    constructor (now: int)
      ensures Valid() && timers == [] && nodes == [] && timeNextId == 0 && lastTime == now && fresh(head)
    {
      head := new ListHead<Timer>.Init(Timer(0, 0, 0));
      lastTime := now;
      timeNextId := 0;
      nodes, timers := [], [];
    }

    // The first node from `first` on that does not fire before `when`.
    method FindSlot(first: ListHead<Timer>, when: int) returns (ti: ListHead<Timer>, ghost k: nat)
      requires Linked() && first == if nodes == [] then head else nodes[0]
      ensures k == Slot(timers, when) && k <= |nodes|
      ensures ti == if k < |nodes| then nodes[k] else head
    {
      hide Ring, Slot;
      ti := first;
      k := 0;
      RingNext(head, nodes, 0);
      while ti != head
        invariant Linked() && k <= |nodes| && ti == if k < |nodes| then nodes[k] else head
        invariant forall i :: 0 <= i < k ==> timers[i].when < when
        invariant k < |nodes| ==> ti != head
        decreases |nodes| - k
      {
        RingNext(head, nodes, k + 1);
        if when > ti.entry.when {
          ti := ti.next;
          k := k + 1;
        } else {
          break;
        }
      }
      SlotIs(timers, when, k);
    }

    // insert_time_event_list, from the first node of the queue on.
    method InsertTimeEventList(first: ListHead<Timer>, te: ListHead<Timer>)
      requires Linked() && first == (if nodes == [] then head else nodes[0]) && te != head && te !in nodes
      modifies this, head, nodes, te
      ensures Linked() && timers == Place(old(timers), te.entry) && te.entry == old(te.entry)
      ensures var k := Slot(old(timers), te.entry.when); nodes == old(nodes)[..k] + [te] + old(nodes)[k..]
      ensures forall n :: n in nodes ==> n in old(nodes) || n == te
      ensures lastTime == old(lastTime) && timeNextId == old(timeNextId)
    {
      hide Ring, Slot;
      var ti;
      ghost var k;
      ti, k := FindSlot(first, te.entry.when);
      RingPrev(head, nodes, k);
      ListAdd(te, ti.prev, head, nodes, k);
      EntriesPlaced(nodes, timers, te, k);
      timers := Place(timers, te.entry);
      nodes := nodes[..k] + [te] + nodes[k..];
    }

    static lemma EntriesPlaced(nodes: seq<ListHead<Timer>>, timers: seq<Timer>, te: ListHead<Timer>, k: nat)
      requires |nodes| == |timers| && k <= |nodes| && forall i :: 0 <= i < |nodes| ==> nodes[i].entry == timers[i]
      ensures var nodes', timers' := nodes[..k] + [te] + nodes[k..], timers[..k] + [te.entry] + timers[k..];
        |nodes'| == |timers'| && forall i :: 0 <= i < |nodes'| ==> nodes'[i].entry == timers'[i]
    {
    }

    // The node that stands at a position, the head behind the last.
    ghost function Standing(k: nat): ListHead<Timer>
      reads this
      requires k <= |nodes|
    {
      if k < |nodes| then nodes[k] else head
    }

    // Where the link of the node at a position leads.
    lemma NextStanding(k: nat)
      requires Linked() && k <= |nodes|
      ensures Standing(k) == head <==> k == |nodes|
      ensures Standing(k).next == Standing(if k < |nodes| then k + 1 else 0)
    {
      RingNext(head, nodes, 0);
      RingNext(head, nodes, if k < |nodes| then k + 1 else 0);
    }

    method CreateTimeEvent(period: int, clock: int) returns (id: int)
      requires Valid()
      modifies this, head, nodes
      ensures Valid() && id == old(timeNextId) && timeNextId == id + 1 && lastTime == old(lastTime)
      ensures timers == Place(old(timers), Newborn(Birth(period, clock), id))
      ensures var k := Slot(old(timers), clock + period);
        |nodes| == |old(nodes)| + 1 && fresh(nodes[k]) && nodes == old(nodes)[..k] + [nodes[k]] + old(nodes)[k..]
      ensures forall n :: n in nodes ==> n in old(nodes) || fresh(n)
    {
      hide Ring, Place, Sorted, FreshIds, Slot;
      id := timeNextId;
      timeNextId := timeNextId + 1;
      var te := new ListHead<Timer>(Timer(id, period, clock + period));
      PlaceSorted(timers, te.entry);
      PlaceFresh(timers, te.entry);
      RingNext(head, nodes, 0);
      InsertTimeEventList(head.next, te);
    }

    // The first node with this id, or the head.
    method FindId(id: int) returns (pos: ListHead<Timer>, ghost k: nat)
      requires Linked()
      ensures k <= |nodes| && pos == Standing(k) && (k < |nodes| <==> pos != head)
      ensures k == Position(timers, id)
      ensures if k < |nodes| then timers[k].id == id else !Known(timers, id)
    {
      hide Ring, Position;
      RingNext(head, nodes, 0);
      pos := head.next;
      k := 0;
      while pos != head
        invariant Linked() && k <= |nodes| && pos == Standing(k) && (k < |nodes| <==> pos != head)
        invariant forall i :: 0 <= i < k ==> timers[i].id != id
        decreases |nodes| - k
      {
        RingNext(head, nodes, k + 1);
        if pos.entry.id == id {
          break;
        }
        pos := pos.next;
        k := k + 1;
      }
      PositionIs(timers, id, k);
    }

    // The node in turn leaves the list; what that means for the links.
    method UnlistLinks(pos: ListHead<Timer>, ghost k: nat)
      requires Linked() && k < |nodes| && pos == nodes[k]
      modifies this, head, nodes
      ensures Linked() && timeNextId == old(timeNextId) && lastTime == old(lastTime)
      ensures timers == old(timers)[..k] + old(timers)[k + 1..]
      ensures nodes == old(nodes)[..k] + old(nodes)[k + 1..] && pos !in nodes && pos.entry == old(timers)[k]
    {
      hide Ring;
      RingNext(head, nodes, 0);
      ListDel(pos, head, nodes, k);
      timers := timers[..k] + timers[k + 1..];
      nodes := nodes[..k] + nodes[k + 1..];
    }

    // The same for the queue.
    method Unlist(pos: ListHead<Timer>, ghost k: nat)
      requires Valid() && k < |nodes| && pos == nodes[k]
      modifies this, head, nodes
      ensures Valid() && timeNextId == old(timeNextId) && lastTime == old(lastTime)
      ensures Line(timers, k, timeNextId) == Unlinked(Line(old(timers), k, timeNextId))
      ensures nodes == old(nodes)[..k] + old(nodes)[k + 1..] && pos !in nodes && pos.entry == old(timers)[k]
    {
      hide Ring, Sorted, FreshIds;
      UnlinkedSorted(Line(timers, k, timeNextId));
      UnlinkedFresh(Line(timers, k, timeNextId));
      UnlistLinks(pos, k);
    }

    // The timer with this id, if there is one, leaves the queue.
    method DeleteTimeEvent(id: int)
      requires Valid()
      modifies this, head, nodes
      ensures Valid() && timeNextId == old(timeNextId) && lastTime == old(lastTime)
      ensures !Known(timers, id)
      ensures if Known(old(timers), id) then TakenOut(old(timers), timers, id) else timers == old(timers)
      ensures timers == Cancelled(old(timers), id)
      ensures forall n :: n in nodes ==> n in old(nodes)
    {
      hide Ring, Sorted, FreshIds, Position;
      var pos;
      ghost var k;
      pos, k := FindId(id);
      if pos != head {
        UnlinkedFresh(Line(timers, k, timeNextId));
        Unlist(pos, k);
      }
    }

    // What the callback of a timer does to the queue: it creates timers. `k` is
    // where the saved next node stands.
    method Callback(created: seq<Birth>, ghost k: nat) returns (ghost k': nat)
      requires Valid() && k <= |nodes|
      modifies this, head, nodes
      ensures Valid() && lastTime == old(lastTime) && k' <= |nodes|
      ensures Line(timers, k', timeNextId) == Bear(Line(old(timers), k, old(timeNextId)), created)
      ensures Standing(k') == old(Standing(k))
      ensures forall n :: n in nodes ==> n in old(nodes) || fresh(n)
      decreases |created|
    {
      hide Ring, Slot, Sorted, FreshIds, Place;
      k' := k;
      if created != [] {
        ghost var l := Line(timers, k, timeNextId);
        var id := CreateTimeEvent(created[0].period, created[0].clock);
        ghost var j := Slot(l.list, created[0].clock + created[0].period);
        k' := if j <= k then k + 1 else k;
        assert Line(timers, k', timeNextId) == Settle(l, Newborn(created[0], id));
        k' := Callback(created[1..], k');
      }
    }

    // The timers to be put back form a stack through their `next` links.
    static ghost predicate Stacked(top: ListHead?<Timer>, stack: seq<ListHead<Timer>>, kept: seq<Timer>)
      reads stack
    {
      && |stack| == |kept| && Distinct(stack)
      && top == (if stack == [] then null else stack[|stack| - 1])
      && (forall i :: 0 <= i < |stack| ==> stack[i].entry == kept[i])
      && (stack != [] ==> stack[0].next == null)
      && (forall i :: 0 < i < |stack| ==> stack[i].next == stack[i - 1])
    }

    ghost predicate Apart(stack: seq<ListHead<Timer>>)
      reads this
    {
      forall n :: n in stack ==> n != head && n !in nodes
    }

    static method PushBack(te: ListHead<Timer>, now: int, ret: int, top: ListHead?<Timer>,
                           ghost stack: seq<ListHead<Timer>>, ghost kept: seq<Timer>)
      requires Stacked(top, stack, kept) && te !in stack
      modifies te
      ensures Stacked(te, stack + [te], kept + [Reschedule(old(te.entry), now, ret)])
      ensures ret == 0 ==> te.entry == old(te.entry).(when := now + old(te.entry).period)
      ensures ret > 0 ==> te.entry == old(te.entry).(when := now + ret)
    {
      te.entry := te.entry.(when := now + if ret == TIMER_NEXT then te.entry.period else ret);
      te.next := top;
      DistinctMiddle(stack, te, []);
      assert stack + [te] + [] == stack + [te];
      assert forall i :: 0 <= i < |stack| ==> stack[i] in stack;
    }

    // One due timer fires: its callback runs, then it ends or goes on the stack.
    method FireOne(pos: ListHead<Timer>, now: int, out: Outcome, top: ListHead?<Timer>,
                   ghost k: nat, ghost stack: seq<ListHead<Timer>>, ghost kept: seq<Timer>)
      returns (top': ListHead?<Timer>, ghost k': nat, ghost stack': seq<ListHead<Timer>>, ghost kept': seq<Timer>)
      requires Valid() && k < |nodes| && pos == nodes[k] && Stacked(top, stack, kept) && Apart(stack)
      modifies this, head, nodes
      ensures Valid() && lastTime == old(lastTime) && k' <= |nodes| && Stacked(top', stack', kept') && Apart(stack')
      ensures Line(timers, k', timeNextId) == Bear(Unlinked(Line(old(timers), k, old(timeNextId))), out.created)
      ensures Standing(k') == old(Standing(k + 1))
      ensures kept' == if out.ret <= TIMER_END then kept else kept + [Reschedule(old(timers)[k], now, out.ret)]
      ensures forall n :: n in nodes ==> n in old(nodes) || fresh(n)
      ensures forall n :: n in stack' ==> n in stack || n in old(nodes)
    {
      hide Ring, Sorted, FreshIds, Bear, Unlinked;
      RingNext(head, nodes, 0);
      Unlist(pos, k);
      assert pos !in nodes && pos != head;
      k' := Callback(out.created, k);
      assert pos !in nodes && pos !in stack;
      assert forall i :: 0 <= i < |stack| ==> stack[i] in stack;
      assert forall n :: n in stack ==> n.next == old(n.next) && n.entry == old(n.entry);
      if out.ret <= TIMER_END {
        top', stack', kept' := top, stack, kept;
      } else {
        PushBack(pos, now, out.ret, top, stack, kept);
        top', stack', kept' := pos, stack + [pos], kept + [Reschedule(old(timers)[k], now, out.ret)];
      }
    }

    // The loop over the due timers.
    method FirePass(all: bool, clock: nat -> int, script: nat -> Outcome, ghost quiet: nat)
      returns (processed: nat, top: ListHead?<Timer>, ghost stack: seq<ListHead<Timer>>, ghost r: Result)
      requires Valid() && Quiet(script, quiet)
      modifies this, head, nodes
      ensures Valid() && lastTime == old(lastTime)
      ensures r == PassResult(old(timers), old(timeNextId), all, clock, script, quiet)
      ensures timers == r.list && timeNextId == r.nextId && processed == |r.fired|
      ensures Stacked(top, stack, r.kept) && Apart(stack)
      ensures forall m :: m in nodes ==> m in old(nodes) || fresh(m)
      ensures forall m :: m in stack ==> m in old(nodes) || fresh(m)
    {
      hide Ring, Sorted, FreshIds, Bear, Unlinked, Stacked, Run, Prefix, Place, Slot, Quiet;
      r := PassResult(timers, timeNextId, all, clock, script, quiet);
      ghost var acc, kept := Begin(r.list, r.nextId), [];
      ghost var k: nat := 0;
      PrefixBegin(r);
      processed, top, stack := 0, null, [];
      EmptyStack();
      NextStanding(|nodes|);
      var pos := head.next;
      NextStanding(0);
      var n := pos.next;
      while pos != head
        invariant Valid() && lastTime == old(lastTime) && k <= |nodes| && pos == Standing(k)
        invariant pos != head <==> k < |nodes|
        invariant k < |nodes| ==> n == Standing(k + 1)
        invariant Prefix(acc, Run(Line(timers, k, timeNextId), all, clock, script, processed, quiet)) == r
        invariant acc.kept == kept && |acc.fired| == processed
        invariant Stacked(top, stack, kept) && Apart(stack)
        invariant forall m :: m in nodes ==> m in old(nodes) || fresh(m)
        invariant forall m :: m in stack ==> m in old(nodes) || fresh(m)
        decreases if processed < quiet then quiet - processed else 0, |nodes| - k
      {
        var now := clock(processed);
        if all || now >= pos.entry.when {
          ghost var l, out := Line(timers, k, timeNextId), script(processed);
          RunStep(acc, l, all, clock, script, processed, quiet);
          QuietCall(script, quiet, processed, Unlinked(l));
          assert forall i :: 0 <= i < |nodes| ==> nodes[i] in nodes;
          top, k, stack, kept := FireOne(pos, now, script(processed), top, k, stack, kept);
          acc := Done(acc, l.list[l.k], now, out, l.nextId);
          processed := processed + 1;
        } else {
          break;
        }
        pos := n;
        NextStanding(k);
        n := pos.next;
      }
      PrefixEnd(acc, Line(timers, k, timeNextId), all, clock, script, processed, quiet);
    }

    static lemma EmptyStack()
      ensures Stacked(null, [], [])
    {
    }

    // A late callback leaves the rest of the queue as it is.
    lemma QuietCall(script: nat -> Outcome, quiet: nat, j: nat, l: Line)
      requires Quiet(script, quiet) && l.k <= |l.list|
      ensures j >= quiet ==> Bear(l, script(j).created) == l
    {
    }

    static lemma StackedPop(top: ListHead?<Timer>, stack: seq<ListHead<Timer>>, kept: seq<Timer>)
      requires Stacked(top, stack, kept) && stack != []
      ensures var k := |stack| - 1;
        && top == stack[k] && top.entry == kept[k] && top in stack && top !in stack[..k]
        && (forall m :: m in stack[..k] ==> m in stack)
        && Stacked(top.next, stack[..k], kept[..k])
        && kept[..k] + [kept[k]] == kept
    {
      var k := |stack| - 1;
      assert forall i :: 0 <= i < k ==> stack[..k][i] == stack[i];
    }

    // A stack is not touched by putting another node into the queue.
    method PutOne(te: ListHead<Timer>, next: ListHead?<Timer>, ghost stack: seq<ListHead<Timer>>, ghost kept: seq<Timer>)
      requires Linked() && te != head && te !in nodes && te !in stack && Stacked(next, stack, kept) && Apart(stack)
      modifies this, head, nodes, te
      ensures Linked() && timers == Place(old(timers), old(te.entry)) && Stacked(next, stack, kept) && Apart(stack)
      ensures forall m :: m in nodes ==> m in old(nodes) || m == te
      ensures lastTime == old(lastTime) && timeNextId == old(timeNextId)
    {
      hide Ring, Place, Slot;
      RingNext(head, nodes, 0);
      assert forall i :: 0 <= i < |stack| ==> stack[i] in stack;
      InsertTimeEventList(head.next, te);
    }

    // The stack goes back into the queue, the last timer fired first.
    method PutBack(start: ListHead?<Timer>, ghost stack: seq<ListHead<Timer>>, ghost kept: seq<Timer>)
      requires Linked() && Stacked(start, stack, kept) && Apart(stack)
      modifies this, head, nodes, stack
      ensures Linked() && timers == Reput(old(timers), kept)
      ensures forall m :: m in nodes ==> m in old(nodes) || m in stack
      ensures lastTime == old(lastTime) && timeNextId == old(timeNextId)
    {
      hide Ring, Place, Linked, Stacked, Reput;
      var rePut := start;
      ghost var rest, left := stack, kept;
      while rePut != null
        invariant Linked() && Stacked(rePut, rest, left) && Apart(rest)
        invariant Reput(timers, left) == Reput(old(timers), kept)
        invariant forall m :: m in rest ==> m in stack
        invariant forall m :: m in nodes ==> m in old(nodes) || m in stack
        invariant lastTime == old(lastTime) && timeNextId == old(timeNextId)
        decreases |rest|
      {
        StackedSome(rePut, rest, left);
        StackedPop(rePut, rest, left);
        ReputStep(timers, left);
        var te := rePut;
        rePut := rePut.next;
        rest, left := rest[..|rest| - 1], left[..|left| - 1];
        assert forall i :: 0 <= i < |nodes| ==> nodes[i] in nodes;
        PutOne(te, rePut, rest, left);
      }
      StackedNone(rest, left);
      ReputNone(timers);
    }

    static lemma StackedNone(stack: seq<ListHead<Timer>>, kept: seq<Timer>)
      requires Stacked(null, stack, kept)
      ensures stack == [] && kept == []
    {
    }

    static lemma StackedSome(top: ListHead<Timer>, stack: seq<ListHead<Timer>>, kept: seq<Timer>)
      requires Stacked(top, stack, kept)
      ensures stack != [] && kept != []
    {
    }

    // process_time_events: `now` is the time in seconds, `clock` the milliseconds
    // read before each callback, `script` what the callbacks do.
    method ProcessTimeEvents(now: int, clock: nat -> int, script: nat -> Outcome, ghost quiet: nat)
      returns (processed: nat)
      requires Valid() && Quiet(script, quiet)
      modifies this, head, nodes
      ensures Valid() && lastTime == now
      ensures var all, r := now < old(lastTime),
          PassResult(old(timers), old(timeNextId), now < old(lastTime), clock, script, quiet);
        && timers == PassQueue(old(timers), old(timeNextId), all, clock, script, quiet)
        && timeNextId == r.nextId && processed == |r.fired|
        && Settled(r.fired, timers, clock, script) && Untouched(old(timers), r.fired, timers)
      ensures forall m :: m in nodes ==> m in old(nodes) || fresh(m)
    {
      hide Ring, Sorted, FreshIds, Stacked, Run, Reput, Quiet, Settled, Untouched;
      var all := now < lastTime;
      lastTime := now;
      ghost var q := PassQueue(timers, timeNextId, all, clock, script, quiet);
      ghost var last := PassResult(timers, timeNextId, all, clock, script, quiet).nextId;
      assert Sorted(q) && FreshIds(q, last) by {
        PassTheorem(timers, timeNextId, all, clock, script, quiet);
      }
      PassSettled(timers, timeNextId, all, clock, script, quiet);
      var top;
      ghost var stack, r;
      processed, top, stack, r := FirePass(all, clock, script, quiet);
      assert forall i :: 0 <= i < |nodes| ==> nodes[i] in nodes;
      assert forall i :: 0 <= i < |stack| ==> stack[i] in stack;
      PutBack(top, stack, r.kept);
    }
  }
}

// Runs of the timer queue: timers started and cancelled, and passes, in any order.

module TimerRuns {
  import opened Lists
  import opened TimerDeadlines
  import opened TimerModel
  import opened Timers

  datatype Action =
    | Start(period: int, clock: int)
    | Cancel(id: int)
    | Pass(now: int, samples: nat -> int, script: nat -> Outcome, quiet: nat)

  ghost predicate Allowed(a: Action) {
    a.Pass? ==> Quiet(a.script, a.quiet)
  }

  ghost predicate AllAllowed(actions: seq<Action>) {
    forall i :: 0 <= i < |actions| ==> Allowed(actions[i])
  }

  // The queue with a book of all timers made so far and all that are gone again,
  // because they ended or were cancelled.
  datatype Ledger = Ledger(timers: seq<Timer>, nextId: int, lastTime: int, made: seq<Timer>, gone: seq<Timer>)

  ghost function Book(l: Ledger, a: Action): Ledger
    requires Allowed(a)
  {
    match a
    case Start(period, clock) =>
      var t := Newborn(Birth(period, clock), l.nextId);
      l.(timers := Place(l.timers, t), nextId := l.nextId + 1, made := l.made + [t])
    case Cancel(id) =>
      var k := Position(l.timers, id);
      l.(timers := Cancelled(l.timers, id), gone := l.gone + if k < |l.timers| then [l.timers[k]] else [])
    case Pass(now, clock, script, quiet) =>
      var all, r := now < l.lastTime, PassResult(l.timers, l.nextId, now < l.lastTime, clock, script, quiet);
      Ledger(PassQueue(l.timers, l.nextId, all, clock, script, quiet), r.nextId, now, l.made + r.born, l.gone + r.ended)
  }

  ghost function Books(l: Ledger, actions: seq<Action>): Ledger
    requires AllAllowed(actions)
  {
    if actions == [] then l else Book(Books(l, actions[..|actions| - 1]), actions[|actions| - 1])
  }

  // Every timer made has an id of its own, counted from `first`, and is at any time
  // either queued or gone, with the period it was made with.
  ghost predicate Accounted(l: Ledger, first: int) {
    && Sorted(l.timers) && FreshIds(l.timers, l.nextId)
    && Cores(l.timers) + Cores(l.gone) == Cores(l.made)
    && l.nextId == first + |l.made| && forall i :: 0 <= i < |l.made| ==> l.made[i].id == first + i
  }

  lemma BookAccounted(l: Ledger, a: Action, first: int)
    requires Accounted(l, first) && Allowed(a)
    ensures Accounted(Book(l, a), first)
  {
    hide Sorted, FreshIds, Cores, Place, Position, Run, Reput;
    match a
    case Start(period, clock) =>
      var t := Newborn(Birth(period, clock), l.nextId);
      PlaceSorted(l.timers, t);
      PlaceFresh(l.timers, t);
      PlaceCores(l.timers, t);
      CoresConcat(l.made, [t]);
    case Cancel(id) =>
      var k := Position(l.timers, id);
      if k < |l.timers| {
        var line := Line(l.timers, k, l.nextId);
        UnlinkedSorted(line);
        UnlinkedFresh(line);
        UnlinkedBags(line);
        CoresConcat(l.gone, [l.timers[k]]);
      } else {
        assert l.gone + [] == l.gone;
      }
    case Pass(now, clock, script, quiet) =>
      var r := PassResult(l.timers, l.nextId, now < l.lastTime, clock, script, quiet);
      PassTheorem(l.timers, l.nextId, now < l.lastTime, clock, script, quiet);
      BornIs(Line(l.timers, 0, l.nextId), now < l.lastTime, clock, script, 0, quiet);
      CoresConcat(l.made, r.born);
      CoresConcat(l.gone, r.ended);
      BagBalance(Cores(Book(l, a).timers), Cores(r.ended), Cores(l.timers), Cores(r.born), Cores(l.gone), Cores(l.made));
  }

  lemma BagBalance<T>(q: multiset<T>, e: multiset<T>, t: multiset<T>, b: multiset<T>, g: multiset<T>, m: multiset<T>)
    requires q + e == t + b && t + g == m
    ensures q + (g + e) == m + b
  {
    assert q + (g + e) == (q + e) + g;
  }

  lemma {:induction false} BooksAccounted(l: Ledger, actions: seq<Action>, first: int)
    requires Accounted(l, first) && AllAllowed(actions)
    ensures Accounted(Books(l, actions), first)
  {
    hide Book, Accounted;
    if actions != [] {
      BooksAccounted(l, actions[..|actions| - 1], first);
      BookAccounted(Books(l, actions[..|actions| - 1]), actions[|actions| - 1], first);
    }
  }

  // The ledger of a queue from now on.
  ghost function Opened(q: TimerQueue): Ledger
    reads q
  {
    Ledger(q.timers, q.timeNextId, q.lastTime, [], [])
  }

  ghost predicate Holds(q: TimerQueue, l: Ledger)
    reads q
  {
    q.timers == l.timers && q.timeNextId == l.nextId && q.lastTime == l.lastTime
  }

  method PerformOne(q: TimerQueue, a: Action, ghost l: Ledger)
    requires q.Valid() && Allowed(a) && Holds(q, l)
    modifies q, q.head, q.nodes
    ensures q.Valid() && Holds(q, Book(l, a))
    ensures forall n :: n in q.nodes ==> n in old(q.nodes) || fresh(n)
  {
    hide TimerQueue.Valid, Place, Cancelled, Position, Run, Reput, Quiet;
    match a
    case Start(period, clock) =>
      var _ := q.CreateTimeEvent(period, clock);
    case Cancel(id) =>
      q.DeleteTimeEvent(id);
    case Pass(now, clock, script, quiet) =>
      var _ := q.ProcessTimeEvents(now, clock, script, quiet);
  }

  // One action after the other, on the links.
  method Perform(q: TimerQueue, actions: seq<Action>)
    requires q.Valid() && AllAllowed(actions)
    modifies q, q.head, q.nodes
    ensures q.Valid() && Holds(q, Books(old(Opened(q)), actions))
    ensures forall n :: n in q.nodes ==> n in old(q.nodes) || fresh(n)
  {
    hide TimerQueue.Valid, Book;
    ghost var l := Opened(q);
    for i := 0 to |actions|
      invariant q.Valid() && Holds(q, Books(l, actions[..i]))
      invariant forall n :: n in q.nodes ==> n in old(q.nodes) || fresh(n)
    {
      assert actions[..i + 1][..i] == actions[..i];
      assert forall j :: 0 <= j < |q.nodes| ==> q.nodes[j] in q.nodes;
      PerformOne(q, actions[i], Books(l, actions[..i]));
    }
    assert actions[..|actions|] == actions;
  }

  // Any run from an empty queue: whatever is started, cancelled, fired and put back,
  // each timer ever made is queued or gone and no id is used twice.
  method Lifetime(now: int, actions: seq<Action>) returns (q: TimerQueue, ghost l: Ledger)
    requires AllAllowed(actions)
    ensures l == Books(Ledger([], 0, now, [], []), actions) && Accounted(l, 0)
    ensures q.Valid() && Holds(q, l)
  {
    hide TimerQueue.Valid, Books;
    q := new TimerQueue(now);
    l := Books(Opened(q), actions);
    BooksAccounted(Opened(q), actions, 0);
    Perform(q, actions);
  }
}

// The timer queue on values: where a timer is put, and one pass over the queue.

module TimerModel {
  import opened Options
  import opened Sequences

  // Firing time in milliseconds. The callback of a timer is known by its id.
  datatype Timer = Timer(id: int, period: int, when: int)

  // ----- Putting a timer into the queue -----

  // How many leading timers fire strictly before `when`.
  function Slot(s: seq<Timer>, when: int): (k: nat)
    ensures k <= |s| && (forall i :: 0 <= i < k ==> s[i].when < when) && (k < |s| ==> s[k].when >= when)
  {
    if s == [] || s[0].when >= when then 0 else 1 + Slot(s[1..], when)
  }

  lemma {:induction false} SlotIs(s: seq<Timer>, when: int, k: nat)
    requires k <= |s| && (forall i :: 0 <= i < k ==> s[i].when < when) && (k < |s| ==> s[k].when >= when)
    ensures Slot(s, when) == k
  {
    if k > 0 {
      SlotIs(s[1..], when, k - 1);
    }
  }

  // In front of the first timer that does not fire earlier.
  function Place(s: seq<Timer>, t: Timer): (r: seq<Timer>)
    ensures |r| == |s| + 1
  {
    var k := Slot(s, t.when);
    s[..k] + [t] + s[k..]
  }

  ghost predicate Sorted(s: seq<Timer>) {
    forall i, j :: 0 <= i < j < |s| ==> s[i].when <= s[j].when
  }

  lemma PlaceSorted(s: seq<Timer>, t: Timer)
    requires Sorted(s)
    ensures Sorted(Place(s, t))
  {
    var k := Slot(s, t.when);
    var s' := Place(s, t);
    forall i, j | 0 <= i < j < |s'| ensures s'[i].when <= s'[j].when {
      assert i != k ==> s'[i] == s[if i < k then i else i - 1];
      assert j != k ==> s'[j] == s[if j < k then j else j - 1];
    }
  }

  // The timers that fire at one instant, in queue order.
  ghost function At(s: seq<Timer>, w: int): seq<Timer> {
    if s == [] then [] else (if s[0].when == w then [s[0]] else []) + At(s[1..], w)
  }

  lemma {:induction false} AtConcat(a: seq<Timer>, b: seq<Timer>, w: int)
    ensures At(a + b, w) == At(a, w) + At(b, w)
  {
    hide At;
    if a == [] {
      assert a + b == b;
      AtNone(a, w);
    } else {
      AtConcat(a[1..], b, w);
      AtStep(a + b, w);
      AtStep(a, w);
      assert (a + b)[1..] == a[1..] + b;
      var h := if a[0].when == w then [a[0]] else [];
      assert h + (At(a[1..], w) + At(b, w)) == h + At(a[1..], w) + At(b, w);
    }
  }

  lemma AtStep(s: seq<Timer>, w: int)
    requires s != []
    ensures At(s, w) == (if s[0].when == w then [s[0]] else []) + At(s[1..], w)
  {
  }

  lemma {:induction false} AtNone(s: seq<Timer>, w: int)
    requires forall i :: 0 <= i < |s| ==> s[i].when != w
    ensures At(s, w) == []
  {
    if s != [] {
      AtNone(s[1..], w);
    }
  }

  // A timer is put in front of those that fire at the same instant.
  lemma PlaceAt(s: seq<Timer>, t: Timer, w: int)
    ensures At(Place(s, t), w) == (if t.when == w then [t] else []) + At(s, w)
  {
    var k := Slot(s, t.when);
    assert s == s[..k] + s[k..];
    AtConcat(s[..k], s[k..], w);
    AtConcat(s[..k] + [t], s[k..], w);
    AtConcat(s[..k], [t], w);
    if w == t.when {
      AtNone(s[..k], w);
    }
  }

  // Order and ties determine a queue.
  lemma {:induction false} SortedDetermined(a: seq<Timer>, b: seq<Timer>)
    requires Sorted(a) && Sorted(b) && forall w :: At(a, w) == At(b, w)
    ensures a == b
  {
    if a == [] {
      if b != [] {
        AtHead(b);
      }
    } else {
      var w := a[0].when;
      assert At(b, w) == At(a, w) && At(a, w)[0] == a[0];
      AtFirst(b, w);
      assert At(a, b[0].when) == At(b, b[0].when);
      AtFirst(a, b[0].when);
      forall v ensures At(a[1..], v) == At(b[1..], v) {
        assert At(a, v) == At(b, v);
        var x := if w == v then [a[0]] else [];
        assert At(a, v) == x + At(a[1..], v) && At(b, v) == x + At(b[1..], v);
        assert At(a[1..], v) == At(a, v)[|x|..];
        assert At(b[1..], v) == At(b, v)[|x|..];
      }
      SortedDetermined(a[1..], b[1..]);
    }
  }

  lemma AtHead(s: seq<Timer>)
    requires s != []
    ensures At(s, s[0].when) != []
  {
  }

  lemma {:induction false} AtFirst(s: seq<Timer>, w: int)
    requires Sorted(s) && At(s, w) != []
    ensures s != [] && s[0].when <= w && (s[0].when == w ==> At(s, w)[0] == s[0])
  {
    if s[0].when != w {
      AtFirst(s[1..], w);
    }
  }

  // ----- One pass -----

  // A timer that a callback creates, with the clock it reads for that.
  datatype Birth = Birth(period: int, clock: int)
  // What one call of a callback does.
  datatype Outcome = Outcome(ret: int, created: seq<Birth>)

  const TIMER_END := -1
  const TIMER_NEXT := 0

  // The queue during a pass: the first `k` timers lie before the saved next one.
  datatype Line = Line(list: seq<Timer>, k: nat, nextId: int)

  function Newborn(b: Birth, id: int): Timer {
    Timer(id, b.period, b.clock + b.period)
  }

  // A new timer is put into the queue; the saved next timer stays the same one.
  function Settle(l: Line, t: Timer): (r: Line)
    requires l.k <= |l.list|
    ensures l.k <= r.k <= |r.list| && |r.list| == |l.list| + 1 && r.nextId == l.nextId + 1
    ensures |r.list| - r.k >= |l.list| - l.k
  {
    Line(Place(l.list, t), if Slot(l.list, t.when) <= l.k then l.k + 1 else l.k, l.nextId + 1)
  }

  function Bear(l: Line, births: seq<Birth>): (r: Line)
    requires l.k <= |l.list|
    ensures r.k <= |r.list| && r.k >= l.k && |r.list| == |l.list| + |births| && r.nextId == l.nextId + |births|
    ensures |r.list| - r.k >= |l.list| - l.k
    decreases |births|
  {
    if births == [] then l
    else Bear(Settle(l, Newborn(births[0], l.nextId)), births[1..])
  }

  function Newborns(births: seq<Birth>, id: int): seq<Timer> {
    if births == [] then [] else [Newborn(births[0], id)] + Newborns(births[1..], id + 1)
  }

  function Reschedule(t: Timer, now: int, ret: int): Timer {
    t.(when := now + if ret == TIMER_NEXT then t.period else ret)
  }

  // What a pass leaves and what it did: the queue without the fired timers, the
  // timers to be put back in firing order, those that ended, those that fired as
  // they stood in the queue, those created, and the clock that stopped it, if any.
  datatype Result = Result(list: seq<Timer>, kept: seq<Timer>, ended: seq<Timer>, fired: seq<Timer>,
                           born: seq<Timer>, nextId: int, stop: Option<int>)

  // From some call on, callbacks create no timers.
  ghost predicate Quiet(script: nat -> Outcome, quiet: nat) {
    forall j: nat :: j >= quiet ==> script(j).created == []
  }

  // The queue without the timer in turn.
  function Unlinked(l: Line): (r: Line)
    requires l.k < |l.list|
    ensures r.k <= |r.list| && r.k == l.k && |r.list| == |l.list| - 1
  {
    Line(l.list[..l.k] + l.list[l.k + 1..], l.k, l.nextId)
  }

  // The timer in turn fires.
  ghost predicate Due(l: Line, all: bool, now: int) {
    l.k < |l.list| && (all || now >= l.list[l.k].when)
  }

  // A pass from the `j`-th callback on, with the clock read before each of them.
  ghost function Run(l: Line, all: bool, clock: nat -> int, script: nat -> Outcome, j: nat, quiet: nat): (r: Result)
    requires l.k <= |l.list| && Quiet(script, quiet)
    decreases if j < quiet then quiet - j else 0, |l.list| - l.k
  {
    if Due(l, all, clock(j)) then
      var r := Run(Bear(Unlinked(l), script(j).created), all, clock, script, j + 1, quiet);
      OneMoreFired(r, l.list[l.k], clock(j), script(j), l.nextId)
    else
      Result(l.list, [], [], [], [], l.nextId, if l.k == |l.list| then None else Some(clock(j)))
  }

  // One more timer fired before the rest of a pass.
  ghost function OneMoreFired(r: Result, t: Timer, now: int, out: Outcome, id: int): Result {
    var born := Newborns(out.created, id);
    if out.ret <= TIMER_END
    then r.(fired := [t] + r.fired, born := born + r.born, ended := [t] + r.ended)
    else r.(fired := [t] + r.fired, born := born + r.born, kept := [Reschedule(t, now, out.ret)] + r.kept)
  }

  // Putting the kept timers back, the last one fired first.
  function Reput(list: seq<Timer>, kept: seq<Timer>): seq<Timer>
    decreases |kept|
  {
    if kept == [] then list else Reput(Place(list, kept[|kept| - 1]), kept[..|kept| - 1])
  }

  lemma ReputStep(list: seq<Timer>, kept: seq<Timer>)
    requires kept != []
    ensures Reput(Place(list, kept[|kept| - 1]), kept[..|kept| - 1]) == Reput(list, kept)
  {
  }

  lemma ReputNone(list: seq<Timer>)
    ensures Reput(list, []) == list
  {
  }

  // A pass of which `a` has already been done.
  ghost function Prefix(a: Result, r: Result): Result {
    r.(kept := a.kept + r.kept, ended := a.ended + r.ended, fired := a.fired + r.fired, born := a.born + r.born)
  }

  // One more timer counted as done.
  ghost function Done(a: Result, t: Timer, now: int, out: Outcome, id: int): Result {
    var a' := a.(fired := a.fired + [t], born := a.born + Newborns(out.created, id));
    if out.ret <= TIMER_END then a'.(ended := a.ended + [t])
    else a'.(kept := a.kept + [Reschedule(t, now, out.ret)])
  }

  lemma PrefixDone(a: Result, r: Result, t: Timer, now: int, out: Outcome, id: int)
    ensures Prefix(a, OneMoreFired(r, t, now, out, id)) == Prefix(Done(a, t, now, out, id), r)
  {
    hide Newborns, Reschedule;
    var nb := Newborns(out.created, id);
    assert a.fired + ([t] + r.fired) == (a.fired + [t]) + r.fired;
    assert a.ended + ([t] + r.ended) == (a.ended + [t]) + r.ended;
    assert a.born + (nb + r.born) == (a.born + nb) + r.born;
    var t' := Reschedule(t, now, out.ret);
    assert a.kept + ([t'] + r.kept) == (a.kept + [t']) + r.kept;
  }

  // Nothing done yet.
  ghost function Begin(list: seq<Timer>, nextId: int): Result {
    Result(list, [], [], [], [], nextId, None)
  }

  lemma PrefixBegin(r: Result)
    ensures Prefix(Begin(r.list, r.nextId), r) == r
  {
  }

  // A pass that is over.
  lemma PrefixEnd(a: Result, l: Line, all: bool, clock: nat -> int, script: nat -> Outcome, j: nat, quiet: nat)
    requires l.k <= |l.list| && Quiet(script, quiet) && !Due(l, all, clock(j))
    ensures var r := Prefix(a, Run(l, all, clock, script, j, quiet));
      r.list == l.list && r.nextId == l.nextId && r.kept == a.kept && r.fired == a.fired
  {
  }

  lemma RunStep(a: Result, l: Line, all: bool, clock: nat -> int, script: nat -> Outcome, j: nat, quiet: nat)
    requires l.k <= |l.list| && Quiet(script, quiet) && Due(l, all, clock(j))
    ensures Prefix(a, Run(l, all, clock, script, j, quiet)) ==
      Prefix(Done(a, l.list[l.k], clock(j), script(j), l.nextId),
        Run(Bear(Unlinked(l), script(j).created), all, clock, script, j + 1, quiet))
  {
    hide Prefix, OneMoreFired, Done;
    var r := Run(Bear(Unlinked(l), script(j).created), all, clock, script, j + 1, quiet);
    PrefixDone(a, r, l.list[l.k], clock(j), script(j), l.nextId);
  }

  // ----- Order -----

  lemma {:induction false} BearSorted(l: Line, births: seq<Birth>)
    requires l.k <= |l.list| && Sorted(l.list)
    ensures Sorted(Bear(l, births).list)
    decreases |births|
  {
    if births != [] {
      var t := Newborn(births[0], l.nextId);
      PlaceSorted(l.list, t);
      BearSorted(Settle(l, t), births[1..]);
    }
  }

  lemma UnlinkedSorted(l: Line)
    requires l.k < |l.list| && Sorted(l.list)
    ensures Sorted(Unlinked(l).list)
  {
  }

  lemma {:induction false} RunSorted(l: Line, all: bool, clock: nat -> int, script: nat -> Outcome, j: nat, quiet: nat)
    requires l.k <= |l.list| && Quiet(script, quiet) && Sorted(l.list)
    ensures Sorted(Run(l, all, clock, script, j, quiet).list)
    decreases if j < quiet then quiet - j else 0, |l.list| - l.k
  {
    hide Bear, Newborns, Unlinked, Sorted;
    if Due(l, all, clock(j)) {
      UnlinkedSorted(l);
      BearSorted(Unlinked(l), script(j).created);
      RunSorted(Bear(Unlinked(l), script(j).created), all, clock, script, j + 1, quiet);
    }
  }

  lemma {:induction false} ReputSorted(list: seq<Timer>, kept: seq<Timer>)
    requires Sorted(list)
    ensures Sorted(Reput(list, kept))
    decreases |kept|
  {
    if kept != [] {
      PlaceSorted(list, kept[|kept| - 1]);
      ReputSorted(Place(list, kept[|kept| - 1]), kept[..|kept| - 1]);
    }
  }

  // Timers put back with the same new deadline keep the order in which they
  // fired, and stand before the timers that were not fired.
  lemma {:induction false} ReputStable(list: seq<Timer>, kept: seq<Timer>, w: int)
    ensures At(Reput(list, kept), w) == At(kept, w) + At(list, w)
    decreases |kept|
  {
    if kept != [] {
      var last, front := kept[|kept| - 1], kept[..|kept| - 1];
      assert kept == front + [last];
      AtConcat(front, [last], w);
      PlaceAt(list, last, w);
      ReputStable(Place(list, last), front, w);
    }
  }

  // ----- Conservation -----

  lemma PlaceBag(s: seq<Timer>, t: Timer)
    ensures multiset(Place(s, t)) == multiset(s) + multiset{t}
  {
    var k := Slot(s, t.when);
    assert s == s[..k] + s[k..];
  }

  lemma {:induction false} BearBag(l: Line, births: seq<Birth>)
    requires l.k <= |l.list|
    ensures multiset(Bear(l, births).list) == multiset(l.list) + multiset(Newborns(births, l.nextId))
    decreases |births|
  {
    hide Place, Slot;
    if births != [] {
      var t := Newborn(births[0], l.nextId);
      PlaceBag(l.list, t);
      BearBag(Settle(l, t), births[1..]);
    }
  }

  // What does not change when a timer is rescheduled.
  ghost function Cores(s: seq<Timer>): multiset<(int, int)> {
    if s == [] then multiset{} else multiset{(s[0].id, s[0].period)} + Cores(s[1..])
  }

  lemma {:induction false} CoresConcat(a: seq<Timer>, b: seq<Timer>)
    ensures Cores(a + b) == Cores(a) + Cores(b)
  {
    if a == [] {
      assert a + b == b;
    } else {
      assert (a + b)[1..] == a[1..] + b;
      CoresConcat(a[1..], b);
    }
  }

  lemma CoresOne(t: Timer)
    ensures Cores([t]) == multiset{(t.id, t.period)} && Cores([]) == multiset{}
  {
    assert [t][1..] == [];
  }

  lemma PlaceCores(s: seq<Timer>, t: Timer)
    ensures Cores(Place(s, t)) == Cores(s) + Cores([t])
  {
    hide Cores, Slot;
    var k := Slot(s, t.when);
    assert s == s[..k] + s[k..];
    CoresConcat(s[..k], s[k..]);
    CoresConcat(s[..k] + [t], s[k..]);
    CoresConcat(s[..k], [t]);
  }

  lemma {:induction false} BearCores(l: Line, births: seq<Birth>)
    requires l.k <= |l.list|
    ensures Cores(Bear(l, births).list) == Cores(l.list) + Cores(Newborns(births, l.nextId))
    decreases |births|
  {
    hide Place, Slot, Cores;
    if births == [] {
      CoresOne(Newborn(Birth(0, 0), 0));
    } else {
      var t := Newborn(births[0], l.nextId);
      PlaceCores(l.list, t);
      CoresConcat([t], Newborns(births[1..], l.nextId + 1));
      BearCores(Settle(l, t), births[1..]);
    }
  }

  lemma {:induction false} ReputCores(list: seq<Timer>, kept: seq<Timer>)
    ensures Cores(Reput(list, kept)) == Cores(list) + Cores(kept)
    decreases |kept|
  {
    hide Place, Cores;
    if kept == [] {
      CoresOne(Newborn(Birth(0, 0), 0));
    } else {
      var last, front := kept[|kept| - 1], kept[..|kept| - 1];
      assert kept == front + [last];
      CoresConcat(front, [last]);
      PlaceCores(list, last);
      ReputCores(Place(list, last), front);
    }
  }

  lemma UnlinkedBags(l: Line)
    requires l.k < |l.list|
    ensures multiset(l.list) == multiset(Unlinked(l).list) + multiset{l.list[l.k]}
    ensures Cores(l.list) == Cores(Unlinked(l).list) + Cores([l.list[l.k]])
    ensures Unlinked(l).nextId == l.nextId
  {
    hide Cores;
    var a, t, b := l.list[..l.k], l.list[l.k], l.list[l.k + 1..];
    assert l.list == (a + [t]) + b;
    CoresConcat(a + [t], b);
    CoresConcat(a, [t]);
    CoresConcat(a, b);
  }

  // Timers are neither lost nor made up: the queue and the fired timers are the
  // queue before and the newborns, deadlines included.
  lemma {:induction false} RunBag(l: Line, all: bool, clock: nat -> int, script: nat -> Outcome, j: nat, quiet: nat)
    requires l.k <= |l.list| && Quiet(script, quiet)
    ensures var r := Run(l, all, clock, script, j, quiet);
      multiset(r.list) + multiset(r.fired) == multiset(l.list) + multiset(r.born)
    decreases if j < quiet then quiet - j else 0, |l.list| - l.k
  {
    hide Bear, Newborns, Unlinked;
    if Due(l, all, clock(j)) {
      var t, out, l' := l.list[l.k], script(j), Bear(Unlinked(l), script(j).created);
      UnlinkedBags(l);
      BearBag(Unlinked(l), out.created);
      RunBag(l', all, clock, script, j + 1, quiet);
      var r := Run(l', all, clock, script, j + 1, quiet);
      BagStep(multiset(r.list), multiset(r.fired), multiset(Unlinked(l).list),
        multiset(Newborns(out.created, l.nextId)), multiset(r.born), multiset{t});
    }
  }

  // A fired timer is kept, with a new deadline, or has ended.
  lemma {:induction false} RunCores(l: Line, all: bool, clock: nat -> int, script: nat -> Outcome, j: nat, quiet: nat)
    requires l.k <= |l.list| && Quiet(script, quiet)
    ensures var r := Run(l, all, clock, script, j, quiet);
      Cores(r.list) + Cores(r.kept) + Cores(r.ended) == Cores(l.list) + Cores(r.born)
    decreases if j < quiet then quiet - j else 0, |l.list| - l.k
  {
    hide Bear, Newborns, Unlinked, Cores;
    if Due(l, all, clock(j)) {
      var t, out, l' := l.list[l.k], script(j), Bear(Unlinked(l), script(j).created);
      UnlinkedBags(l);
      BearCores(Unlinked(l), out.created);
      RunCores(l', all, clock, script, j + 1, quiet);
      var r := Run(l', all, clock, script, j + 1, quiet);
      var t' := Reschedule(t, clock(j), out.ret);
      CoresOne(t);
      CoresOne(t');
      CoresConcat([t'], r.kept);
      CoresConcat([t], r.ended);
      CoresConcat(Newborns(out.created, l.nextId), r.born);
      BagStep(Cores(r.list) + Cores(r.kept), Cores(r.ended), Cores(Unlinked(l).list),
        Cores(Newborns(out.created, l.nextId)), Cores(r.born), Cores([t]));
      BagSwap(Cores(r.list), Cores([t]), Cores(r.kept), Cores(r.ended));
    } else {
      CoresOne(Newborn(Birth(0, 0), 0));
    }
  }

  lemma BagSwap<T>(a: multiset<T>, b: multiset<T>, c: multiset<T>, d: multiset<T>)
    ensures a + (b + c) + d == a + c + (b + d)
  {
  }

  lemma BagStep<T>(rl: multiset<T>, rf: multiset<T>, l0: multiset<T>, nb: multiset<T>, rb: multiset<T>, t: multiset<T>)
    requires rl + rf == (l0 + nb) + rb
    ensures rl + (t + rf) == (l0 + t) + (nb + rb)
  {
    assert rl + (t + rf) == t + (rl + rf);
  }

  // ----- Each timer at most once -----

  ghost predicate UniqueIds(s: seq<Timer>) {
    forall i, j :: 0 <= i < j < |s| ==> s[i].id != s[j].id
  }

  // Ids are unique and below the next one to be given.
  ghost predicate FreshIds(s: seq<Timer>, nextId: int) {
    UniqueIds(s) && forall t :: t in s ==> t.id < nextId
  }

  lemma PlaceFresh(s: seq<Timer>, t: Timer)
    requires FreshIds(s, t.id)
    ensures FreshIds(Place(s, t), t.id + 1)
  {
    var k := Slot(s, t.when);
    var s' := Place(s, t);
    forall i, j | 0 <= i < j < |s'| ensures s'[i].id != s'[j].id {
      assert i != k ==> s'[i] == s[if i < k then i else i - 1];
      assert j != k ==> s'[j] == s[if j < k then j else j - 1];
    }
  }

  ghost predicate Known(s: seq<Timer>, id: int) {
    exists i :: 0 <= i < |s| && s[i].id == id
  }

  // Where the first timer of this id stands; the length of the queue if there is none.
  ghost function Position(s: seq<Timer>, id: int): (k: nat)
    ensures k <= |s| && (k < |s| ==> s[k].id == id) && forall i :: 0 <= i < k ==> s[i].id != id
  {
    if s == [] || s[0].id == id then 0 else 1 + Position(s[1..], id)
  }

  lemma {:induction false} PositionIs(s: seq<Timer>, id: int, k: nat)
    requires k <= |s| && (k < |s| ==> s[k].id == id) && forall i :: 0 <= i < k ==> s[i].id != id
    ensures Position(s, id) == k
  {
    if k > 0 {
      PositionIs(s[1..], id, k - 1);
    }
  }

  ghost function Cancelled(s: seq<Timer>, id: int): seq<Timer> {
    var k := Position(s, id);
    if k < |s| then s[..k] + s[k + 1..] else s
  }

  // The same queue without one timer of this id.
  ghost predicate TakenOut(s: seq<Timer>, s': seq<Timer>, id: int) {
    exists i :: 0 <= i < |s| && s[i].id == id && s' == s[..i] + s[i + 1..]
  }

  lemma PlaceKnown(s: seq<Timer>, t: Timer)
    ensures forall id :: Known(Place(s, t), id) ==> id == t.id || Known(s, id)
  {
    var k := Slot(s, t.when);
    var s' := Place(s, t);
    forall id | Known(s', id) && id != t.id ensures Known(s, id) {
      var i :| 0 <= i < |s'| && s'[i].id == id;
      assert i != k ==> s'[i] == s[if i < k then i else i - 1];
    }
  }

  lemma {:induction false} BearFresh(l: Line, births: seq<Birth>)
    requires l.k <= |l.list| && FreshIds(l.list, l.nextId)
    ensures FreshIds(Bear(l, births).list, Bear(l, births).nextId)
    ensures forall id :: Known(Bear(l, births).list, id) ==> id >= l.nextId || Known(l.list, id)
    decreases |births|
  {
    hide Place, Slot, FreshIds, Known;
    if births != [] {
      var t := Newborn(births[0], l.nextId);
      PlaceFresh(l.list, t);
      PlaceKnown(l.list, t);
      BearFresh(Settle(l, t), births[1..]);
    }
  }

  lemma UnlinkedFresh(l: Line)
    requires l.k < |l.list| && FreshIds(l.list, l.nextId)
    ensures FreshIds(Unlinked(l).list, l.nextId) && Unlinked(l).nextId == l.nextId
    ensures forall id :: Known(Unlinked(l).list, id) ==> id != l.list[l.k].id && Known(l.list, id)
    ensures l.list[l.k].id < l.nextId && Known(l.list, l.list[l.k].id)
  {
    var s := Unlinked(l).list;
    assert forall i :: 0 <= i < |s| ==> s[i] == l.list[if i < l.k then i else i + 1];
  }

  // A timer fires at most once in a pass, even when it is put back at once.
  lemma {:induction false} RunOnce(l: Line, all: bool, clock: nat -> int, script: nat -> Outcome, j: nat, quiet: nat)
    requires l.k <= |l.list| && Quiet(script, quiet) && FreshIds(l.list, l.nextId)
    ensures UniqueIds(Run(l, all, clock, script, j, quiet).fired)
    ensures forall id :: Known(Run(l, all, clock, script, j, quiet).fired, id) ==> id >= l.nextId || Known(l.list, id)
    decreases if j < quiet then quiet - j else 0, |l.list| - l.k
  {
    hide Bear, Newborns, Unlinked, FreshIds, UniqueIds, Known;
    if Due(l, all, clock(j)) {
      var l' := Bear(Unlinked(l), script(j).created);
      UnlinkedFresh(l);
      BearFresh(Unlinked(l), script(j).created);
      RunOnce(l', all, clock, script, j + 1, quiet);
      FiredOnce(l.list[l.k], Run(l', all, clock, script, j + 1, quiet).fired);
    } else {
      NothingFired();
    }
  }

  lemma FiredOnce(t: Timer, fired: seq<Timer>)
    requires UniqueIds(fired) && !Known(fired, t.id)
    ensures UniqueIds([t] + fired)
    ensures forall id :: Known([t] + fired, id) ==> id == t.id || Known(fired, id)
  {
    var s := [t] + fired;
    assert forall i :: 0 < i < |s| ==> s[i] == fired[i - 1];
  }

  lemma NothingFired()
    ensures UniqueIds([]) && forall id :: !Known([], id)
  {
  }

  // ----- Which timers fire -----

  // The timers with an id below `base`: those that were there at the start.
  ghost function Older(s: seq<Timer>, base: int): seq<Timer> {
    if s == [] then [] else (if s[0].id < base then [s[0]] else []) + Older(s[1..], base)
  }

  lemma {:induction false} OlderConcat(a: seq<Timer>, b: seq<Timer>, base: int)
    ensures Older(a + b, base) == Older(a, base) + Older(b, base)
  {
    if a == [] {
      assert a + b == b;
    } else {
      assert (a + b)[1..] == a[1..] + b;
      OlderConcat(a[1..], b, base);
    }
  }

  lemma {:induction false} OlderNone(s: seq<Timer>, base: int)
    requires forall i :: 0 <= i < |s| ==> s[i].id >= base
    ensures Older(s, base) == []
  {
    if s != [] {
      OlderNone(s[1..], base);
    }
  }

  lemma {:induction false} OlderIn(s: seq<Timer>, base: int)
    ensures forall t :: t in Older(s, base) ==> t in s && t.id < base
    ensures forall t :: t in s && t.id < base ==> t in Older(s, base)
  {
    if s != [] {
      OlderIn(s[1..], base);
    }
  }

  // Nothing from the start lies before the saved next timer.
  ghost predicate Passed(l: Line, base: int) {
    base <= l.nextId && l.k <= |l.list| && forall i :: 0 <= i < l.k ==> l.list[i].id >= base
  }

  lemma SettlePassed(l: Line, t: Timer, base: int)
    requires Passed(l, base) && t.id >= base
    ensures Passed(Settle(l, t), base) && Older(Settle(l, t).list, base) == Older(l.list, base)
  {
    var k := Slot(l.list, t.when);
    assert l.list == l.list[..k] + l.list[k..];
    OlderConcat(l.list[..k], l.list[k..], base);
    OlderConcat(l.list[..k] + [t], l.list[k..], base);
    OlderConcat(l.list[..k], [t], base);
    var l' := Settle(l, t);
    assert forall i :: 0 <= i < |l'.list| && i != k ==> l'.list[i] == l.list[if i < k then i else i - 1];
  }

  lemma {:induction false} BearPassed(l: Line, births: seq<Birth>, base: int)
    requires Passed(l, base)
    ensures Passed(Bear(l, births), base) && Older(Bear(l, births).list, base) == Older(l.list, base)
    decreases |births|
  {
    hide Settle, Passed, Older;
    LineOf(l, base);
    if births != [] {
      var t := Newborn(births[0], l.nextId);
      SettlePassed(l, t, base);
      BearPassed(Settle(l, t), births[1..], base);
    }
  }

  lemma LineOf(l: Line, base: int)
    requires Passed(l, base)
    ensures base <= l.nextId && l.k <= |l.list|
  {
  }

  lemma UnlinkedPassed(l: Line, base: int)
    requires Passed(l, base) && l.k < |l.list|
    ensures Passed(Unlinked(l), base)
    ensures Older(l.list, base) == Older([l.list[l.k]], base) + Older(Unlinked(l).list, base)
  {
    var a, t, b := l.list[..l.k], l.list[l.k], l.list[l.k + 1..];
    assert l.list == a + ([t] + b);
    OlderConcat(a, [t] + b, base);
    OlderConcat([t], b, base);
    OlderConcat(a, b, base);
    OlderNone(a, base);
  }

  // Timers that were there at the start fire in queue order, and those that do
  // not fire were not due at the clock that stopped the pass. When the clock went
  // backwards they all fire.
  lemma {:induction false} RunFires(l: Line, all: bool, clock: nat -> int, script: nat -> Outcome, j: nat, quiet: nat, base: int)
    requires l.k <= |l.list| && Quiet(script, quiet) && Sorted(l.list) && Passed(l, base)
    ensures var r := Run(l, all, clock, script, j, quiet);
      && Older(r.fired, base) + Older(r.list, base) == Older(l.list, base)
      && (r.stop.None? ==> Older(r.list, base) == [])
      && (r.stop.Some? ==> !all && forall t :: t in Older(r.list, base) ==> t.when > r.stop.value)
    decreases if j < quiet then quiet - j else 0, |l.list| - l.k
  {
    hide Bear, Newborns, Unlinked, Sorted, Passed, Older;
    if Due(l, all, clock(j)) {
      var t, l' := l.list[l.k], Bear(Unlinked(l), script(j).created);
      UnlinkedSorted(l);
      UnlinkedPassed(l, base);
      BearSorted(Unlinked(l), script(j).created);
      BearPassed(Unlinked(l), script(j).created, base);
      RunFires(l', all, clock, script, j + 1, quiet, base);
      var r := Run(l', all, clock, script, j + 1, quiet);
      OlderConcat([t], r.fired, base);
      assert (Older([t], base) + Older(r.fired, base)) + Older(r.list, base) ==
        Older([t], base) + (Older(r.fired, base) + Older(r.list, base));
    } else {
      StoppedOlder(l, base, clock(j));
    }
  }

  lemma StoppedOlder(l: Line, base: int, now: int)
    requires Passed(l, base) && Sorted(l.list)
    ensures Older([], base) == []
    ensures l.k == |l.list| ==> Older(l.list, base) == []
    ensures l.k < |l.list| && now < l.list[l.k].when ==> forall t :: t in Older(l.list, base) ==> t.when > now
  {
    OlderIn(l.list, base);
    if l.k == |l.list| {
      OlderNone(l.list, base);
    } else if now < l.list[l.k].when {
      forall t | t in Older(l.list, base) ensures t.when > now {
        var i :| 0 <= i < |l.list| && l.list[i] == t;
        assert i >= l.k;
      }
    }
  }

  // ----- What becomes of the fired timers -----

  // The timers to be put back and those that ended, from the timers fired and what
  // their callbacks returned.
  ghost function Returning(fired: seq<Timer>, clock: nat -> int, script: nat -> Outcome, j: nat): seq<Timer> {
    if fired == [] then []
    else
      var first := if script(j).ret <= TIMER_END then [] else [Reschedule(fired[0], clock(j), script(j).ret)];
      first + Returning(fired[1..], clock, script, j + 1)
  }

  ghost function Ending(fired: seq<Timer>, script: nat -> Outcome, j: nat): seq<Timer> {
    if fired == [] then []
    else (if script(j).ret <= TIMER_END then [fired[0]] else []) + Ending(fired[1..], script, j + 1)
  }

  // Unless all are to fire, only timers fire that are due at their own clock sample.
  ghost predicate DueAt(fired: seq<Timer>, clock: nat -> int, j: nat) {
    forall i :: 0 <= i < |fired| ==> clock(j + i) >= fired[i].when
  }

  lemma {:induction false} RunDue(l: Line, all: bool, clock: nat -> int, script: nat -> Outcome, j: nat, quiet: nat)
    requires l.k <= |l.list| && Quiet(script, quiet)
    ensures var r := Run(l, all, clock, script, j, quiet);
      && (all || DueAt(r.fired, clock, j))
      && r.kept == Returning(r.fired, clock, script, j) && r.ended == Ending(r.fired, script, j)
      && (r.stop.Some? ==> r.stop.value == clock(j + |r.fired|))
    decreases if j < quiet then quiet - j else 0, |l.list| - l.k
  {
    hide Bear, Newborns, Unlinked, Reschedule;
    if Due(l, all, clock(j)) {
      var l' := Bear(Unlinked(l), script(j).created);
      RunDue(l', all, clock, script, j + 1, quiet);
      var r', r := Run(l', all, clock, script, j + 1, quiet), Run(l, all, clock, script, j, quiet);
      assert r.fired[1..] == r'.fired;
      if !all {
        DueOneMore(l.list[l.k], r'.fired, clock, j);
      }
    }
  }

  lemma DueOneMore(t: Timer, fired: seq<Timer>, clock: nat -> int, j: nat)
    requires DueAt(fired, clock, j + 1) && clock(j) >= t.when
    ensures DueAt([t] + fired, clock, j)
  {
    var s := [t] + fired;
    forall i | 0 <= i < |s| ensures clock(j + i) >= s[i].when {
      assert i > 0 ==> clock(j + 1 + (i - 1)) >= fired[i - 1].when;
    }
  }

  // ----- Ids after a pass -----

  lemma {:induction false} RunFresh(l: Line, all: bool, clock: nat -> int, script: nat -> Outcome, j: nat, quiet: nat)
    requires l.k <= |l.list| && Quiet(script, quiet) && FreshIds(l.list, l.nextId)
    ensures var r := Run(l, all, clock, script, j, quiet);
      && FreshIds(r.kept + r.list, r.nextId) && r.nextId >= l.nextId
      && forall id :: Known(r.kept + r.list, id) ==> id >= l.nextId || Known(l.list, id)
    decreases if j < quiet then quiet - j else 0, |l.list| - l.k
  {
    hide Bear, Newborns, Unlinked, FreshIds, Known;
    if Due(l, all, clock(j)) {
      var t, l', out := l.list[l.k], Bear(Unlinked(l), script(j).created), script(j);
      UnlinkedFresh(l);
      BearFresh(Unlinked(l), out.created);
      BearNextId(Unlinked(l), out.created);
      RunFresh(l', all, clock, script, j + 1, quiet);
      var r := Run(l', all, clock, script, j + 1, quiet);
      var t' := Reschedule(t, clock(j), out.ret);
      FreshCons(t', r.kept + r.list, r.nextId);
      assert [t'] + (r.kept + r.list) == ([t'] + r.kept) + r.list;
    } else {
      assert [] + l.list == l.list;
    }
  }

  lemma BearNextId(l: Line, births: seq<Birth>)
    requires l.k <= |l.list|
    ensures Bear(l, births).nextId >= l.nextId
  {
  }

  lemma FreshCons(t: Timer, s: seq<Timer>, nextId: int)
    requires FreshIds(s, nextId) && !Known(s, t.id) && t.id < nextId
    ensures FreshIds([t] + s, nextId)
    ensures forall id :: Known([t] + s, id) ==> id == t.id || Known(s, id)
  {
    var s' := [t] + s;
    assert forall i :: 0 < i < |s'| ==> s'[i] == s[i - 1];
  }

  lemma {:induction false} ReputFresh(list: seq<Timer>, kept: seq<Timer>, nextId: int)
    requires FreshIds(kept + list, nextId)
    ensures FreshIds(Reput(list, kept), nextId)
    decreases |kept|
  {
    hide Place;
    if kept == [] {
      assert kept + list == list;
    } else {
      var last, front := kept[|kept| - 1], kept[..|kept| - 1];
      assert kept + list == front + [last] + list;
      FreshMove(front, last, list, nextId);
      ReputFresh(Place(list, last), front, nextId);
    }
  }

  lemma FreshMove(a: seq<Timer>, t: Timer, b: seq<Timer>, nextId: int)
    requires FreshIds(a + [t] + b, nextId)
    ensures FreshIds(a + Place(b, t), nextId)
  {
    var s, s' := a + [t] + b, a + Place(b, t);
    var k := |a| + Slot(b, t.when);
    assert forall i :: 0 <= i < |s'| ==>
      s'[i] == s[if i < |a| then i else if i < k then i + 1 else if i == k then |a| else i];
  }

  // ----- The pass as a whole -----

  ghost function PassResult(list: seq<Timer>, nextId: int, all: bool, clock: nat -> int,
                            script: nat -> Outcome, quiet: nat): Result
    requires Quiet(script, quiet)
  {
    Run(Line(list, 0, nextId), all, clock, script, 0, quiet)
  }

  // The queue after a pass, fired timers put back.
  ghost function PassQueue(list: seq<Timer>, nextId: int, all: bool, clock: nat -> int,
                           script: nat -> Outcome, quiet: nat): seq<Timer>
    requires Quiet(script, quiet)
  {
    var r := PassResult(list, nextId, all, clock, script, quiet);
    Reput(r.list, r.kept)
  }

  // The queue stays sorted, ids stay unique, ties are broken in favour of the
  // timers put back and among those in firing order, no timer is lost, none fires
  // twice, and of the timers there at the start the first ones fire, in order, up
  // to the first that was not due. Only due timers fire, and what becomes of a
  // fired timer is what its callback returned.
  lemma PassTheorem(list: seq<Timer>, nextId: int, all: bool, clock: nat -> int, script: nat -> Outcome, quiet: nat)
    requires Quiet(script, quiet) && Sorted(list) && FreshIds(list, nextId)
    ensures var r := PassResult(list, nextId, all, clock, script, quiet);
      var q := PassQueue(list, nextId, all, clock, script, quiet);
      && Sorted(q) && FreshIds(q, r.nextId)
      && (forall w :: At(q, w) == At(r.kept, w) + At(r.list, w))
      && Cores(q) + Cores(r.ended) == Cores(list) + Cores(r.born)
      && UniqueIds(r.fired)
      && Older(r.fired, nextId) + Older(r.list, nextId) == list
      && (r.stop.None? ==> Older(r.list, nextId) == [])
      && (r.stop.Some? ==> !all && forall t :: t in Older(r.list, nextId) ==> t.when > r.stop.value)
      && (all || DueAt(r.fired, clock, 0)) && (r.stop.Some? ==> r.stop.value == clock(|r.fired|))
      && r.kept == Returning(r.fired, clock, script, 0) && r.ended == Ending(r.fired, script, 0)
  {
    hide Run, Reput, Returning, Ending, DueAt, At, Cores, FreshIds, UniqueIds, Sorted, Older, Passed;
    var l := Line(list, 0, nextId);
    var r := PassResult(list, nextId, all, clock, script, quiet);
    RunSorted(l, all, clock, script, 0, quiet);
    RunCores(l, all, clock, script, 0, quiet);
    RunOnce(l, all, clock, script, 0, quiet);
    RunDue(l, all, clock, script, 0, quiet);
    RunFresh(l, all, clock, script, 0, quiet);
    PassedAtStart(list, nextId);
    RunFires(l, all, clock, script, 0, quiet, nextId);
    ReputSorted(r.list, r.kept);
    ReputFresh(r.list, r.kept, r.nextId);
    forall w ensures At(Reput(r.list, r.kept), w) == At(r.kept, w) + At(r.list, w) {
      ReputStable(r.list, r.kept, w);
    }
    ReputCores(r.list, r.kept);
  }

  lemma {:induction false} PassedAtStart(list: seq<Timer>, nextId: int)
    requires FreshIds(list, nextId)
    ensures Passed(Line(list, 0, nextId), nextId) && Older(list, nextId) == list
  {
    if list != [] {
      PassedAtStart(list[1..], nextId);
    }
  }
}

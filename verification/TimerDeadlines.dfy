// What a pass leaves of each timer that fired, in numbers, and when it fires again.

module TimerDeadlines {
  import opened Options
  import opened TimerModel

  // A callback that returns a negative number ends its timer, 0 lets it wait its
  // period again and a positive number that many milliseconds.
  ghost predicate Settled(fired: seq<Timer>, queue: seq<Timer>, clock: nat -> int, script: nat -> Outcome) {
    forall i :: 0 <= i < |fired| ==>
      var t, ret := fired[i], script(i).ret;
      && (ret < 0 ==> !Known(queue, t.id))
      && (ret == 0 ==> Timer(t.id, t.period, clock(i) + t.period) in queue)
      && (ret > 0 ==> Timer(t.id, t.period, clock(i) + ret) in queue)
  }

  // Timers that did not fire are as they were.
  ghost predicate Untouched(list: seq<Timer>, fired: seq<Timer>, queue: seq<Timer>) {
    forall t :: t in list && t !in fired ==> t in queue
  }

  lemma {:induction false} ReputBag(list: seq<Timer>, kept: seq<Timer>)
    ensures multiset(Reput(list, kept)) == multiset(list) + multiset(kept)
    decreases |kept|
  {
    hide Place;
    if kept != [] {
      var last, front := kept[|kept| - 1], kept[..|kept| - 1];
      assert kept == front + [last];
      PlaceBag(list, last);
      ReputBag(Place(list, last), front);
    }
  }

  lemma ReputIn(list: seq<Timer>, kept: seq<Timer>, t: Timer)
    ensures t in Reput(list, kept) <==> t in list || t in kept
  {
    ReputBag(list, kept);
    assert t in multiset(Reput(list, kept)) <==> t in multiset(list) + multiset(kept);
  }

  lemma {:induction false} ReturningHas(fired: seq<Timer>, clock: nat -> int, script: nat -> Outcome, j: nat, i: nat)
    requires i < |fired| && script(j + i).ret >= 0
    ensures var t, ret := fired[i], script(j + i).ret;
      Timer(t.id, t.period, clock(j + i) + if ret == 0 then t.period else ret) in Returning(fired, clock, script, j)
  {
    if i > 0 {
      ReturningHas(fired[1..], clock, script, j + 1, i - 1);
      assert (j + 1) + (i - 1) == j + i;
    }
  }

  // A pass by its first call.
  lemma RunCall(l: Line, all: bool, clock: nat -> int, script: nat -> Outcome, j: nat, quiet: nat)
    requires l.k <= |l.list| && Quiet(script, quiet) && Due(l, all, clock(j))
    ensures var l' := Bear(Unlinked(l), script(j).created);
      var r, r' := Run(l, all, clock, script, j, quiet), Run(l', all, clock, script, j + 1, quiet);
      && l'.nextId == l.nextId + |script(j).created|
      && r.list == r'.list && r.fired == [l.list[l.k]] + r'.fired
      && r.born == Newborns(script(j).created, l.nextId) + r'.born && r.nextId == r'.nextId
      && r.kept == (if script(j).ret < 0 then [] else [Reschedule(l.list[l.k], clock(j), script(j).ret)]) + r'.kept
  {
    hide Newborns, Reschedule;
  }

  lemma RunOver(l: Line, all: bool, clock: nat -> int, script: nat -> Outcome, j: nat, quiet: nat)
    requires l.k <= |l.list| && Quiet(script, quiet) && !Due(l, all, clock(j))
    ensures var r := Run(l, all, clock, script, j, quiet); r.fired == [] && r.born == [] && r.nextId == l.nextId
  {
  }

  // No timer with the id of an ended one is left.
  lemma {:induction false} RunEnded(l: Line, all: bool, clock: nat -> int, script: nat -> Outcome, j: nat, quiet: nat, i: nat)
    requires l.k <= |l.list| && Quiet(script, quiet) && FreshIds(l.list, l.nextId)
    requires i < |Run(l, all, clock, script, j, quiet).fired| && script(j + i).ret < 0
    ensures var r := Run(l, all, clock, script, j, quiet); !Known(r.kept + r.list, r.fired[i].id)
    decreases if j < quiet then quiet - j else 0, |l.list| - l.k
  {
    hide Bear, Newborns, Unlinked, FreshIds, Known, Run, Reschedule;
    if !Due(l, all, clock(j)) {
      RunOver(l, all, clock, script, j, quiet);
      assert false;
    }
    RunCall(l, all, clock, script, j, quiet);
    var t, l', out := l.list[l.k], Bear(Unlinked(l), script(j).created), script(j);
    UnlinkedFresh(l);
    BearFresh(Unlinked(l), out.created);
    BearNextId(Unlinked(l), out.created);
    var r := Run(l', all, clock, script, j + 1, quiet);
    RunFresh(l', all, clock, script, j + 1, quiet);
    assert [] + r.kept == r.kept;
    if i > 0 {
      assert (j + 1) + (i - 1) == j + i;
      RunEnded(l', all, clock, script, j + 1, quiet, i - 1);
      RunOnce(l', all, clock, script, j + 1, quiet);
      KnownAt(r.fired, i - 1);
      var t' := Reschedule(t, clock(j), out.ret);
      assert t'.id == t.id by { RescheduleId(t, clock(j), out.ret); }
      if out.ret >= 0 {
        KnownMore(t', r.kept, r.list, r.fired[i - 1].id);
      }
    }
  }

  lemma RescheduleId(t: Timer, now: int, ret: int)
    ensures Reschedule(t, now, ret).id == t.id
  {
  }

  lemma KnownAt(s: seq<Timer>, i: nat)
    requires i < |s|
    ensures Known(s, s[i].id)
  {
  }

  lemma KnownMore(t: Timer, kept: seq<Timer>, list: seq<Timer>, id: int)
    requires t.id != id && !Known(kept + list, id)
    ensures !Known([t] + kept + list, id)
  {
    var s := [t] + kept + list;
    assert forall i :: 0 < i < |s| ==> s[i] == (kept + list)[i - 1];
  }

  lemma ReputKnown(list: seq<Timer>, kept: seq<Timer>, id: int)
    requires !Known(kept + list, id)
    ensures !Known(Reput(list, kept), id)
  {
    var q := Reput(list, kept);
    forall i | 0 <= i < |q| ensures q[i].id != id {
      ReputIn(list, kept, q[i]);
      assert q[i] in kept + list;
    }
  }

  lemma PassSettled(list: seq<Timer>, nextId: int, all: bool, clock: nat -> int, script: nat -> Outcome, quiet: nat)
    requires Quiet(script, quiet) && Sorted(list) && FreshIds(list, nextId)
    ensures var r := PassResult(list, nextId, all, clock, script, quiet);
      var q := PassQueue(list, nextId, all, clock, script, quiet);
      Settled(r.fired, q, clock, script) && Untouched(list, r.fired, q)
  {
    hide Run, Reput, Returning, FreshIds, Known;
    var l := Line(list, 0, nextId);
    var r := PassResult(list, nextId, all, clock, script, quiet);
    RunDue(l, all, clock, script, 0, quiet);
    forall i | 0 <= i < |r.fired| && script(i).ret < 0 ensures !Known(Reput(r.list, r.kept), r.fired[i].id) {
      RunEnded(l, all, clock, script, 0, quiet, i);
      ReputKnown(r.list, r.kept, r.fired[i].id);
    }
    forall i | 0 <= i < |r.fired| && script(i).ret >= 0
      ensures var t, ret := r.fired[i], script(i).ret;
        Timer(t.id, t.period, clock(i) + if ret == 0 then t.period else ret) in Reput(r.list, r.kept)
    {
      var t, ret := r.fired[i], script(i).ret;
      ReturningHas(r.fired, clock, script, 0, i);
      ReputIn(r.list, r.kept, Timer(t.id, t.period, clock(i) + if ret == 0 then t.period else ret));
    }
    RunBag(l, all, clock, script, 0, quiet);
    forall t | t in list && t !in r.fired ensures t in Reput(r.list, r.kept) {
      assert t in multiset(list) + multiset(r.born);
      ReputIn(r.list, r.kept, t);
    }
  }

  // ----- When a timer in the queue fires -----

  // Unless all are to fire, it fires only at a clock sample that has reached its
  // deadline; and it fires if all do, or if all samples have reached it.
  lemma FiresWhenReached(list: seq<Timer>, nextId: int, all: bool, clock: nat -> int, script: nat -> Outcome, quiet: nat, t: Timer)
    requires Quiet(script, quiet) && Sorted(list) && FreshIds(list, nextId) && t in list
    ensures var fired := PassResult(list, nextId, all, clock, script, quiet).fired;
      && (!all ==> forall j :: 0 <= j < |fired| && fired[j].id == t.id ==> clock(j) >= t.when)
      && (all || (forall j :: 0 <= j <= |fired| ==> clock(j) >= t.when) ==> t in fired)
  {
    hide Run, Reput, Returning, Ending, At, Cores, Sorted, Older;
    PassTheorem(list, nextId, all, clock, script, quiet);
    var r := PassResult(list, nextId, all, clock, script, quiet);
    OlderIn(r.fired, nextId);
    OlderIn(r.list, nextId);
    assert t in Older(r.fired, nextId) + Older(r.list, nextId);
    forall j | !all && 0 <= j < |r.fired| && r.fired[j].id == t.id ensures clock(j) >= t.when {
      assert r.fired[j] in Older(r.fired, nextId) + Older(r.list, nextId);
      SameId(list, r.fired[j], t);
      assert clock(0 + j) >= r.fired[j].when;
    }
  }

  lemma SameId(list: seq<Timer>, t: Timer, u: Timer)
    requires UniqueIds(list) && t in list && u in list && t.id == u.id
    ensures t == u
  {
  }

  // A timer that fired and goes on, in a second pass: it does not fire before the
  // clock has reached the deadline it was given, and it fires once that is reached.
  lemma SecondPass(list: seq<Timer>, nextId: int, all: bool, clock: nat -> int, script: nat -> Outcome, quiet: nat,
                   all': bool, clock': nat -> int, script': nat -> Outcome, quiet': nat, i: nat)
    requires Quiet(script, quiet) && Quiet(script', quiet') && Sorted(list) && FreshIds(list, nextId)
    requires i < |PassResult(list, nextId, all, clock, script, quiet).fired| && script(i).ret >= 0
    ensures var r := PassResult(list, nextId, all, clock, script, quiet);
      var q := PassQueue(list, nextId, all, clock, script, quiet);
      var deadline := clock(i) + if script(i).ret == 0 then r.fired[i].period else script(i).ret;
      var fired := PassResult(q, r.nextId, all', clock', script', quiet').fired;
      && (!all' && (forall j :: 0 <= j < |fired| ==> clock'(j) < deadline) ==> !Known(fired, r.fired[i].id))
      && (!all' ==> forall j :: 0 <= j < |fired| && fired[j].id == r.fired[i].id ==> clock'(j) >= deadline)
      && (all' || (forall j :: 0 <= j <= |fired| ==> clock'(j) >= deadline) ==> Known(fired, r.fired[i].id))
  {
    hide Run, Reput, Sorted, FreshIds;
    var r := PassResult(list, nextId, all, clock, script, quiet);
    var q := PassQueue(list, nextId, all, clock, script, quiet);
    var deadline := clock(i) + if script(i).ret == 0 then r.fired[i].period else script(i).ret;
    var t := Timer(r.fired[i].id, r.fired[i].period, deadline);
    assert t in q by {
      PassSettled(list, nextId, all, clock, script, quiet);
    }
    assert Sorted(q) && FreshIds(q, r.nextId) by {
      PassTheorem(list, nextId, all, clock, script, quiet);
    }
    FiresWhenReached(q, r.nextId, all', clock', script', quiet', t);
  }

  // ----- Timers created by callbacks -----

  // All that the first `n` calls from the `j`-th on create, in turn.
  ghost function Births(script: nat -> Outcome, j: nat, n: nat): seq<Birth>
    decreases n
  {
    if n == 0 then [] else script(j).created + Births(script, j + 1, n - 1)
  }

  // Timers made of these births, with ids from `id` on.
  ghost predicate MadeOf(born: seq<Timer>, births: seq<Birth>, id: int) {
    && |born| == |births|
    && forall i :: 0 <= i < |births| ==> born[i] == Timer(id + i, births[i].period, births[i].clock + births[i].period)
  }

  lemma MadeOfBoth(born: seq<Timer>, births: seq<Birth>, id: int, born': seq<Timer>, births': seq<Birth>)
    requires MadeOf(born, births, id) && MadeOf(born', births', id + |births|)
    ensures MadeOf(born + born', births + births', id)
  {
  }

  lemma {:induction false} NewbornIs(births: seq<Birth>, id: int)
    ensures MadeOf(Newborns(births, id), births, id)
  {
    if births != [] {
      NewbornIs(births[1..], id + 1);
    }
  }

  lemma BirthsMore(script: nat -> Outcome, j: nat, n: nat)
    ensures Births(script, j, n + 1) == script(j).created + Births(script, j + 1, n)
  {
  }

  lemma MadeOfNone(id: int)
    ensures MadeOf([], [], id)
  {
  }

  // They get the next ids and are due one period after the clock read for them.
  lemma {:induction false} BornIs(l: Line, all: bool, clock: nat -> int, script: nat -> Outcome, j: nat, quiet: nat)
    requires l.k <= |l.list| && Quiet(script, quiet)
    ensures var r := Run(l, all, clock, script, j, quiet);
      var births := Births(script, j, |r.fired|);
      MadeOf(r.born, births, l.nextId) && r.nextId == l.nextId + |births|
    decreases if j < quiet then quiet - j else 0, |l.list| - l.k
  {
    hide Newborns, MadeOf, Run, Bear, Unlinked;
    if Due(l, all, clock(j)) {
      RunCall(l, all, clock, script, j, quiet);
      var created, l' := script(j).created, Bear(Unlinked(l), script(j).created);
      NewbornIs(created, l.nextId);
      BornIs(l', all, clock, script, j + 1, quiet);
      var r', r := Run(l', all, clock, script, j + 1, quiet), Run(l, all, clock, script, j, quiet);
      var births := Births(script, j + 1, |r'.fired|);
      MadeOfBoth(Newborns(created, l.nextId), created, l.nextId, r'.born, births);
      BirthsMore(script, j, |r'.fired|);
    } else {
      RunOver(l, all, clock, script, j, quiet);
      MadeOfNone(l.nextId);
    }
  }
}

// The reader/writer spin lock of src/ez_rwlock.c as a step system: any number of
// threads, with each load, increment, decrement and exchange one atomic step.

module RwLocks {

  // What a thread does next.
  datatype Pc =
    | Idle     // outside; enters rwlock_rlock or rwlock_wlock
    | RSpin    // loads `write`, in the waiting loop
    | RInc     // increments `read`
    | RCheck   // loads `write` again
    | RBack    // takes the increment back
    | Reading  // inside as a reader; leaving decrements `read`
    | WTas     // exchanges `write` with 1
    | WWait    // has won; loads `read`
    | Writing  // inside as a writer; leaving clears `write`

  datatype State = State(write: int, read: int, pcs: seq<Pc>)

  // A turn of one thread. The wish matters where a thread is outside.
  datatype Turn = Turn(thread: nat, wish: Wish)
  datatype Wish = ToRead | ToWrite

  function Init(threads: nat): State {
    State(0, 0, seq(threads, _ => Idle))
  }

  function Step(s: State, t: Turn): (s': State)
    requires t.thread < |s.pcs|
    ensures |s'.pcs| == |s.pcs|
    ensures forall j :: 0 <= j < |s.pcs| && j != t.thread ==> s'.pcs[j] == s.pcs[j]
  {
    var i := t.thread;
    match s.pcs[i]
    case Idle => s.(pcs := s.pcs[i := if t.wish == ToRead then RSpin else WTas])
    case RSpin => if s.write != 0 then s else s.(pcs := s.pcs[i := RInc])
    case RInc => s.(read := s.read + 1, pcs := s.pcs[i := RCheck])
    case RCheck => s.(pcs := s.pcs[i := if s.write != 0 then RBack else Reading])
    case RBack => s.(read := s.read - 1, pcs := s.pcs[i := RSpin])
    case Reading => s.(read := s.read - 1, pcs := s.pcs[i := Idle])
    case WTas => s.(write := 1, pcs := s.pcs[i := if s.write != 0 then WTas else WWait])
    case WWait => if s.read != 0 then s else s.(pcs := s.pcs[i := Writing])
    case Writing => s.(write := 0, pcs := s.pcs[i := Idle])
  }

  ghost predicate Schedule(turns: seq<Turn>, threads: nat) {
    forall k :: 0 <= k < |turns| ==> turns[k].thread < threads
  }

  function Run(s: State, turns: seq<Turn>): (s': State)
    requires Schedule(turns, |s.pcs|)
    ensures |s'.pcs| == |s.pcs|
    decreases |turns|
  {
    if turns == [] then s else Run(Step(s, turns[0]), turns[1..])
  }

  // ----- Sums over the threads -----

  ghost function Sum(pcs: seq<Pc>, f: Pc -> nat): nat {
    if pcs == [] then 0 else f(pcs[0]) + Sum(pcs[1..], f)
  }

  lemma {:induction false} SumUpdate(pcs: seq<Pc>, i: nat, pc: Pc, f: Pc -> nat)
    requires i < |pcs|
    ensures Sum(pcs[i := pc], f) + f(pcs[i]) == Sum(pcs, f) + f(pc)
  {
    if i > 0 {
      SumUpdate(pcs[1..], i - 1, pc, f);
      assert pcs[i := pc][1..] == pcs[1..][i - 1 := pc];
    } else {
      assert pcs[i := pc][1..] == pcs[1..];
    }
  }

  lemma {:induction false} SumAt(pcs: seq<Pc>, i: nat, f: Pc -> nat)
    requires i < |pcs|
    ensures f(pcs[i]) <= Sum(pcs, f)
  {
    if i > 0 {
      SumAt(pcs[1..], i - 1, f);
    }
  }

  lemma {:induction false} SumAtTwo(pcs: seq<Pc>, i: nat, j: nat, f: Pc -> nat)
    requires i < j < |pcs|
    ensures f(pcs[i]) + f(pcs[j]) <= Sum(pcs, f)
  {
    if i > 0 {
      SumAtTwo(pcs[1..], i - 1, j - 1, f);
    } else {
      SumAt(pcs[1..], j - 1, f);
    }
  }

  lemma {:induction false} SumZero(pcs: seq<Pc>, f: Pc -> nat)
    requires forall i :: 0 <= i < |pcs| ==> f(pcs[i]) == 0
    ensures Sum(pcs, f) == 0
  {
    if pcs != [] {
      assert forall i :: 0 <= i < |pcs[1..]| ==> pcs[1..][i] == pcs[i + 1];
      SumZero(pcs[1..], f);
    }
  }

  // ----- Safety -----

  // The increment of this thread is in `read`.
  function Incremented(pc: Pc): nat {
    if pc in {RCheck, RBack, Reading} then 1 else 0
  }

  // This thread has won the exchange.
  function Won(pc: Pc): nat {
    if pc in {WWait, Writing} then 1 else 0
  }

  ghost predicate Invariant(s: State) {
    && s.read == Sum(s.pcs, Incremented)
    && s.write == Sum(s.pcs, Won) && s.write <= 1
    && forall i, j :: 0 <= i < |s.pcs| && 0 <= j < |s.pcs| && s.pcs[i] == Writing ==> s.pcs[j] != Reading
  }

  // What the lock is for.
  ghost predicate Exclusive(s: State) {
    && (forall i, j :: 0 <= i < j < |s.pcs| && s.pcs[i] == Writing ==> s.pcs[j] != Writing)
    && (forall i, j :: 0 <= i < |s.pcs| && 0 <= j < |s.pcs| && s.pcs[i] == Writing ==> s.pcs[j] != Reading)
  }

  lemma StepInvariant(s: State, t: Turn)
    requires Invariant(s) && t.thread < |s.pcs|
    ensures Invariant(Step(s, t))
  {
    var i, s' := t.thread, Step(s, t);
    assert s'.pcs == s.pcs[i := s'.pcs[i]];
    SumUpdate(s.pcs, i, s'.pcs[i], Incremented);
    SumUpdate(s.pcs, i, s'.pcs[i], Won);
    forall j, k | 0 <= j < |s.pcs| && 0 <= k < |s.pcs| && s'.pcs[j] == Writing ensures s'.pcs[k] != Reading {
      SumAt(s.pcs, j, Won);
      SumAt(s.pcs, k, Incremented);
    }
  }

  lemma {:induction false} RunInvariant(s: State, turns: seq<Turn>)
    requires Invariant(s) && Schedule(turns, |s.pcs|)
    ensures Invariant(Run(s, turns))
    decreases |turns|
  {
    if turns != [] {
      StepInvariant(s, turns[0]);
      RunInvariant(Step(s, turns[0]), turns[1..]);
    }
  }

  lemma InvariantExclusive(s: State)
    requires Invariant(s)
    ensures Exclusive(s)
    ensures s.write in {0, 1}
    ensures s.write == 1 <==> exists i :: 0 <= i < |s.pcs| && s.pcs[i] in {WWait, Writing}
    ensures forall i, j :: 0 <= i < j < |s.pcs| && s.pcs[i] in {WWait, Writing} ==> s.pcs[j] !in {WWait, Writing}
  {
    forall i, j | 0 <= i < j < |s.pcs| && s.pcs[i] in {WWait, Writing} ensures s.pcs[j] !in {WWait, Writing} {
      SumAtTwo(s.pcs, i, j, Won);
    }
    if s.write == 1 && forall i :: 0 <= i < |s.pcs| ==> s.pcs[i] !in {WWait, Writing} {
      SumZero(s.pcs, Won);
    }
    forall i | 0 <= i < |s.pcs| && s.pcs[i] in {WWait, Writing} ensures s.write == 1 {
      SumAt(s.pcs, i, Won);
    }
  }

  // In every state that any number of threads can reach in any interleaving.
  lemma Safety(threads: nat, turns: seq<Turn>)
    requires Schedule(turns, threads)
    ensures var s := Run(Init(threads), turns);
      && Exclusive(s) && s.write in {0, 1}
      && s.read == Sum(s.pcs, Incremented) && s.write == Sum(s.pcs, Won)
  {
    SumZero(Init(threads).pcs, Incremented);
    SumZero(Init(threads).pcs, Won);
    RunInvariant(Init(threads), turns);
    InvariantExclusive(Run(Init(threads), turns));
  }

  // ----- A waiting writer gets in -----

  // How many steps a reader can take before it is out of the way, once `write`
  // is set.
  function Weight(pc: Pc): nat {
    match pc
    case RInc => 3
    case RCheck => 2
    case RBack => 1
    case Reading => 1
    case _ => 0
  }

  ghost function Rank(s: State): nat {
    Sum(s.pcs, Weight)
  }

  // No turn lets the writer inside go.
  ghost predicate NoRelease(s: State, turns: seq<Turn>)
    requires Schedule(turns, |s.pcs|)
    decreases |turns|
  {
    turns == [] || (s.pcs[turns[0].thread] != Writing && NoRelease(Step(s, turns[0]), turns[1..]))
  }

  // The turns in which a reader does more than spin or come.
  ghost function ReaderSteps(s: State, turns: seq<Turn>): nat
    requires Schedule(turns, |s.pcs|)
    decreases |turns|
  {
    if turns == [] then 0
    else (if Weight(s.pcs[turns[0].thread]) > 0 then 1 else 0) + ReaderSteps(Step(s, turns[0]), turns[1..])
  }

  function TurnsOf(turns: seq<Turn>, i: nat): nat {
    if turns == [] then 0 else (if turns[0].thread == i then 1 else 0) + TurnsOf(turns[1..], i)
  }

  // Weight falls by one with each own step until nothing is left.
  function Less(weight: nat, steps: nat): nat {
    if weight < steps then 0 else weight - steps
  }

  // One step while `write` is set.
  lemma StepRank(s: State, t: Turn)
    requires Invariant(s) && s.write == 1 && t.thread < |s.pcs| && s.pcs[t.thread] != Writing
    ensures Step(s, t).write == 1
    ensures Weight(Step(s, t).pcs[t.thread]) == Less(Weight(s.pcs[t.thread]), 1)
    ensures Rank(Step(s, t)) == Rank(s) - if Weight(s.pcs[t.thread]) > 0 then 1 else 0
    ensures Step(s, t).pcs[t.thread] != Reading
  {
    var i, s' := t.thread, Step(s, t);
    assert s'.pcs == s.pcs[i := s'.pcs[i]];
    SumUpdate(s.pcs, i, s'.pcs[i], Weight);
  }

  // Until the writer leaves, the reader steps taken and the rank left add up, so
  // there are at most Rank(s) of them; and no reader is let in.
  lemma {:induction false} BoundedDelay(s: State, turns: seq<Turn>)
    requires Invariant(s) && s.write == 1 && Schedule(turns, |s.pcs|) && NoRelease(s, turns)
    ensures Run(s, turns).write == 1
    ensures Rank(Run(s, turns)) + ReaderSteps(s, turns) == Rank(s)
    ensures forall i :: 0 <= i < |s.pcs| ==>
      Weight(Run(s, turns).pcs[i]) == Less(Weight(s.pcs[i]), TurnsOf(turns, i))
    ensures forall i :: 0 <= i < |s.pcs| && Run(s, turns).pcs[i] == Reading ==> s.pcs[i] == Reading
    decreases |turns|
  {
    if turns != [] {
      StepRank(s, turns[0]);
      StepInvariant(s, turns[0]);
      BoundedDelay(Step(s, turns[0]), turns[1..]);
    }
  }

  // With no rank left no increment is left either.
  lemma RankZero(s: State)
    requires Invariant(s) && Rank(s) == 0
    ensures s.read == 0
  {
    forall i | 0 <= i < |s.pcs| ensures Incremented(s.pcs[i]) == 0 {
      SumAt(s.pcs, i, Weight);
    }
    SumZero(s.pcs, Incremented);
  }

  // Whatever the interleaving: once every thread has had three turns since the
  // exchange, the writer that won it is inside or enters with its next turn.
  lemma WriterEnters(s: State, turns: seq<Turn>, w: nat)
    requires Invariant(s) && w < |s.pcs| && s.pcs[w] == WWait
    requires Schedule(turns, |s.pcs|) && NoRelease(s, turns)
    requires forall i :: 0 <= i < |s.pcs| ==> i == w || TurnsOf(turns, i) >= 3
    ensures var s' := Run(s, turns); s'.pcs[w] == Writing || Step(s', Turn(w, ToWrite)).pcs[w] == Writing
  {
    SumAt(s.pcs, w, Won);
    BoundedDelay(s, turns);
    RunInvariant(s, turns);
    WinnerStays(s, turns, w);
    SumZero(Run(s, turns).pcs, Weight);
    RankZero(Run(s, turns));
  }

  // The winner stays the winner.
  lemma {:induction false} WinnerStays(s: State, turns: seq<Turn>, w: nat)
    requires Invariant(s) && w < |s.pcs| && s.pcs[w] in {WWait, Writing}
    requires Schedule(turns, |s.pcs|) && NoRelease(s, turns)
    ensures Run(s, turns).pcs[w] in {WWait, Writing}
    decreases |turns|
  {
    if turns != [] {
      StepInvariant(s, turns[0]);
      WinnerStays(Step(s, turns[0]), turns[1..], w);
    }
  }

  // ----- A reader gets in when no writer comes -----

  ghost predicate NoExchange(s: State, turns: seq<Turn>)
    requires Schedule(turns, |s.pcs|)
    decreases |turns|
  {
    turns == [] || (s.pcs[turns[0].thread] != WTas && NoExchange(Step(s, turns[0]), turns[1..]))
  }

  // The turns a reader on its way in still needs.
  function ToEnter(pc: Pc): nat {
    match pc
    case RBack => 4
    case RSpin => 3
    case RInc => 2
    case RCheck => 1
    case _ => 0
  }

  // Readers do not keep each other out, and one that has backed off tries again.
  lemma {:induction false} ReaderEnters(s: State, turns: seq<Turn>, r: nat)
    requires Invariant(s) && s.write == 0 && r < |s.pcs| && s.pcs[r] in {RSpin, RInc, RCheck, RBack, Reading}
    requires Schedule(turns, |s.pcs|) && NoExchange(s, turns) && TurnsOf(turns, r) == ToEnter(s.pcs[r])
    ensures Run(s, turns).pcs[r] == Reading && Run(s, turns).write == 0
    decreases |turns|
  {
    if turns != [] {
      SumAt(s.pcs, turns[0].thread, Won);
      StepInvariant(s, turns[0]);
      ReaderEnters(Step(s, turns[0]), turns[1..], r);
    }
  }

  // A lone writer finds the lock free: one turn to win, one to enter.
  lemma WriterAlone(s: State, turns: seq<Turn>, w: nat)
    requires w < |s.pcs| && s.pcs[w] == WTas && s.write == 0 && s.read == 0
    requires |turns| == 2 && turns[0].thread == turns[1].thread == w
    ensures Run(s, turns).pcs[w] == Writing && Run(s, turns).write == 1
  {
    var rest := turns[1..];
    assert rest[0] == turns[1] && rest[1..] == [];
    assert Run(s, turns) == Run(Step(s, turns[0]), rest) == Step(Step(s, turns[0]), turns[1]);
  }

  // ----- A call ends inside the lock -----

  // Where a thread is that has come with a wish and has not been inside since.
  ghost predicate Entering(pc: Pc, wish: Wish) {
    match wish
    case ToRead => pc in {RSpin, RInc, RCheck, RBack}
    case ToWrite => pc in {WTas, WWait}
  }

  ghost function Inside(wish: Wish): Pc {
    if wish == ToRead then Reading else Writing
  }

  lemma EnteringStep(s: State, t: Turn, i: nat, wish: Wish)
    requires i < |s.pcs| && t.thread < |s.pcs|
    requires Entering(s.pcs[i], wish) || (s.pcs[i] == Idle && t == Turn(i, wish))
    ensures var pc := Step(s, t).pcs[i]; Entering(pc, wish) || pc == Inside(wish)
  {
  }

  // Over any run, a thread on its way in is still on its way unless it has been
  // inside, as what it came for.
  lemma {:induction false} EntersBeforeLeaving(s: State, turns: seq<Turn>, i: nat, wish: Wish) returns (k: nat)
    requires i < |s.pcs| && Schedule(turns, |s.pcs|) && Entering(s.pcs[i], wish)
    ensures k <= |turns|
    ensures Entering(Run(s, turns).pcs[i], wish) || Run(s, turns[..k]).pcs[i] == Inside(wish)
    ensures forall j :: 0 <= j < k ==> Entering(Run(s, turns[..j]).pcs[i], wish)
    decreases |turns|
  {
    k := 0;
    if turns != [] {
      EnteringStep(s, turns[0], i, wish);
      var s' := Step(s, turns[0]);
      if Entering(s'.pcs[i], wish) {
        k := EntersBeforeLeaving(s', turns[1..], i, wish);
      }
      k := k + 1;
      forall j | 0 < j <= k ensures Run(s, turns[..j]) == Run(s', turns[1..][..j - 1]) {
        RunFirst(s, turns, j);
      }
    }
  }

  lemma RunFirst(s: State, turns: seq<Turn>, k: nat)
    requires Schedule(turns, |s.pcs|) && 0 < k <= |turns|
    ensures Run(s, turns[..k]) == Run(Step(s, turns[0]), turns[1..][..k - 1])
  {
    assert turns[..k][1..] == turns[1..][..k - 1];
  }

  // So a call that begins with the first turn and is over at the end of a run has
  // been inside the lock in between, as a reader if it came to read and as a writer
  // if it came to write.
  lemma CallEndsInside(s: State, turns: seq<Turn>, i: nat) returns (k: nat)
    requires i < |s.pcs| && Schedule(turns, |s.pcs|) && s.pcs[i] == Idle
    requires turns != [] && turns[0].thread == i && Run(s, turns).pcs[i] == Idle
    ensures 0 < k < |turns|
    ensures Run(s, turns[..k]).pcs[i] == if turns[0].wish == ToRead then Reading else Writing
    ensures forall j :: 0 < j < k ==> Entering(Run(s, turns[..j]).pcs[i], turns[0].wish)
  {
    var wish, s' := turns[0].wish, Step(s, turns[0]);
    EnteringStep(s, turns[0], i, wish);
    k := EntersBeforeLeaving(s', turns[1..], i, wish);
    assert turns[1..][..|turns| - 1] == turns[1..];
    forall j | 0 <= j <= k ensures Run(s, turns[..j + 1]) == Run(s', turns[1..][..j]) {
      RunFirst(s, turns, j + 1);
    }
    forall j | 0 < j < k + 1 ensures Entering(Run(s, turns[..j]).pcs[i], wish) {
      assert Run(s, turns[..j - 1 + 1]) == Run(s', turns[1..][..j - 1]);
    }
    k := k + 1;
  }

  // A thread inside leaves with its next turn and not before.
  lemma {:induction false} LeavesInOneTurn(s: State, turns: seq<Turn>, i: nat)
    requires i < |s.pcs| && Schedule(turns, |s.pcs|) && s.pcs[i] in {Reading, Writing}
    requires turns != [] && turns[|turns| - 1].thread == i && TurnsOf(turns, i) == 1
    ensures Run(s, turns).pcs[i] == Idle
    ensures s.pcs[i] == Writing ==> Run(s, turns).write == 0
    decreases |turns|
  {
    if turns[0].thread == i {
      NoTurns(turns[1..], i);
      assert turns[1..] == [];
    } else {
      LeavesInOneTurn(Step(s, turns[0]), turns[1..], i);
    }
  }

  lemma {:induction false} NoTurns(turns: seq<Turn>, i: nat)
    requires TurnsOf(turns, i) == 0
    ensures forall k :: 0 <= k < |turns| ==> turns[k].thread != i
  {
    if turns != [] {
      NoTurns(turns[1..], i);
    }
  }
}

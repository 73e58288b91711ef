/** The dining philosophers over tracked mutexes: philosopher `i` is thread `i`, fork `f`
    is mutex `f`. Each one locks two forks, unlocks both, and starts again. */
module Philosophers {
  import opened Text
  import Mutex

  type Philosopher = Mutex.Thread
  type Fork = Mutex.MutexId

  function Left(i: Philosopher, n: nat): Fork
    requires i < n
  {
    if i > 0 then i - 1 else n - 1
  }

  function Right(i: Philosopher, n: nat): Fork
    requires i < n
  {
    i
  }

  /** `philo_take_forks`: in correct mode the left fork comes first if it is even;
      otherwise a coin decides. */
  predicate LeftFirst(i: Philosopher, n: nat, correct: bool, coin: bool)
    requires i < n
  {
    if correct then Left(i, n) % 2 == 0 else coin
  }

  function First(i: Philosopher, n: nat, correct: bool, coin: bool): Fork
    requires i < n
  {
    if LeftFirst(i, n, correct, coin) then Left(i, n) else Right(i, n)
  }

  function Second(i: Philosopher, n: nat, correct: bool, coin: bool): Fork
    requires i < n
  {
    if LeftFirst(i, n, correct, coin) then Right(i, n) else Left(i, n)
  }

  /** Where a philosopher's loop is: the next of its four operations (lock first, lock
      second, unlock first, unlock second) and `fork1` and `fork2`. */
  datatype Seat = Seat(next: nat, first: Fork, second: Fork)

  datatype Table = Table(mutexes: Mutex.State, seats: seq<Seat>)

  datatype Move =
    | LockFirst(i: Philosopher, coin: bool)
    | LockSecond(i: Philosopher)
    | UnlockFirst(i: Philosopher)
    | UnlockSecond(i: Philosopher)
    | Inside(step: Mutex.Step)  // a later step of a lock or unlock that has begun

  ghost predicate Typed(s: Table) {
    && Mutex.Typed(s.mutexes)
    && (forall i: Philosopher :: i in s.mutexes.phase <==> i < |s.seats|)
    && (forall f: Fork :: f in s.mutexes.holder <==> f < |s.seats|)
    && (forall i: Philosopher :: i < |s.seats| ==>
          s.seats[i].next < 4 && s.seats[i].first < |s.seats| && s.seats[i].second < |s.seats|)
  }

  predicate Starts(s: Table, i: Philosopher, k: nat) {
    i < |s.seats| && s.seats[i].next == k && i in s.mutexes.phase && s.mutexes.phase[i].Idle?
  }

  predicate Enabled(s: Table, move: Move)
    requires Typed(s)
  {
    match move
    case LockFirst(i, _) => Starts(s, i, 0)
    case LockSecond(i) => Starts(s, i, 1)
    case UnlockFirst(i) => Starts(s, i, 2) && s.mutexes.holder[s.seats[i].first] == Some(i)
    case UnlockSecond(i) => Starts(s, i, 3) && s.mutexes.holder[s.seats[i].second] == Some(i)
    case Inside(step) =>
      (step.Try? || step.Acquire? || step.Record? || step.Finish? || step.Release?) && Mutex.Enabled(s.mutexes, step)
  }

  function StepOf(s: Table, correct: bool, move: Move): (step: Mutex.Step)
    requires Typed(s) && Enabled(s, move)
    ensures Mutex.Enabled(s.mutexes, step) && !step.Create?
  {
    match move
    case LockFirst(i, coin) => Mutex.Announce(i, First(i, |s.seats|, correct, coin))
    case LockSecond(i) => Mutex.Announce(i, s.seats[i].second)
    case UnlockFirst(i) => Mutex.Forget(i, s.seats[i].first)
    case UnlockSecond(i) => Mutex.Forget(i, s.seats[i].second)
    case Inside(step) => step
  }

  function SeatsAfter(s: Table, correct: bool, move: Move): seq<Seat>
    requires Typed(s) && Enabled(s, move)
  {
    match move
    case LockFirst(i, coin) =>
      s.seats[i := Seat(1, First(i, |s.seats|, correct, coin), Second(i, |s.seats|, correct, coin))]
    case LockSecond(i) => s.seats[i := s.seats[i].(next := 2)]
    case UnlockFirst(i) => s.seats[i := s.seats[i].(next := 3)]
    case UnlockSecond(i) => s.seats[i := s.seats[i].(next := 0)]
    case Inside(_) => s.seats
  }

  function Apply(s: Table, correct: bool, move: Move): (s': Table)
    requires Typed(s) && Enabled(s, move)
    ensures Typed(s') && |s'.seats| == |s.seats|
  {
    hide Mutex.Apply;
    Mutex.SameThreads(s.mutexes, StepOf(s, correct, move));
    Table(Mutex.Apply(s.mutexes, StepOf(s, correct, move)), SeatsAfter(s, correct, move))
  }

  ghost predicate Initial(s: Table) {
    Typed(s) && Mutex.Initial(s.mutexes) && forall i: Philosopher :: i < |s.seats| ==> s.seats[i].next == 0
  }

  ghost predicate Runs(s: Table, correct: bool, moves: seq<Move>, s': Table)
    decreases |moves|
  {
    && Typed(s)
    && if moves == [] then s' == s
       else Enabled(s, moves[0]) && Runs(Apply(s, correct, moves[0]), correct, moves[1..], s')
  }

  // ----- what every move keeps

  predicate Asking(phase: Mutex.Phase) {
    phase.Trying? || phase.Waiting?
  }

  /** The operation a philosopher is in fits the order of forks. */
  predicate PhaseFits(seat: Seat, phase: Mutex.Phase) {
    phase.Idle?
    || (phase.m == seat.first && seat.next == (if phase.Releasing? then 3 else 1))
    || (phase.m == seat.second && seat.next == (if phase.Releasing? then 0 else 2))
  }

  /** The forks in a philosopher's hands. */
  predicate Holds(seat: Seat, phase: Mutex.Phase, f: Fork) {
    if seat.next == 0 then phase.Releasing? && f == seat.second
    else if seat.next == 1 then !Asking(phase) && f == seat.first
    else if seat.next == 2 then f == seat.first || (!Asking(phase) && f == seat.second)
    else f == seat.second || (phase.Releasing? && f == seat.first)
  }

  /** During a round the forks are the two next to the philosopher, in an order the mode allows. */
  predicate ForksFit(i: Philosopher, n: nat, correct: bool, seat: Seat, phase: Mutex.Phase)
    requires i < n
  {
    seat.next != 0 || phase.Releasing? ==>
      seat.first != seat.second && (Ordered(i, n, correct, true, seat) || Ordered(i, n, correct, false, seat))
  }

  predicate Ordered(i: Philosopher, n: nat, correct: bool, coin: bool, seat: Seat)
    requires i < n
  {
    seat.first == First(i, n, correct, coin) && seat.second == Second(i, n, correct, coin)
  }

  ghost predicate SeatInv(s: Table, correct: bool, i: Philosopher)
    requires Typed(s) && i < |s.seats|
  {
    && PhaseFits(s.seats[i], s.mutexes.phase[i])
    && ForksFit(i, |s.seats|, correct, s.seats[i], s.mutexes.phase[i])
    && (forall f: Fork :: f < |s.seats| ==>
          (s.mutexes.holder[f] == Some(i) <==> Holds(s.seats[i], s.mutexes.phase[i], f)))
  }

  ghost predicate Inv(s: Table, correct: bool) {
    && Typed(s) && Mutex.Inv(s.mutexes)
    && (forall i: Philosopher :: i < |s.seats| ==> SeatInv(s, correct, i))
  }

  lemma TwoForks(i: Philosopher, n: nat, correct: bool, coin: bool)
    requires i < n && n >= 2
    ensures First(i, n, correct, coin) != Second(i, n, correct, coin)
  {
  }

  lemma InitialInv(s: Table, correct: bool)
    requires Initial(s)
    ensures Inv(s, correct)
  {
    Mutex.InitialInv(s.mutexes);
  }

  function Mover(move: Move): Philosopher {
    match move
    case Inside(Create(_)) => 0
    case Inside(step) => step.t
    case _ => move.i
  }

  /** What a step makes of its own thread's phase. */
  function PhaseAfter(m: Mutex.State, step: Mutex.Step): Mutex.Phase
    requires Mutex.Typed(m) && Mutex.Enabled(m, step) && !step.Create?
  {
    match step
    case Announce(_, f) => Mutex.Trying(f)
    case Try(t) => if m.holder[m.phase[t].m].None? then Mutex.Taken(m.phase[t].m) else Mutex.Waiting(m.phase[t].m)
    case Acquire(t) => Mutex.Taken(m.phase[t].m)
    case Record(t) => Mutex.Recorded(m.phase[t].m)
    case Forget(_, f) => Mutex.Releasing(f)
    case _ => Mutex.Idle
  }

  /** What a step makes of its own thread's hold on `f`. */
  predicate HeldAfter(before: Mutex.Phase, after: Mutex.Phase, f: Fork, held: bool) {
    if after.Taken? then held || f == after.m
    else if before.Releasing? then held && f != before.m
    else held
  }

  lemma StepOnSelf(m: Mutex.State, step: Mutex.Step, f: Fork)
    requires Mutex.Inv(m) && Mutex.Enabled(m, step) && !step.Create? && f in m.holder
    ensures Mutex.Apply(m, step).phase[step.t] == PhaseAfter(m, step)
    ensures (Mutex.Apply(m, step).holder[f] == Some(step.t))
         <==> HeldAfter(m.phase[step.t], PhaseAfter(m, step), f, m.holder[f] == Some(step.t))
  {
    hide Mutex.OwnerAgrees;
    assert Mutex.PhaseAgrees(m, step.t);
  }

  lemma StepOnOthers(m: Mutex.State, step: Mutex.Step, f: Fork, i: Philosopher)
    requires Mutex.Inv(m) && Mutex.Enabled(m, step) && !step.Create? && f in m.holder && i in m.phase && i != step.t
    ensures Mutex.Apply(m, step).phase[i] == m.phase[i]
    ensures Mutex.Apply(m, step).holder[f] == Some(i) <==> m.holder[f] == Some(i)
  {
    hide Mutex.OwnerAgrees;
    assert Mutex.PhaseAgrees(m, step.t);
  }

  /** A move leaves every other philosopher alone. */
  lemma OthersStay(s: Table, correct: bool, move: Move, i: Philosopher)
    requires Inv(s, correct) && Enabled(s, move) && i < |s.seats| && i != Mover(move)
    ensures SeatInv(Apply(s, correct, move), correct, i)
  {
    hide PhaseFits, ForksFit, Holds, Mutex.Inv, Mutex.Apply, First, Second;
    var s' := Apply(s, correct, move);
    assert SeatInv(s, correct, i);
    var step := StepOf(s, correct, move);
    assert step.t == Mover(move) && s'.seats[i] == s.seats[i];
    StepOnOthers(s.mutexes, step, i, i);
    forall f: Fork | f < |s.seats| ensures s'.mutexes.holder[f] == Some(i) <==> s.mutexes.holder[f] == Some(i) {
      StepOnOthers(s.mutexes, step, f, i);
    }
  }

  lemma MoverPhase(s: Table, correct: bool, move: Move)
    requires |s.seats| >= 2 && Inv(s, correct) && Enabled(s, move)
    ensures Mover(move) < |s.seats| && StepOf(s, correct, move).t == Mover(move)
    ensures PhaseFits(SeatsAfter(s, correct, move)[Mover(move)], PhaseAfter(s.mutexes, StepOf(s, correct, move)))
    ensures ForksFit(Mover(move), |s.seats|, correct, SeatsAfter(s, correct, move)[Mover(move)],
      PhaseAfter(s.mutexes, StepOf(s, correct, move)))
  {
    hide Mutex.Inv, First, Second, Holds;
    var i := Mover(move);
    assert SeatInv(s, correct, i);
    if move.LockFirst? {
      TwoForks(i, |s.seats|, correct, move.coin);
    }
  }

  lemma MoverHolds(s: Table, correct: bool, move: Move, f: Fork)
    requires |s.seats| >= 2 && Inv(s, correct) && Enabled(s, move) && f < |s.seats|
    ensures Mover(move) < |s.seats|
    ensures Holds(SeatsAfter(s, correct, move)[Mover(move)], PhaseAfter(s.mutexes, StepOf(s, correct, move)), f)
         <==> HeldAfter(s.mutexes.phase[Mover(move)], PhaseAfter(s.mutexes, StepOf(s, correct, move)), f,
           s.mutexes.holder[f] == Some(Mover(move)))
  {
    hide Mutex.Inv, First, Second;
    var i := Mover(move);
    assert SeatInv(s, correct, i);
  }

  lemma MoverFits(s: Table, correct: bool, move: Move)
    requires |s.seats| >= 2 && Inv(s, correct) && Enabled(s, move)
    ensures SeatInv(Apply(s, correct, move), correct, Mover(move))
  {
    hide Mutex.Inv, Mutex.Apply, PhaseFits, ForksFit, Holds, PhaseAfter, HeldAfter, SeatsAfter, StepOf;
    MoverPhase(s, correct, move);
    var i, s' := Mover(move), Apply(s, correct, move);
    var step := StepOf(s, correct, move);
    StepOnSelf(s.mutexes, step, i);
    forall f: Fork | f < |s.seats|
      ensures s'.mutexes.holder[f] == Some(i) <==> Holds(s'.seats[i], s'.mutexes.phase[i], f) {
      StepOnSelf(s.mutexes, step, f);
      MoverHolds(s, correct, move, f);
    }
  }

  lemma MoveKeepsInv(s: Table, correct: bool, move: Move)
    requires |s.seats| >= 2 && Inv(s, correct) && Enabled(s, move)
    ensures Inv(Apply(s, correct, move), correct)
  {
    hide Mutex.Apply, Mutex.Inv, SeatInv;
    var s' := Apply(s, correct, move);
    Mutex.StepKeepsInv(s.mutexes, StepOf(s, correct, move));
    forall i: Philosopher | i < |s.seats| ensures SeatInv(s', correct, i) {
      if i == Mover(move) {
        MoverFits(s, correct, move);
      } else {
        OthersStay(s, correct, move, i);
      }
    }
  }

  lemma {:induction false} RunKeepsInv(s: Table, correct: bool, moves: seq<Move>, s': Table)
    requires |s.seats| >= 2 && Inv(s, correct) && Runs(s, correct, moves, s')
    ensures Inv(s', correct) && |s'.seats| == |s.seats|
    decreases |moves|
  {
    hide Inv;
    if moves != [] {
      assert Typed(s) && Enabled(s, moves[0]);
      MoveKeepsInv(s, correct, moves[0]);
      RunKeepsInv(Apply(s, correct, moves[0]), correct, moves[1..], s');
    }
  }

  // ----- two neighbours never eat at once

  /** A philosopher has both locks behind it and no unlock begun. */
  predicate Eating(s: Table, i: Philosopher) {
    Starts(s, i, 2)
  }

  predicate ShareFork(i: Philosopher, j: Philosopher, n: nat)
    requires i < n && j < n
  {
    i != j && (Left(i, n) == Right(j, n) || Left(j, n) == Right(i, n))
  }

  lemma EatingHoldsBoth(s: Table, correct: bool, i: Philosopher)
    requires Inv(s, correct) && Eating(s, i)
    ensures s.mutexes.holder[Left(i, |s.seats|)] == Some(i) && s.mutexes.holder[Right(i, |s.seats|)] == Some(i)
  {
    assert SeatInv(s, correct, i);
  }

  // ----- no deadlock in correct mode

  /** The order in which forks are taken in correct mode: the even forks from the highest
      down, then the odd ones. */
  function Rank(f: Fork, n: nat): int {
    if f % 2 == 0 then 0 - f as int else n + f
  }

  /** Everybody takes the lower-ranked fork first, also philosopher 0 of an odd number,
      whose forks are both even. */
  lemma FirstRanksLower(i: Philosopher, n: nat, coin: bool)
    requires i < n && n >= 2
    ensures Rank(First(i, n, true, coin), n) < Rank(Second(i, n, true, coin), n)
  {
  }

  function AskedRank(s: Table, i: Philosopher): int
    requires i in s.mutexes.phase
  {
    if Asking(s.mutexes.phase[i]) then Rank(s.mutexes.phase[i].m, |s.seats|) else 0
  }

  /** A philosopher that waits for one who waits asks for a lower-ranked fork. */
  lemma WaitingRanksUp(s: Table, i: Philosopher, j: Philosopher)
    requires Inv(s, true) && |s.seats| >= 2
    requires Mutex.TrueNext(s.mutexes, i) == Some(j) && j in s.mutexes.phase && Asking(s.mutexes.phase[j])
    ensures AskedRank(s, i) < AskedRank(s, j)
  {
    hide Mutex.Inv, First, Second, Rank;
    var f := s.mutexes.phase[i].m;
    assert SeatInv(s, true, j);
    assert s.mutexes.holder[f] == Some(j);
    assert Holds(s.seats[j], s.mutexes.phase[j], f);
    FirstRanksLower(j, |s.seats|, true);
    FirstRanksLower(j, |s.seats|, false);
  }

  lemma {:induction false} RanksClimb(s: Table, c: seq<Philosopher>, k: nat)
    requires Inv(s, true) && |s.seats| >= 2 && Mutex.Deadlocked(s.mutexes, c) && k < |c|
    ensures c[0] in s.mutexes.phase && c[k] in s.mutexes.phase
    ensures AskedRank(s, c[0]) + k <= AskedRank(s, c[k])
  {
    hide Inv, AskedRank;
    assert Mutex.TrueNext(s.mutexes, c[0]).Some?;
    if k > 0 {
      RanksClimb(s, c, k - 1);
      assert Mutex.TrueNext(s.mutexes, c[k - 1]) == Some(c[k]);
      assert Mutex.TrueNext(s.mutexes, c[k]).Some?;
      WaitingRanksUp(s, c[k - 1], c[k]);
    }
  }

  lemma NoDeadlock(s: Table, c: seq<Philosopher>)
    requires Inv(s, true) && |s.seats| >= 2
    ensures !Mutex.Deadlocked(s.mutexes, c)
  {
    hide Inv, AskedRank;
    if Mutex.Deadlocked(s.mutexes, c) {
      var last := |c| - 1;
      RanksClimb(s, c, last);
      assert Mutex.TrueNext(s.mutexes, c[last]) == Some(c[0]);
      assert Mutex.TrueNext(s.mutexes, c[0]).Some?;
      WaitingRanksUp(s, c[last], c[0]);
    }
  }

  // ----- somebody can always move

  /** `i` itself, or whoever it waits for, directly or through others. */
  ghost predicate WaitsOn(s: Table, path: seq<Philosopher>) {
    path != [] && forall k :: 0 <= k < |path| - 1 ==> Mutex.TrueNext(s.mutexes, path[k]) == Some(path[k + 1])
  }

  lemma CanMove(s: Table, correct: bool, i: Philosopher) returns (move: Move)
    requires Inv(s, correct) && i < |s.seats|
    requires s.mutexes.phase[i].Waiting? ==> s.mutexes.holder[s.mutexes.phase[i].m].None?
    ensures Enabled(s, move) && Mover(move) == i
  {
    assert SeatInv(s, correct, i);
    match s.mutexes.phase[i]
    case Idle =>
      move := if s.seats[i].next == 0 then LockFirst(i, false) else if s.seats[i].next == 1 then LockSecond(i)
              else if s.seats[i].next == 2 then UnlockFirst(i) else UnlockSecond(i);
    case Trying(_) => move := Inside(Mutex.Try(i));
    case Waiting(_) => move := Inside(Mutex.Acquire(i));
    case Taken(_) => move := Inside(Mutex.Record(i));
    case Recorded(_) => move := Inside(Mutex.Finish(i));
    case Releasing(_) => move := Inside(Mutex.Release(i));
  }

  /** From any philosopher, following who holds the fork it waits for ends at one who can move. */
  lemma {:induction false} SomeoneCanMove(s: Table, i: Philosopher) returns (path: seq<Philosopher>, move: Move)
    requires Inv(s, true) && |s.seats| >= 2 && i < |s.seats|
    ensures WaitsOn(s, path) && path[0] == i
    ensures Enabled(s, move) && Mover(move) == path[|path| - 1]
    decreases if Asking(s.mutexes.phase[i]) then 2 * |s.seats| - AskedRank(s, i) else -1
  {
    var phase := s.mutexes.phase[i];
    if phase.Waiting? && s.mutexes.holder[phase.m].Some? {
      var j := s.mutexes.holder[phase.m].value;
      assert Mutex.OwnerAgrees(s.mutexes, phase.m);
      assert Mutex.TrueNext(s.mutexes, i) == Some(j);
      if Asking(s.mutexes.phase[j]) {
        WaitingRanksUp(s, i, j);
      }
      var rest;
      rest, move := SomeoneCanMove(s, j);
      path := [i] + rest;
    } else {
      move := CanMove(s, true, i);
      path := [i];
    }
  }

  ghost predicate WaitsForAMover(s: Table, i: Philosopher)
    requires Typed(s)
  {
    exists path, move :: WaitsOn(s, path) && path[0] == i && Enabled(s, move) && Mover(move) == path[|path| - 1]
  }

  lemma EachWaitsForAMover(s: Table, i: Philosopher)
    requires Inv(s, true) && |s.seats| >= 2 && i < |s.seats|
    ensures WaitsForAMover(s, i)
  {
    var path, move := SomeoneCanMove(s, i);
  }

  lemma NoRecordedCycle(s: Table, c: seq<Philosopher>)
    requires Inv(s, true) && |s.seats| >= 2 && |c| >= 2 && Mutex.Distinct(c)
    ensures !Mutex.RecordedCycle(s.mutexes, c)
  {
    NoDeadlock(s, c);
    Mutex.CycleIsDeadlock(s.mutexes, c);
  }

  /** Correct mode, any number of philosophers from two: in every state a run reaches no
      threads are deadlocked and none form a recorded cycle, and each philosopher can move
      or waits for one who can. */
  lemma CorrectModeIsSafe(s: Table, moves: seq<Move>, s': Table)
    requires Initial(s) && |s.seats| >= 2 && Runs(s, true, moves, s')
    ensures Typed(s')
    ensures forall c: seq<Philosopher> :: !Mutex.Deadlocked(s'.mutexes, c)
    ensures forall c: seq<Philosopher> :: |c| >= 2 && Mutex.Distinct(c) ==> !Mutex.RecordedCycle(s'.mutexes, c)
    ensures forall i: Philosopher :: i < |s'.seats| ==> WaitsForAMover(s', i)
  {
    hide Initial, Runs, Mutex.Inv, SeatInv, Mutex.Deadlocked, Mutex.RecordedCycle, Mutex.Distinct, WaitsForAMover;
    InitialInv(s, true);
    RunKeepsInv(s, true, moves, s');
    forall c: seq<Philosopher> ensures !Mutex.Deadlocked(s'.mutexes, c) {
      NoDeadlock(s', c);
    }
    forall c: seq<Philosopher> | |c| >= 2 && Mutex.Distinct(c) ensures !Mutex.RecordedCycle(s'.mutexes, c) {
      NoRecordedCycle(s', c);
    }
    forall i: Philosopher | i < |s'.seats| ensures WaitsForAMover(s', i) {
      EachWaitsForAMover(s', i);
    }
  }

  /** In either mode no two philosophers who share a fork are ever eating together. */
  lemma NeighboursDoNotEatTogether(s: Table, correct: bool, moves: seq<Move>, s': Table, i: Philosopher, j: Philosopher)
    requires Initial(s) && |s.seats| >= 2 && Runs(s, correct, moves, s')
    requires i < |s.seats| && j < |s.seats| && ShareFork(i, j, |s.seats|)
    ensures !(Eating(s', i) && Eating(s', j))
  {
    hide Inv, Eating;
    InitialInv(s, correct);
    RunKeepsInv(s, correct, moves, s');
    if Eating(s', i) && Eating(s', j) {
      EatingHoldsBoth(s', correct, i);
      EatingHoldsBoth(s', correct, j);
    }
  }

  // ----- the deadlock outside of correct mode, or of one philosopher alone

  lemma {:induction false} RunsOn(s: Table, correct: bool, moves: seq<Move>, s': Table, more: seq<Move>, s'': Table)
    requires Runs(s, correct, moves, s') && Runs(s', correct, more, s'')
    ensures Runs(s, correct, moves + more, s'')
    decreases |moves|
  {
    hide Typed, Enabled, Apply;
    if moves == [] {
      assert moves + more == more;
    } else {
      RunsOn(Apply(s, correct, moves[0]), correct, moves[1..], s', more, s'');
      assert (moves + more)[1..] == moves[1..] + more;
    }
  }

  lemma RunsOne(s: Table, correct: bool, move: Move)
    requires Typed(s) && Enabled(s, move)
    ensures Runs(s, correct, [move], Apply(s, correct, move))
  {
    assert [move][1..] == [];
  }

  lemma RunsNothing(s: Table, correct: bool)
    requires Typed(s)
    ensures Runs(s, correct, [], s)
  {
  }

  // ----- one round of one philosopher

  /** A fork is shared by neighbours: the one with a philosopher's own number and the one below it. */
  lemma ForksAre(i: Philosopher, n: nat, correct: bool, coin: bool)
    requires i < n
    ensures Right(i, n) == i && Left(i, n) == (i + n - 1) % n
    ensures {First(i, n, correct, coin), Second(i, n, correct, coin)} == {Left(i, n), Right(i, n)}
    ensures !correct ==> First(i, n, correct, coin) == if coin then (i + n - 1) % n else i
  {
    if i > 0 {
      assert i + n - 1 == n * 1 + (i - 1);
    }
  }

  /** In correct mode the even fork is taken first; between two even ones it is the left. */
  lemma EvenForkFirst(i: Philosopher, n: nat, coin: bool)
    requires i < n && n >= 2
    ensures First(i, n, true, coin) % 2 == 0
    ensures Second(i, n, true, coin) % 2 == 0 ==> First(i, n, true, coin) == (i + n - 1) % n
  {
    ForksAre(i, n, true, coin);
  }

  function LockMoves(move: Move, i: Philosopher): seq<Move> {
    [move, Inside(Mutex.Try(i))] + [Inside(Mutex.Record(i)), Inside(Mutex.Finish(i))]
  }

  function UnlockMoves(move: Move, i: Philosopher): seq<Move> {
    [move, Inside(Mutex.Release(i))]
  }

  ghost predicate Free(s: Table, f: Fork) {
    f in s.mutexes.holder && f in s.mutexes.owner && s.mutexes.holder[f].None? && s.mutexes.owner[f].None?
  }

  ghost function Given(m: Mutex.State, f: Fork, to: Option<Philosopher>): Mutex.State {
    m.(holder := m.holder[f := to], owner := m.owner[f := to])
  }

  lemma RunsTwo(s: Table, correct: bool, a: Move, b: Move)
    requires Typed(s) && Enabled(s, a) && Enabled(Apply(s, correct, a), b)
    ensures Runs(s, correct, [a, b], Apply(Apply(s, correct, a), correct, b))
  {
    hide Typed, Enabled, Apply;
    RunsOne(s, correct, a);
    RunsOne(Apply(s, correct, a), correct, b);
    RunsOn(s, correct, [a], Apply(s, correct, a), [b], Apply(Apply(s, correct, a), correct, b));
    assert [a] + [b] == [a, b];
  }

  lemma LocksFree(s: Table, correct: bool, move: Move, i: Philosopher, f: Fork)
    requires Typed(s) && Enabled(s, move) && StepOf(s, correct, move) == Mutex.Announce(i, f)
    requires Free(s, f) && i in s.mutexes.waiter && s.mutexes.waiter[i].None?
    ensures Runs(s, correct, LockMoves(move, i), Table(Given(s.mutexes, f, Some(i)), SeatsAfter(s, correct, move)))
  {
    hide Typed;
    var s1 := Apply(s, correct, move);
    var s2 := Apply(s1, correct, Inside(Mutex.Try(i)));
    var s3 := Apply(s2, correct, Inside(Mutex.Record(i)));
    var s4 := Apply(s3, correct, Inside(Mutex.Finish(i)));
    assert s4.mutexes.waiter == s.mutexes.waiter && s4.mutexes.phase == s.mutexes.phase;
    RunsTwo(s, correct, move, Inside(Mutex.Try(i)));
    RunsTwo(s2, correct, Inside(Mutex.Record(i)), Inside(Mutex.Finish(i)));
    RunsOn(s, correct, [move, Inside(Mutex.Try(i))], s2, [Inside(Mutex.Record(i)), Inside(Mutex.Finish(i))], s4);
  }

  lemma UnlocksHeld(s: Table, correct: bool, move: Move, i: Philosopher, f: Fork)
    requires Typed(s) && Enabled(s, move) && StepOf(s, correct, move) == Mutex.Forget(i, f)
    ensures Runs(s, correct, UnlockMoves(move, i), Table(Given(s.mutexes, f, None), SeatsAfter(s, correct, move)))
  {
    hide Typed;
    var s1 := Apply(s, correct, move);
    var s2 := Apply(s1, correct, Inside(Mutex.Release(i)));
    assert s2.mutexes.phase == s.mutexes.phase;
    RunsTwo(s, correct, move, Inside(Mutex.Release(i)));
  }

  /** A table at which philosopher `i` has come to operation `k` with these forks. */
  function Come(m: Mutex.State, seats: seq<Seat>, i: Philosopher, k: nat, f: Fork, g: Fork): Table
    requires i < |seats|
  {
    Table(m, seats[i := Seat(k, f, g)])
  }

  lemma ComeTyped(m: Mutex.State, seats: seq<Seat>, i: Philosopher, k: nat, f: Fork, g: Fork)
    requires Typed(Table(m, seats)) && i < |seats| && k < 4 && f < |seats| && g < |seats|
    ensures Typed(Come(m, seats, i, k, f, g))
  {
  }

  lemma GivenTyped(m: Mutex.State, seats: seq<Seat>, f: Fork, to: Option<Philosopher>)
    requires Typed(Table(m, seats)) && f < |seats|
    ensures Typed(Table(Given(m, f, to), seats))
  {
  }

  lemma TakesFirst(s: Table, correct: bool, i: Philosopher, coin: bool)
    requires Typed(s) && Starts(s, i, 0) && i in s.mutexes.waiter && s.mutexes.waiter[i].None?
    requires Free(s, First(i, |s.seats|, correct, coin))
    ensures var f, g := First(i, |s.seats|, correct, coin), Second(i, |s.seats|, correct, coin);
      Runs(s, correct, LockMoves(LockFirst(i, coin), i), Come(Given(s.mutexes, f, Some(i)), s.seats, i, 1, f, g))
  {
    hide Typed, Runs;
    LocksFree(s, correct, LockFirst(i, coin), i, First(i, |s.seats|, correct, coin));
  }

  lemma TakesSecond(m: Mutex.State, seats: seq<Seat>, correct: bool, i: Philosopher, f: Fork, g: Fork)
    requires i < |seats| && Typed(Come(m, seats, i, 1, f, g)) && Starts(Come(m, seats, i, 1, f, g), i, 1)
    requires Free(Come(m, seats, i, 1, f, g), g) && i in m.waiter && m.waiter[i].None?
    ensures Runs(Come(m, seats, i, 1, f, g), correct, LockMoves(LockSecond(i), i),
                 Come(Given(m, g, Some(i)), seats, i, 2, f, g))
  {
    hide Typed, Runs;
    assert seats[i := Seat(1, f, g)][i := Seat(2, f, g)] == seats[i := Seat(2, f, g)];
    LocksFree(Come(m, seats, i, 1, f, g), correct, LockSecond(i), i, g);
  }

  lemma GivesFirst(m: Mutex.State, seats: seq<Seat>, correct: bool, i: Philosopher, f: Fork, g: Fork)
    requires i < |seats| && Typed(Come(m, seats, i, 2, f, g)) && Starts(Come(m, seats, i, 2, f, g), i, 2)
    requires f in m.holder && m.holder[f] == Some(i)
    ensures Runs(Come(m, seats, i, 2, f, g), correct, UnlockMoves(UnlockFirst(i), i),
                 Come(Given(m, f, None), seats, i, 3, f, g))
  {
    hide Typed, Runs;
    assert seats[i := Seat(2, f, g)][i := Seat(3, f, g)] == seats[i := Seat(3, f, g)];
    UnlocksHeld(Come(m, seats, i, 2, f, g), correct, UnlockFirst(i), i, f);
  }

  lemma GivesSecond(m: Mutex.State, seats: seq<Seat>, correct: bool, i: Philosopher, f: Fork, g: Fork)
    requires i < |seats| && Typed(Come(m, seats, i, 3, f, g)) && Starts(Come(m, seats, i, 3, f, g), i, 3)
    requires g in m.holder && m.holder[g] == Some(i)
    ensures Runs(Come(m, seats, i, 3, f, g), correct, UnlockMoves(UnlockSecond(i), i),
                 Come(Given(m, g, None), seats, i, 0, f, g))
  {
    hide Typed, Runs;
    assert seats[i := Seat(3, f, g)][i := Seat(0, f, g)] == seats[i := Seat(0, f, g)];
    UnlocksHeld(Come(m, seats, i, 3, f, g), correct, UnlockSecond(i), i, g);
  }

  lemma GivenBack(m: Mutex.State, f: Fork, g: Fork, i: Philosopher)
    requires f != g && f in m.holder && f in m.owner && m.holder[f].None? && m.owner[f].None?
    requires g in m.holder && g in m.owner && m.holder[g].None? && m.owner[g].None?
    ensures var both := Given(Given(m, f, Some(i)), g, Some(i));
      && both.holder[f] == both.holder[g] == Some(i)
      && Given(both, f, None) == Given(m, g, Some(i)) && Given(Given(m, g, Some(i)), g, None) == m
  {
    var both := Given(Given(m, f, Some(i)), g, Some(i));
    assert Given(both, f, None).holder == Given(m, g, Some(i)).holder;
    assert Given(both, f, None).owner == Given(m, g, Some(i)).owner;
    assert Given(Given(m, g, Some(i)), g, None).holder == m.holder;
    assert Given(Given(m, g, Some(i)), g, None).owner == m.owner;
  }

  /** Philosopher `i` with both forks free: the first fork is taken and then the second, given back
      first is the first and then the second, and in the end every mutex is as it was. */
  lemma OneRound(s: Table, correct: bool, i: Philosopher, coin: bool)
    requires Typed(s) && |s.seats| >= 2 && Starts(s, i, 0) && i in s.mutexes.waiter && s.mutexes.waiter[i].None?
    requires Free(s, Left(i, |s.seats|)) && Free(s, Right(i, |s.seats|))
    ensures
      var f, g := First(i, |s.seats|, correct, coin), Second(i, |s.seats|, correct, coin);
      var m := s.mutexes;
      var one := Come(Given(m, f, Some(i)), s.seats, i, 1, f, g);
      var both := Come(Given(Given(m, f, Some(i)), g, Some(i)), s.seats, i, 2, f, g);
      var other := Come(Given(m, g, Some(i)), s.seats, i, 3, f, g);
      && Runs(s, correct, LockMoves(LockFirst(i, coin), i), one)
      && Runs(one, correct, LockMoves(LockSecond(i), i), both)
      && Runs(both, correct, UnlockMoves(UnlockFirst(i), i), other)
      && Runs(other, correct, UnlockMoves(UnlockSecond(i), i), Come(m, s.seats, i, 0, f, g))
  {
    hide Typed, Runs, LockMoves, UnlockMoves;
    var n, m, seats := |s.seats|, s.mutexes, s.seats;
    var f, g := First(i, n, correct, coin), Second(i, n, correct, coin);
    GivenBack(m, f, g, i);
    TakesFirst(s, correct, i, coin);
    var m1 := Given(m, f, Some(i));
    var m2 := Given(m1, g, Some(i));
    var m3 := Given(m, g, Some(i));
    GivenTyped(m, seats, f, Some(i));
    GivenTyped(m1, seats, g, Some(i));
    GivenTyped(m, seats, g, Some(i));
    ComeTyped(m1, seats, i, 1, f, g);
    ComeTyped(m2, seats, i, 2, f, g);
    ComeTyped(m3, seats, i, 3, f, g);
    TakesSecond(m1, seats, correct, i, f, g);
    GivesFirst(m2, seats, correct, i, f, g);
    GivesSecond(m3, seats, correct, i, f, g);
  }

  ghost predicate Typical(s: Table, i: Philosopher, next: nat, phase: Mutex.Phase, holder: Option<Philosopher>)
    requires Typed(s) && i < |s.seats|
  {
    s.seats[i] == Seat(next, i, Left(i, |s.seats|)) && s.mutexes.phase[i] == phase && s.mutexes.holder[i] == holder
  }

  ghost predicate Hungry(s: Table, i: Philosopher)
    requires Typed(s) && i < |s.seats|
  {
    s.seats[i].next == 0 && s.mutexes.phase[i].Idle? && s.mutexes.holder[i].None?
  }

  /** `k` philosophers have their right forks and `l` of them ask for their left. */
  ghost predicate AtStage(s: Table, k: nat, l: nat) {
    && Typed(s) && l <= k <= |s.seats|
    && forall i: Philosopher :: i < |s.seats| ==>
         if i < l then Typical(s, i, 2, Mutex.Trying(Left(i, |s.seats|)), Some(i))
         else if i < k then Typical(s, i, 1, Mutex.Idle, Some(i))
         else Hungry(s, i)
  }

  ghost predicate OthersSame(s: Table, s': Table, k: Philosopher)
    requires Typed(s) && Typed(s')
  {
    && |s'.seats| == |s.seats|
    && forall i: Philosopher :: i < |s.seats| && i != k ==>
         s'.seats[i] == s.seats[i] && s'.mutexes.phase[i] == s.mutexes.phase[i]
           && s'.mutexes.holder[i] == s.mutexes.holder[i]
  }

  lemma UntouchedAt(s: Table, correct: bool, move: Move, i: Philosopher)
    requires Typed(s) && Enabled(s, move) && i < |s.seats| && i != Mover(move)
    requires move.Inside? && move.step.Try? ==> s.mutexes.phase[Mover(move)].m == Mover(move)
    requires !(move.Inside? && (move.step.Acquire? || move.step.Release?))
    ensures Apply(s, correct, move).seats[i] == s.seats[i]
    ensures Apply(s, correct, move).mutexes.phase[i] == s.mutexes.phase[i]
    ensures Apply(s, correct, move).mutexes.holder[i] == s.mutexes.holder[i]
  {
    hide First, Second;
  }

  /** A move that concerns at most the mover's right fork leaves all else as it is. */
  lemma Untouched(s: Table, correct: bool, move: Move)
    requires Typed(s) && Enabled(s, move)
    requires move.Inside? && move.step.Try? ==> s.mutexes.phase[Mover(move)].m == Mover(move)
    requires !(move.Inside? && (move.step.Acquire? || move.step.Release?))
    ensures OthersSame(s, Apply(s, correct, move), Mover(move))
  {
    hide Enabled, Apply;
    forall i: Philosopher | i < |s.seats| && i != Mover(move)
      ensures Apply(s, correct, move).seats[i] == s.seats[i]
      ensures Apply(s, correct, move).mutexes.phase[i] == s.mutexes.phase[i]
      ensures Apply(s, correct, move).mutexes.holder[i] == s.mutexes.holder[i] {
      UntouchedAt(s, correct, move, i);
    }
  }

  lemma OthersSameTwice(s: Table, t: Table, u: Table, k: Philosopher)
    requires Typed(s) && Typed(t) && Typed(u) && OthersSame(s, t, k) && OthersSame(t, u, k)
    ensures OthersSame(s, u, k)
  {
  }

  lemma MoreHaveRight(s: Table, t: Table, k: nat)
    requires AtStage(s, k, 0) && k < |s.seats| && Typed(t)
    requires OthersSame(s, t, k) && Typical(t, k, 1, Mutex.Idle, Some(k))
    ensures AtStage(t, k + 1, 0)
  {
    hide Typed, Left;
    forall i: Philosopher | i < |s.seats|
      ensures if i < k + 1 then Typical(t, i, 1, Mutex.Idle, Some(i)) else Hungry(t, i) {
      assert if i < k then Typical(s, i, 1, Mutex.Idle, Some(i)) else Hungry(s, i);
    }
  }

  lemma MoreAskLeft(s: Table, t: Table, l: nat)
    requires AtStage(s, |s.seats|, l) && l < |s.seats| && Typed(t)
    requires OthersSame(s, t, l) && Typical(t, l, 2, Mutex.Trying(Left(l, |s.seats|)), Some(l))
    ensures AtStage(t, |s.seats|, l + 1)
  {
    hide Typed, Left;
    forall i: Philosopher | i < |s.seats|
      ensures if i < l + 1 then Typical(t, i, 2, Mutex.Trying(Left(i, |s.seats|)), Some(i))
        else Typical(t, i, 1, Mutex.Idle, Some(i)) {
      assert if i < l then Typical(s, i, 2, Mutex.Trying(Left(i, |s.seats|)), Some(i))
        else Typical(s, i, 1, Mutex.Idle, Some(i));
    }
  }

  lemma RightFirst(n: nat, k: nat, correct: bool)
    requires k < n && (correct ==> n == 1)
    ensures First(k, n, correct, false) == k && Second(k, n, correct, false) == Left(k, n)
  {
  }

  lemma LocksRight(s: Table, k: nat, correct: bool)
    requires Typed(s) && k < |s.seats| && Hungry(s, k) && (correct ==> |s.seats| == 1)
    ensures Enabled(s, LockFirst(k, false))
    ensures Typical(Apply(s, correct, LockFirst(k, false)), k, 1, Mutex.Trying(k), None)
    ensures OthersSame(s, Apply(s, correct, LockFirst(k, false)), k)
  {
    Untouched(s, correct, LockFirst(k, false));
    RightFirst(|s.seats|, k, correct);
  }

  lemma TakesRight(s: Table, k: nat, correct: bool)
    requires Typed(s) && k < |s.seats| && Typical(s, k, 1, Mutex.Trying(k), None)
    ensures Enabled(s, Inside(Mutex.Try(k)))
    ensures Typical(Apply(s, correct, Inside(Mutex.Try(k))), k, 1, Mutex.Taken(k), Some(k))
    ensures OthersSame(s, Apply(s, correct, Inside(Mutex.Try(k))), k)
  {
    Untouched(s, correct, Inside(Mutex.Try(k)));
  }

  lemma RecordsRight(s: Table, k: nat, correct: bool)
    requires Typed(s) && k < |s.seats| && Typical(s, k, 1, Mutex.Taken(k), Some(k))
    ensures Enabled(s, Inside(Mutex.Record(k)))
    ensures Typical(Apply(s, correct, Inside(Mutex.Record(k))), k, 1, Mutex.Recorded(k), Some(k))
    ensures OthersSame(s, Apply(s, correct, Inside(Mutex.Record(k))), k)
  {
    Untouched(s, correct, Inside(Mutex.Record(k)));
  }

  lemma FinishesRight(s: Table, k: nat, correct: bool)
    requires Typed(s) && k < |s.seats| && Typical(s, k, 1, Mutex.Recorded(k), Some(k))
    ensures Enabled(s, Inside(Mutex.Finish(k)))
    ensures Typical(Apply(s, correct, Inside(Mutex.Finish(k))), k, 1, Mutex.Idle, Some(k))
    ensures OthersSame(s, Apply(s, correct, Inside(Mutex.Finish(k))), k)
  {
    Untouched(s, correct, Inside(Mutex.Finish(k)));
  }

  lemma OneTakesRight(s: Table, k: nat, correct: bool) returns (moves: seq<Move>, s': Table)
    requires AtStage(s, k, 0) && k < |s.seats| && (correct ==> |s.seats| == 1)
    ensures Runs(s, correct, moves, s') && AtStage(s', k + 1, 0) && |s'.seats| == |s.seats|
  {
    AtStageIsTyped(s, k, 0);
    assert Hungry(s, k);
    hide Apply, Enabled, Runs, Typed, AtStage, Hungry, Typical, OthersSame;
    var m1, m2, m3, m4 := LockFirst(k, false), Inside(Mutex.Try(k)), Inside(Mutex.Record(k)), Inside(Mutex.Finish(k));
    LocksRight(s, k, correct);
    var s1 := Apply(s, correct, m1);
    TakesRight(s1, k, correct);
    var s2 := Apply(s1, correct, m2);
    RecordsRight(s2, k, correct);
    var s3 := Apply(s2, correct, m3);
    FinishesRight(s3, k, correct);
    s' := Apply(s3, correct, m4);
    OthersSameTwice(s, s1, s2, k);
    OthersSameTwice(s, s2, s3, k);
    OthersSameTwice(s, s3, s', k);
    MoreHaveRight(s, s', k);
    moves := [m1] + [m2] + [m3] + [m4];
    RunsOne(s, correct, m1);
    RunsOne(s1, correct, m2);
    RunsOne(s2, correct, m3);
    RunsOne(s3, correct, m4);
    RunsOn(s, correct, [m1], s1, [m2], s2);
    RunsOn(s, correct, [m1] + [m2], s2, [m3], s3);
    RunsOn(s, correct, [m1] + [m2] + [m3], s3, [m4], s');
  }

  lemma AsksLeft(s: Table, l: nat, correct: bool)
    requires Typed(s) && l < |s.seats| && Typical(s, l, 1, Mutex.Idle, Some(l))
    ensures Enabled(s, LockSecond(l))
    ensures Typical(Apply(s, correct, LockSecond(l)), l, 2, Mutex.Trying(Left(l, |s.seats|)), Some(l))
    ensures OthersSame(s, Apply(s, correct, LockSecond(l)), l)
  {
    Untouched(s, correct, LockSecond(l));
  }

  lemma OneAsksLeft(s: Table, l: nat, correct: bool) returns (s': Table)
    requires AtStage(s, |s.seats|, l) && l < |s.seats|
    ensures Runs(s, correct, [LockSecond(l)], s') && AtStage(s', |s.seats|, l + 1) && |s'.seats| == |s.seats|
  {
    AtStageIsTyped(s, |s.seats|, l);
    assert Typical(s, l, 1, Mutex.Idle, Some(l));
    hide Runs, Left, Typed, AtStage, Typical, OthersSame, Enabled, Apply;
    AsksLeft(s, l, correct);
    RunsOne(s, correct, LockSecond(l));
    s' := Apply(s, correct, LockSecond(l));
    MoreAskLeft(s, s', l);
  }

  lemma {:induction false} AllTakeRight(s: Table, k: nat, correct: bool) returns (moves: seq<Move>, s': Table)
    requires AtStage(s, 0, 0) && k <= |s.seats| && (correct ==> |s.seats| == 1)
    ensures Runs(s, correct, moves, s') && AtStage(s', k, 0) && |s'.seats| == |s.seats|
  {
    hide Runs, AtStage;
    if k == 0 {
      AtStageIsTyped(s, 0, 0);
      moves, s' := [], s;
      RunsNothing(s, correct);
    } else {
      var before, t := AllTakeRight(s, k - 1, correct);
      var more;
      more, s' := OneTakesRight(t, k - 1, correct);
      moves := before + more;
      RunsOn(s, correct, before, t, more, s');
    }
  }

  lemma AtStageIsTyped(s: Table, k: nat, l: nat)
    requires AtStage(s, k, l)
    ensures Typed(s)
  {
  }

  lemma {:induction false} AllAskLeft(s: Table, l: nat, correct: bool) returns (moves: seq<Move>, s': Table)
    requires AtStage(s, 0, 0) && l <= |s.seats| && (correct ==> |s.seats| == 1)
    ensures Runs(s, correct, moves, s') && AtStage(s', |s.seats|, l) && |s'.seats| == |s.seats|
  {
    hide Runs, AtStage;
    if l == 0 {
      moves, s' := AllTakeRight(s, |s.seats|, correct);
    } else {
      var before, t := AllAskLeft(s, l - 1, correct);
      s' := OneAsksLeft(t, l - 1, correct);
      moves := before + [LockSecond(l - 1)];
      RunsOn(s, correct, before, t, [LockSecond(l - 1)], s');
    }
  }

  /** Everybody in turn, from the last down. */
  function Everybody(n: nat): seq<Philosopher> {
    seq(n, k requires 0 <= k < n => n - 1 - k)
  }

  lemma LastStageIsDeadlocked(s: Table)
    requires AtStage(s, |s.seats|, |s.seats|) && |s.seats| >= 1
    ensures Mutex.Deadlocked(s.mutexes, Everybody(|s.seats|))
  {
    var n, c := |s.seats|, Everybody(|s.seats|);
    forall k | 0 <= k < |c| ensures Mutex.TrueNext(s.mutexes, c[k]) == Some(c[Mutex.After(k, |c|)]) {
      var f := Left(c[k], n);
      assert Typical(s, c[k], 2, Mutex.Trying(f), Some(c[k]));
      assert Typical(s, f, 2, Mutex.Trying(Left(f, n)), Some(f));
    }
  }

  /** Before the first move: all idle, no fork taken. */
  function Start(n: nat): Table {
    Table(
      Mutex.State(
        map f: nat | 0 <= f < n :: Nobody(f), map f: nat | 0 <= f < n :: Nobody(f),
        map i: nat | 0 <= i < n :: Nobody(i), map i: nat | 0 <= i < n :: AtRest(i)),
      seq(n, i => Seat(0, 0, 0)))
  }

  function Nobody(f: nat): Option<nat> {
    None
  }

  function AtRest(i: Philosopher): Mutex.Phase {
    Mutex.Idle
  }

  lemma StartIsInitial(n: nat)
    requires n >= 1
    ensures Initial(Start(n)) && |Start(n).seats| == n && AtStage(Start(n), 0, 0)
  {
    var s := Start(n);
    assert Mutex.Typed(s.mutexes);
    assert forall i :: 0 <= i < n ==> s.seats[i] == Seat(0, 0, 0);
  }

  ghost predicate CanDeadlock(n: nat, correct: bool) {
    exists s, moves, s', c: seq<Philosopher> ::
      Initial(s) && |s.seats| == n && Runs(s, correct, moves, s') && Mutex.Deadlocked(s'.mutexes, c)
  }

  /** A deadlock is reachable in the mode without `-c` and also for one philosopher with
      `-c`, whose two forks are the same; for any other number `-c` rules it out. */
  lemma DeadlockExactly(n: nat, correct: bool)
    requires n >= 1
    ensures CanDeadlock(n, correct) <==> !correct || n == 1
  {
    hide Runs, Mutex.Deadlocked, Start, Initial, AtStage, Inv;
    if !correct || n == 1 {
      StartIsInitial(n);
      var moves, s' := AllAskLeft(Start(n), n, correct);
      LastStageIsDeadlocked(s');
    } else if CanDeadlock(n, correct) {
      var s, moves, s', c: seq<Philosopher> :|
        Initial(s) && |s.seats| == n && Runs(s, correct, moves, s') && Mutex.Deadlocked(s'.mutexes, c);
      InitialInv(s, true);
      RunKeepsInv(s, true, moves, s');
      NoDeadlock(s', c);
    }
  }
}

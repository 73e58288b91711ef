/** Tracked mutexes as interleaved atomic steps. The true holder of a mutex, the recorded
    owner and the recorded waiters change at different moments. Locking and unlocking only
    read-lock the mutex table, so their steps interleave freely; creating a mutex
    write-locks it, which rules out some of the interleavings allowed here. */
module Mutex {
  import opened Text

  type Thread = nat
  type MutexId = nat

  /** Where a thread is inside `iw_mutex_lock` or `iw_mutex_unlock`, by the line it has
      just executed: announced (121), failed to take at once (123), taken (123 or 131),
      recorded as owner (144), forgotten as owner (160). */
  datatype Phase =
    | Idle
    | Trying(m: MutexId)
    | Waiting(m: MutexId)
    | Taken(m: MutexId)
    | Recorded(m: MutexId)
    | Releasing(m: MutexId)

  datatype State = State(
    holder: map<MutexId, Option<Thread>>,   // who truly holds each mutex of the table
    owner: map<MutexId, Option<Thread>>,    // `minfo->thread`
    waiter: map<Thread, Option<MutexId>>,   // `tinfo->mutex`
    phase: map<Thread, Phase>)

  datatype Step =
    | Create(m: MutexId)              // `iw_mutex_create`
    | Announce(t: Thread, m: MutexId) // lines 110-121
    | Try(t: Thread)                  // line 123
    | Acquire(t: Thread)              // line 131
    | Record(t: Thread)               // line 144
    | Finish(t: Thread)               // line 147
    | Forget(t: Thread, m: MutexId)   // lines 156-160; only a holder unlocks
    | Release(t: Thread)              // line 161

  predicate Typed(s: State) {
    && s.holder.Keys == s.owner.Keys && s.waiter.Keys == s.phase.Keys
    && (forall t :: t in s.phase ==>
          match s.phase[t]
          case Idle => true
          case Trying(m) => m in s.holder
          case Waiting(m) => m in s.holder
          case Taken(m) => m in s.holder
          case Recorded(m) => m in s.holder
          case Releasing(m) => m in s.holder)
  }

  predicate Enabled(s: State, step: Step)
    requires Typed(s)
  {
    match step
    case Create(m) => m !in s.holder
    case Announce(t, m) => t in s.phase && s.phase[t].Idle? && m in s.holder
    case Try(t) => t in s.phase && s.phase[t].Trying?
    case Acquire(t) => t in s.phase && s.phase[t].Waiting? && s.holder[s.phase[t].m].None?
    case Record(t) => t in s.phase && s.phase[t].Taken?
    case Finish(t) => t in s.phase && s.phase[t].Recorded?
    case Forget(t, m) => t in s.phase && s.phase[t].Idle? && m in s.holder && s.holder[m] == Some(t)
    case Release(t) => t in s.phase && s.phase[t].Releasing?
  }

  function Apply(s: State, step: Step): (s': State)
    requires Typed(s) && Enabled(s, step)
    ensures Typed(s')
  {
    match step
    case Create(m) => s.(holder := s.holder[m := None], owner := s.owner[m := None])
    case Announce(t, m) => s.(waiter := s.waiter[t := Some(m)], phase := s.phase[t := Trying(m)])
    case Try(t) =>
      var m := s.phase[t].m;
      if s.holder[m].None? then s.(holder := s.holder[m := Some(t)], phase := s.phase[t := Taken(m)])
      else s.(phase := s.phase[t := Waiting(m)])
    case Acquire(t) =>
      var m := s.phase[t].m;
      s.(holder := s.holder[m := Some(t)], phase := s.phase[t := Taken(m)])
    case Record(t) =>
      var m := s.phase[t].m;
      s.(owner := s.owner[m := Some(t)], phase := s.phase[t := Recorded(m)])
    case Finish(t) => s.(waiter := s.waiter[t := None], phase := s.phase[t := Idle])
    case Forget(t, m) => s.(owner := s.owner[m := None], phase := s.phase[t := Releasing(m)])
    case Release(t) =>
      s.(holder := s.holder[s.phase[t].m := None], phase := s.phase[t := Idle])
  }

  predicate Initial(s: State) {
    && Typed(s)
    && (forall m :: m in s.holder ==> s.holder[m].None? && s.owner[m].None?)
    && (forall t :: t in s.phase ==> s.phase[t].Idle? && s.waiter[t].None?)
  }

  // ----- what every step keeps

  /** What a thread's phase says about the records. */
  predicate PhaseAgrees(s: State, t: Thread)
    requires Typed(s) && t in s.phase
  {
    match s.phase[t]
    case Idle => s.waiter[t].None?
    case Trying(m) => s.waiter[t] == Some(m)
    case Waiting(m) => s.waiter[t] == Some(m)
    case Taken(m) => s.waiter[t] == Some(m) && s.holder[m] == Some(t) && s.owner[m].None?
    case Recorded(m) => s.waiter[t] == Some(m) && s.holder[m] == Some(t) && s.owner[m] == Some(t)
    case Releasing(m) => s.waiter[t].None? && s.holder[m] == Some(t) && s.owner[m].None?
  }

  /** The recorded owner, if there is one, is the true holder; the holder is recorded
      except between taking and recording, and between forgetting and releasing. */
  predicate OwnerAgrees(s: State, m: MutexId)
    requires Typed(s) && m in s.holder
  {
    && (s.owner[m].Some? ==> s.owner[m] == s.holder[m])
    && (s.holder[m].Some? ==>
          var t := s.holder[m].value;
          t in s.phase && (s.owner[m] == Some(t) || s.phase[t] == Taken(m) || s.phase[t] == Releasing(m)))
  }

  predicate Inv(s: State) {
    && Typed(s)
    && (forall t :: t in s.phase ==> PhaseAgrees(s, t))
    && (forall m :: m in s.holder ==> OwnerAgrees(s, m))
  }

  lemma InitialInv(s: State)
    requires Initial(s)
    ensures Inv(s)
  {
  }

  lemma StepKeepsPhases(s: State, step: Step, t: Thread)
    requires Inv(s) && Enabled(s, step) && t in s.phase
    ensures t in Apply(s, step).phase && PhaseAgrees(Apply(s, step), t)
  {
    assert PhaseAgrees(s, t);
    match step
    case Create(m) =>
    case Announce(u, m) =>
    case Try(u) => assert PhaseAgrees(s, u) && OwnerAgrees(s, s.phase[u].m);
    case Acquire(u) => assert PhaseAgrees(s, u) && OwnerAgrees(s, s.phase[u].m);
    case Record(u) => assert PhaseAgrees(s, u);
    case Finish(u) => assert PhaseAgrees(s, u);
    case Forget(u, m) =>
    case Release(u) => assert PhaseAgrees(s, u);
  }

  lemma StepKeepsOwners(s: State, step: Step, m: MutexId)
    requires Inv(s) && Enabled(s, step) && m in Apply(s, step).holder
    ensures OwnerAgrees(Apply(s, step), m)
  {
    assert m in s.holder ==> OwnerAgrees(s, m);
    match step
    case Create(_) =>
    case Announce(u, _) =>
    case Try(u) =>
    case Acquire(u) =>
    case Record(u) => assert PhaseAgrees(s, u);
    case Finish(u) => assert PhaseAgrees(s, u);
    case Forget(u, _) =>
    case Release(u) => assert PhaseAgrees(s, u);
  }

  lemma StepKeepsInv(s: State, step: Step)
    requires Inv(s) && Enabled(s, step)
    ensures Inv(Apply(s, step))
  {
    hide PhaseAgrees, OwnerAgrees;
    forall t | t in s.phase ensures PhaseAgrees(Apply(s, step), t) {
      StepKeepsPhases(s, step, t);
    }
    forall m | m in Apply(s, step).holder ensures OwnerAgrees(Apply(s, step), m) {
      StepKeepsOwners(s, step, m);
    }
    SameThreads(s, step);
  }

  lemma SameThreads(s: State, step: Step)
    requires Typed(s) && Enabled(s, step)
    ensures Apply(s, step).phase.Keys == s.phase.Keys
    ensures step.Create? || Apply(s, step).holder.Keys == s.holder.Keys
  {
  }

  /** A run from one state to another. */
  ghost predicate Runs(s: State, steps: seq<Step>, s': State)
    decreases |steps|
  {
    Typed(s) && if steps == [] then s' == s else Enabled(s, steps[0]) && Runs(Apply(s, steps[0]), steps[1..], s')
  }

  lemma {:induction false} RunKeepsInv(s: State, steps: seq<Step>, s': State)
    requires Inv(s) && Runs(s, steps, s')
    ensures Inv(s')
    decreases |steps|
  {
    if steps != [] {
      StepKeepsInv(s, steps[0]);
      RunKeepsInv(Apply(s, steps[0]), steps[1..], s');
    }
  }

  // ----- what locking and unlocking come to

  /** A new mutex is free and has no recorded owner. */
  lemma CreatedIsFree(s: State, m: MutexId)
    requires Typed(s) && m !in s.holder
    ensures Runs(s, [Create(m)], Apply(s, Create(m)))
    ensures var s' := Apply(s, Create(m));
      && m in s'.holder && s'.holder[m].None? && s'.owner[m].None? && s'.waiter == s.waiter && s'.phase == s.phase
      && forall k :: k in s.holder ==> k in s'.holder && s'.holder[k] == s.holder[k] && s'.owner[k] == s.owner[k]
  {
    OneStep(s, Create(m));
  }

  lemma OneStep(s: State, step: Step)
    requires Typed(s) && Enabled(s, step)
    ensures Runs(s, [step], Apply(s, step))
  {
    hide Apply;
    assert [step][1..] == [];
  }

  lemma {:induction false} RunsOn(s: State, steps: seq<Step>, s': State, more: seq<Step>, s'': State)
    requires Runs(s, steps, s') && Runs(s', more, s'')
    ensures Runs(s, steps + more, s'')
    decreases |steps|
  {
    hide Apply;
    if steps == [] {
      assert steps + more == more;
    } else {
      RunsOn(Apply(s, steps[0]), steps[1..], s', more, s'');
      assert (steps + more)[0] == steps[0] && (steps + more)[1..] == steps[1..] + more;
    }
  }

  /** Locking a free mutex makes the thread its holder and its recorded owner, and changes nothing else. */
  lemma LockFree(s: State, t: Thread, m: MutexId)
    requires Inv(s) && t in s.phase && s.phase[t].Idle? && m in s.holder && s.holder[m].None?
    ensures Runs(s, [Announce(t, m), Try(t)] + [Record(t), Finish(t)],
                 s.(holder := s.holder[m := Some(t)], owner := s.owner[m := Some(t)]))
  {
    assert PhaseAgrees(s, t);
    var s1 := Apply(s, Announce(t, m));
    var s2 := Apply(s1, Try(t));
    var s3 := Apply(s2, Record(t));
    var s4 := Apply(s3, Finish(t));
    assert s4.waiter == s.waiter && s4.phase == s.phase;
    TwoSteps(s, Announce(t, m), Try(t));
    TwoSteps(s2, Record(t), Finish(t));
    RunsOn(s, [Announce(t, m), Try(t)], s2, [Record(t), Finish(t)], s4);
  }

  lemma TwoSteps(s: State, a: Step, b: Step)
    requires Typed(s) && Enabled(s, a) && Enabled(Apply(s, a), b)
    ensures Runs(s, [a, b], Apply(Apply(s, a), b))
  {
    hide Apply;
    OneStep(s, a);
    OneStep(Apply(s, a), b);
    RunsOn(s, [a], Apply(s, a), [b], Apply(Apply(s, a), b));
    assert [a] + [b] == [a, b];
  }

  /** Unlocking undoes that: the mutex is free and has no recorded owner, and nothing else is changed. */
  lemma Unlock(s: State, t: Thread, m: MutexId)
    requires Inv(s) && t in s.phase && s.phase[t].Idle? && m in s.holder && s.holder[m] == Some(t)
    ensures Runs(s, [Forget(t, m), Release(t)], s.(holder := s.holder[m := None], owner := s.owner[m := None]))
  {
    TwoSteps(s, Forget(t, m), Release(t));
    assert Apply(Apply(s, Forget(t, m)), Release(t)).phase == s.phase;
  }

  /** A thread that asks for a mutex that is held waits for it, and cannot take it. */
  lemma LockHeld(s: State, t: Thread, m: MutexId)
    requires Inv(s) && t in s.phase && s.phase[t].Idle? && m in s.holder && s.holder[m].Some?
    ensures var s' := s.(waiter := s.waiter[t := Some(m)], phase := s.phase[t := Waiting(m)]);
      Runs(s, [Announce(t, m), Try(t)], s') && Typed(s') && !Enabled(s', Acquire(t))
  {
    TwoSteps(s, Announce(t, m), Try(t));
    assert Apply(Apply(s, Announce(t, m)), Try(t)).phase == s.phase[t := Waiting(m)];
  }

  /** In every reachable state the recorded owner of a mutex, if set, truly holds it. */
  lemma OwnerIsHolder(s: State, steps: seq<Step>, s': State, m: MutexId)
    requires Initial(s) && Runs(s, steps, s')
    ensures m in s'.owner && s'.owner[m].Some? ==> m in s'.holder && s'.holder[m] == s'.owner[m]
  {
    InitialInv(s);
    RunKeepsInv(s, steps, s');
    assert m in s'.holder ==> OwnerAgrees(s', m);
  }

  // ----- deadlock

  /** The recorded wait-for edge: the owner of the mutex a thread is recorded to wait for. */
  function RecordedNext(s: State, t: Thread): Option<Thread> {
    if t !in s.waiter || s.waiter[t].None? || s.waiter[t].value !in s.owner then None
    else s.owner[s.waiter[t].value]
  }

  /** The true edge: a thread that has not got its mutex waits for whoever holds it. */
  function TrueNext(s: State, t: Thread): Option<Thread> {
    if t !in s.phase || !(s.phase[t].Trying? || s.phase[t].Waiting?) || s.phase[t].m !in s.holder then None
    else s.holder[s.phase[t].m]
  }

  /** The index after `i` in a cycle of `n`. */
  function After(i: nat, n: nat): nat {
    if i + 1 < n then i + 1 else 0
  }

  ghost predicate RecordedCycle(s: State, c: seq<Thread>) {
    c != [] && forall i :: 0 <= i < |c| ==> RecordedNext(s, c[i]) == Some(c[After(i, |c|)])
  }

  /** Threads each of which waits for a mutex the next one holds. */
  ghost predicate Deadlocked(s: State, c: seq<Thread>) {
    c != [] && forall i :: 0 <= i < |c| ==> TrueNext(s, c[i]) == Some(c[After(i, |c|)])
  }

  ghost predicate Distinct(c: seq<Thread>) {
    forall i, j :: 0 <= i < j < |c| ==> c[i] != c[j]
  }

  lemma RecordedEdgeIsTrue(s: State, t: Thread, u: Thread)
    requires Inv(s) && t != u && RecordedNext(s, t) == Some(u)
    ensures TrueNext(s, t) == Some(u)
  {
    assert PhaseAgrees(s, t);
    assert OwnerAgrees(s, s.waiter[t].value);
  }

  lemma TrueEdgeIsRecorded(s: State, t: Thread, u: Thread)
    requires Inv(s) && TrueNext(s, t) == Some(u) && TrueNext(s, u).Some?
    ensures RecordedNext(s, t) == Some(u)
  {
    assert PhaseAgrees(s, t);
    assert PhaseAgrees(s, u);
    assert OwnerAgrees(s, s.phase[t].m);
  }

  lemma DeadlockIsRecorded(s: State, c: seq<Thread>)
    requires Inv(s) && Deadlocked(s, c)
    ensures RecordedCycle(s, c)
  {
    forall i | 0 <= i < |c| ensures RecordedNext(s, c[i]) == Some(c[After(i, |c|)]) {
      TrueEdgeIsRecorded(s, c[i], c[After(i, |c|)]);
    }
  }

  /** Two or more threads form a recorded cycle exactly when they are deadlocked. */
  lemma CycleIsDeadlock(s: State, c: seq<Thread>)
    requires Inv(s) && |c| >= 2 && Distinct(c)
    ensures RecordedCycle(s, c) <==> Deadlocked(s, c)
  {
    if RecordedCycle(s, c) {
      forall i | 0 <= i < |c| ensures TrueNext(s, c[i]) == Some(c[After(i, |c|)]) {
        var j := After(i, |c|);
        RecordedEdgeIsTrue(s, c[i], c[j]);
      }
    }
    if Deadlocked(s, c) {
      DeadlockIsRecorded(s, c);
    }
  }

  /** One thread forms a recorded cycle also while it is between recording itself as owner
      and withdrawing as waiter; otherwise exactly when it waits for itself. */
  lemma SelfCycle(s: State, t: Thread)
    requires Inv(s) && t in s.phase
    ensures RecordedCycle(s, [t]) <==> Deadlocked(s, [t]) || s.phase[t].Recorded?
  {
    assert PhaseAgrees(s, t);
    assert RecordedCycle(s, [t]) <==> RecordedNext(s, t) == Some(t) by { OneThread(s, t); }
    assert Deadlocked(s, [t]) <==> TrueNext(s, t) == Some(t) by { OneThread(s, t); }
    if s.waiter[t].Some? {
      assert OwnerAgrees(s, s.waiter[t].value);
    }
  }

  lemma OneThread(s: State, t: Thread)
    ensures RecordedCycle(s, [t]) <==> RecordedNext(s, t) == Some(t)
    ensures Deadlocked(s, [t]) <==> TrueNext(s, t) == Some(t)
  {
    assert [t][0] == t && After(0, |[t]|) == 0;
  }

  /** No step of any thread undoes a deadlock. */
  lemma StepKeepsDeadlock(s: State, step: Step, c: seq<Thread>)
    requires Inv(s) && Enabled(s, step) && Deadlocked(s, c)
    ensures Deadlocked(Apply(s, step), c)
  {
    var s' := Apply(s, step);
    forall i | 0 <= i < |c| ensures TrueNext(s', c[i]) == Some(c[After(i, |c|)]) {
      var u := c[After(i, |c|)];
      assert TrueNext(s, c[i]) == Some(u);
      assert TrueNext(s, u).Some?;
    }
  }

  /** Once recorded, a cycle of two or more threads stays in every later state, and its
      threads never get their mutexes. */
  lemma {:induction false} CycleStays(s: State, steps: seq<Step>, s': State, c: seq<Thread>)
    requires Inv(s) && Runs(s, steps, s') && |c| >= 2 && Distinct(c) && RecordedCycle(s, c)
    ensures RecordedCycle(s', c) && Deadlocked(s', c)
    ensures forall t :: t in c ==> t in s'.phase && (s'.phase[t].Trying? || s'.phase[t].Waiting?)
    decreases |steps|
  {
    CycleIsDeadlock(s, c);
    if steps == [] {
      forall t | t in c ensures t in s'.phase && (s'.phase[t].Trying? || s'.phase[t].Waiting?) {
        var i :| 0 <= i < |c| && c[i] == t;
        assert TrueNext(s', c[i]).Some?;
      }
    } else {
      StepKeepsInv(s, steps[0]);
      StepKeepsDeadlock(s, steps[0], c);
      CycleIsDeadlock(Apply(s, steps[0]), c);
      CycleStays(Apply(s, steps[0]), steps[1..], s', c);
    }
  }
}

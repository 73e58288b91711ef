/** `iw_thread_deadlock_check`: from every thread in turn, follow the recorded waits until
    they end or come back. */
module DeadlockCheck {
  import opened Collections
  import opened Text
  import Mutex

  type Thread = Mutex.Thread
  type MutexId = Mutex.MutexId

  /** The tables the check reads: what each thread waits for, and each mutex's owner. */
  datatype Tables = Tables(waits: map<Thread, Option<MutexId>>, owners: map<MutexId, Option<Thread>>)

  /** The thread waits for a mutex that is not in the table. */
  predicate Stuck(g: Tables, t: Thread)
    requires t in g.waits
  {
    g.waits[t].Some? && g.waits[t].value !in g.owners
  }

  /** The next thread of the walk; none if the thread waits for nothing, or for a mutex
      that is not in the table or whose owner is unknown to the thread table. */
  function Hop(g: Tables, t: Thread): (u: Option<Thread>)
    requires t in g.waits
    ensures u.Some? ==> u.value in g.waits
  {
    if g.waits[t].None? || g.waits[t].value !in g.owners then None
    else
      var owner := g.owners[g.waits[t].value];
      if owner.Some? && owner.value in g.waits then owner else None
  }

  /** Where the walk from `t` is after `n` hops. */
  function Walk(g: Tables, t: Thread, n: nat): (u: Option<Thread>)
    requires t in g.waits
    ensures u.Some? ==> u.value in g.waits
  {
    if n == 0 then Some(t)
    else
      var u := Walk(g, t, n - 1);
      if u.None? then None else Hop(g, u.value)
  }

  ghost predicate OnCycle(g: Tables, t: Thread)
    requires t in g.waits
  {
    exists k: nat :: k > 0 && Walk(g, t, k) == Some(t)
  }

  /** The walk comes to some thread twice. */
  ghost predicate Repeats(g: Tables, t: Thread)
    requires t in g.waits
  {
    exists i: nat, j: nat :: i < j && Walk(g, t, i).Some? && Walk(g, t, i) == Walk(g, t, j)
  }

  // ----- walks

  lemma {:induction false} WalkFrom(g: Tables, t: Thread, i: nat, n: nat)
    requires t in g.waits && Walk(g, t, i).Some?
    ensures Walk(g, t, i + n) == Walk(g, Walk(g, t, i).value, n)
  {
    if n > 0 {
      WalkFrom(g, t, i, n - 1);
    }
  }

  lemma {:induction false} WalkEnds(g: Tables, t: Thread, i: nat, j: nat)
    requires t in g.waits && i <= j && Walk(g, t, i).None?
    ensures Walk(g, t, j).None?
  {
    if i < j {
      WalkEnds(g, t, i, j - 1);
    }
  }

  /** A walk that has repeated itself goes round for ever inside what it has seen. */
  lemma {:induction false} Periodic(g: Tables, t: Thread, i: nat, j: nat, k: nat) returns (m: nat)
    requires t in g.waits && i < j && i <= k
    requires Walk(g, t, i).Some? && Walk(g, t, i) == Walk(g, t, j)
    ensures i <= m < j && Walk(g, t, k) == Walk(g, t, m) && Walk(g, t, k).Some?
    decreases k
  {
    if k < j {
      m := k;
      if Walk(g, t, k).None? {
        WalkEnds(g, t, k, j);
      }
    } else {
      WalkFrom(g, t, i, k - j);
      WalkFrom(g, t, j, k - j);
      m := Periodic(g, t, i, j, k - (j - i));
    }
  }

  /** If a walk repeats itself and comes back to its start, it does so first of all. */
  lemma FirstRepeatIsReturn(g: Tables, t: Thread, i: nat, j: nat)
    requires t in g.waits && 0 < i < j
    requires Walk(g, t, i).Some? && Walk(g, t, i) == Walk(g, t, j)
    requires forall k :: 0 < k <= j ==> Walk(g, t, k) != Some(t)
    ensures !OnCycle(g, t)
  {
    forall k: nat | k > 0 ensures Walk(g, t, k) != Some(t) {
      if k > j {
        var m := Periodic(g, t, i, j, k);
      }
    }
  }

  ghost predicate Visited(g: Tables, t: Thread, n: nat, u: Thread)
    requires t in g.waits
  {
    exists k :: 0 <= k <= n && Walk(g, t, k) == Some(u)
  }

  /** Hops that stay away from the start and from each other are fewer than the threads. */
  lemma {:induction false} DistinctVisited(g: Tables, t: Thread, n: nat) returns (seen: set<Thread>)
    requires t in g.waits
    requires forall k :: 0 <= k <= n ==> Walk(g, t, k).Some?
    requires forall i, j :: 0 <= i < j <= n ==> Walk(g, t, i) != Walk(g, t, j)
    ensures |seen| == n + 1 && seen <= g.waits.Keys
    ensures forall u :: u in seen ==> Visited(g, t, n, u)
  {
    var before := {};
    if n > 0 {
      before := DistinctVisited(g, t, n - 1);
    }
    seen := before + {Walk(g, t, n).value};
    forall u | u in seen ensures Visited(g, t, n, u) {
      if u in before {
        var k :| 0 <= k <= n - 1 && Walk(g, t, k) == Some(u);
        assert 0 <= k <= n;
      } else {
        assert Walk(g, t, n) == Some(u);
      }
    }
  }

  /** From a thread whose walk ends or comes back to it, the walk has fewer hops without
      coming back than there are threads. */
  lemma HopsBounded(g: Tables, t: Thread, n: nat)
    requires t in g.waits
    requires Repeats(g, t) ==> OnCycle(g, t)
    requires forall k :: 0 <= k <= n ==> Walk(g, t, k).Some?
    requires forall k :: 0 < k <= n ==> Walk(g, t, k) != Some(t)
    ensures n < |g.waits.Keys|
  {
    forall i, j | 0 <= i < j <= n ensures Walk(g, t, i) != Walk(g, t, j) {
      if Walk(g, t, i) == Walk(g, t, j) && i > 0 {
        FirstRepeatIsReturn(g, t, i, j);
      }
    }
    var seen := DistinctVisited(g, t, n);
    SubsetIsSmaller(seen, g.waits.Keys);
  }

  // ----- the check

  /** The walk comes to a thread it is stuck at. */
  ghost predicate ComesToStuck(g: Tables, t: Thread)
    requires t in g.waits
  {
    exists n: nat :: Walk(g, t, n).Some? && Stuck(g, Walk(g, t, n).value)
  }

  /** The walk repeats itself without coming back, or is stuck. */
  ghost predicate Endless(g: Tables, t: Thread)
    requires t in g.waits
  {
    (Repeats(g, t) && !OnCycle(g, t)) || ComesToStuck(g, t)
  }

  /** The inner loop. From a thread whose walk is not endless it ends within the number of
      threads. */
  method WalkBack(g: Tables, curr: Thread) returns (found: bool)
    requires curr in g.waits && !Endless(g, curr)
    ensures found <==> OnCycle(g, curr)
  {
    var thread := Some(curr);
    ghost var hops := 0;
    while thread.Some? && g.waits[thread.value].Some?
      invariant thread == Walk(g, curr, hops)
      invariant forall k :: 0 <= k < hops ==> Walk(g, curr, k).Some?
      invariant forall k :: 0 < k <= hops ==> Walk(g, curr, k) != Some(curr)
      invariant thread.Some? ==> hops < |g.waits.Keys|
      decreases |g.waits.Keys| - hops + if thread.Some? then 1 else 0
    {
      HopsBounded(g, curr, hops);
      assert !Stuck(g, thread.value);
      var mutex := g.waits[thread.value].value;
      var owner := g.owners[mutex];
      thread := if owner.Some? && owner.value in g.waits then owner else None;
      hops := hops + 1;
      assert thread == Walk(g, curr, hops);
      if thread == Some(curr) {
        return true;
      }
      if thread.Some? {
        HopsBounded(g, curr, hops);
      }
    }
    forall k: nat | k > 0 ensures Walk(g, curr, k) != Some(curr) {
      if k > hops {
        assert Walk(g, curr, hops + 1).None?;
        WalkEnds(g, curr, hops + 1, k);
      }
    }
    found := false;
  }

  /** In this order, the check comes to a thread whose walk is endless before it comes to
      any thread on a cycle. */
  ghost predicate EndlessFirst(g: Tables, order: seq<Thread>)
    requires forall t :: t in order ==> t in g.waits
  {
    exists i :: 0 <= i < |order| && Endless(g, order[i]) && forall j :: 0 <= j < i ==> !OnCycle(g, order[j])
  }

  lemma NotEndlessYet(g: Tables, order: seq<Thread>, i: nat)
    requires (forall t :: t in order ==> t in g.waits) && !EndlessFirst(g, order)
    requires i < |order| && forall j :: 0 <= j < i ==> !OnCycle(g, order[j])
    ensures !Endless(g, order[i])
  {
    hide OnCycle, Endless;
  }

  /** The whole check, over the threads in table order: unless it comes to an endless walk
      first, it reports a deadlock exactly when the recorded waits have a cycle. */
  method Check(g: Tables, order: seq<Thread>) returns (found: bool)
    requires (forall t :: t in order <==> t in g.waits) && !EndlessFirst(g, order)
    ensures found <==> exists t :: t in g.waits && OnCycle(g, t)
  {
    hide OnCycle, Endless, EndlessFirst;
    var i := 0;
    while i < |order|
      invariant 0 <= i <= |order|
      invariant forall j :: 0 <= j < i ==> !OnCycle(g, order[j])
    {
      NotEndlessYet(g, order, i);
      found := WalkBack(g, order[i]);
      if found {
        return;
      }
      i := i + 1;
    }
    found := false;
  }

  // ----- when the inner loop ends

  datatype Outcome = Found | Ended | Running

  /** The inner loop cut off after `fuel` turns, for any tables. A mutex that is not in
      the table leaves the loop where it is. */
  function Turns(g: Tables, curr: Thread, thread: Option<Thread>, fuel: nat): Outcome
    requires thread.Some? ==> thread.value in g.waits
    decreases fuel
  {
    if thread.None? || g.waits[thread.value].None? then Ended
    else if fuel == 0 then Running
    else
      var m := g.waits[thread.value].value;
      if m !in g.owners then Turns(g, curr, thread, fuel - 1)
      else
        var next := if g.owners[m].Some? && g.owners[m].value in g.waits then g.owners[m] else None;
        if next == Some(curr) then Found else Turns(g, curr, next, fuel - 1)
  }

  /** Where the loop is after some hops that did not come back. */
  lemma {:induction false} TurnsFollowWalk(g: Tables, curr: Thread, h: nat, fuel: nat)
    requires curr in g.waits && h <= fuel
    requires forall k :: 0 <= k <= h ==> Walk(g, curr, k).Some?
    requires forall k :: 0 < k <= h ==> Walk(g, curr, k) != Some(curr)
    ensures Turns(g, curr, Some(curr), fuel) == Turns(g, curr, Walk(g, curr, h), fuel - h)
    decreases h
  {
    if h > 0 {
      TurnsFollowWalk(g, curr, h - 1, fuel);
      assert Walk(g, curr, h - 1).Some? && Walk(g, curr, h).Some?;
    }
  }

  lemma {:induction false} StuckForever(g: Tables, curr: Thread, t: Thread, fuel: nat)
    requires t in g.waits && Stuck(g, t)
    ensures Turns(g, curr, Some(t), fuel).Running?
  {
    if fuel > 0 {
      StuckForever(g, curr, t, fuel - 1);
    }
  }

  /** A walk that comes back repeats itself for ever, and so is never stuck. */
  lemma StuckNeverReturns(g: Tables, t: Thread, n: nat)
    requires t in g.waits && Walk(g, t, n).Some? && Stuck(g, Walk(g, t, n).value)
    ensures !Repeats(g, t)
    ensures forall k :: 0 <= k <= n ==> Walk(g, t, k).Some?
    ensures forall k :: 0 < k <= n ==> Walk(g, t, k) != Some(t)
  {
    assert Walk(g, t, n + 1).None?;
    forall k | 0 <= k <= n ensures Walk(g, t, k).Some? {
      if Walk(g, t, k).None? {
        WalkEnds(g, t, k, n);
      }
    }
    forall i: nat, j: nat | i < j && Walk(g, t, i).Some? ensures Walk(g, t, i) != Walk(g, t, j) {
      if Walk(g, t, i) == Walk(g, t, j) {
        if i <= n + 1 {
          var m := Periodic(g, t, i, j, n + 1);
        } else {
          WalkEnds(g, t, n + 1, i);
        }
      }
    }
    assert Walk(g, t, 0) == Some(t);
  }

  lemma EndlessRuns(g: Tables, curr: Thread, fuel: nat)
    requires curr in g.waits && Endless(g, curr)
    ensures Turns(g, curr, Some(curr), fuel).Running?
  {
    if ComesToStuck(g, curr) {
      var n: nat :| Walk(g, curr, n).Some? && Stuck(g, Walk(g, curr, n).value);
      StuckNeverReturns(g, curr, n);
      var h := if n < fuel then n else fuel;
      TurnsFollowWalk(g, curr, h, fuel);
      if n <= fuel {
        StuckForever(g, curr, Walk(g, curr, n).value, fuel - n);
      } else {
        assert Walk(g, curr, fuel + 1).Some?;
      }
    } else {
      var i: nat, j: nat :| i < j && Walk(g, curr, i).Some? && Walk(g, curr, i) == Walk(g, curr, j);
      forall k: nat | k <= fuel + 1 ensures Walk(g, curr, k).Some? {
        if k >= i {
          var m := Periodic(g, curr, i, j, k);
        } else if Walk(g, curr, k).None? {
          WalkEnds(g, curr, k, i);
        }
      }
      TurnsFollowWalk(g, curr, fuel, fuel);
      assert Walk(g, curr, fuel + 1).Some?;
    }
  }

  /** An inner loop that is not endless comes to its answer. */
  lemma TurnsEnd(g: Tables, curr: Thread) returns (fuel: nat)
    requires curr in g.waits && !Endless(g, curr)
    ensures Turns(g, curr, Some(curr), fuel) == if OnCycle(g, curr) then Found else Ended
  {
    var h := EndOfWalk(g, curr);
    fuel := h + 1;
    TurnsFollowWalk(g, curr, h, fuel);
    assert Walk(g, curr, h + 1) == Hop(g, Walk(g, curr, h).value);
    assert !Stuck(g, Walk(g, curr, h).value);
    if Walk(g, curr, h + 1).None? {
      forall k: nat | k > 0 ensures Walk(g, curr, k) != Some(curr) {
        if k > h {
          WalkEnds(g, curr, h + 1, k);
        }
      }
    }
  }

  /** The inner loop runs for ever exactly when the walk from its start is stuck, or repeats
      itself without coming back, as from a thread that waits for deadlocked others. */
  lemma RunsForeverExactly(g: Tables, curr: Thread)
    requires curr in g.waits
    ensures (forall fuel: nat :: Turns(g, curr, Some(curr), fuel).Running?) <==> Endless(g, curr)
  {
    if Endless(g, curr) {
      forall fuel: nat ensures Turns(g, curr, Some(curr), fuel).Running? {
        EndlessRuns(g, curr, fuel);
      }
    } else {
      var fuel := TurnsEnd(g, curr);
      assert !Turns(g, curr, Some(curr), fuel).Running?;
    }
  }

  /** An answer once come to stays. */
  lemma {:induction false} TurnsSettled(g: Tables, curr: Thread, thread: Option<Thread>, fuel: nat, more: nat)
    requires (thread.Some? ==> thread.value in g.waits) && fuel <= more
    requires !Turns(g, curr, thread, fuel).Running?
    ensures Turns(g, curr, thread, more) == Turns(g, curr, thread, fuel)
    decreases fuel
  {
    if thread.Some? && g.waits[thread.value].Some? && fuel > 0 {
      var m := g.waits[thread.value].value;
      if m !in g.owners {
        TurnsSettled(g, curr, thread, fuel - 1, more - 1);
      } else {
        var next := if g.owners[m].Some? && g.owners[m].value in g.waits then g.owners[m] else None;
        if next != Some(curr) {
          TurnsSettled(g, curr, next, fuel - 1, more - 1);
        }
      }
    }
  }

  /** The whole check, each inner loop cut off after `fuel` turns. */
  function CheckTurns(g: Tables, order: seq<Thread>, fuel: nat): Outcome
    requires forall t :: t in order ==> t in g.waits
  {
    if order == [] then Ended
    else
      var o := Turns(g, order[0], Some(order[0]), fuel);
      if o.Ended? then CheckTurns(g, order[1..], fuel) else o
  }

  lemma {:induction false} EndlessFirstRuns(g: Tables, order: seq<Thread>, i: nat, fuel: nat)
    requires (forall t :: t in order ==> t in g.waits) && i < |order|
    requires Endless(g, order[i]) && forall j :: 0 <= j < i ==> !OnCycle(g, order[j])
    ensures CheckTurns(g, order, fuel).Running?
    decreases i
  {
    if i == 0 {
      EndlessRuns(g, order[0], fuel);
    } else {
      assert Walk(g, order[0], 0) == Some(order[0]);
      if Turns(g, order[0], Some(order[0]), fuel).Found? {
        FoundIsCycle(g, order[0], 0, fuel);
      }
      EndlessFirstRuns(g, order[1..], i - 1, fuel);
    }
  }

  lemma {:induction false} CheckEnds(g: Tables, order: seq<Thread>) returns (fuel: nat)
    requires (forall t :: t in order ==> t in g.waits) && !EndlessFirst(g, order)
    ensures forall more :: more >= fuel ==> !CheckTurns(g, order, more).Running?
    decreases |order|
  {
    fuel := 0;
    if order != [] {
      var t := order[0];
      assert !Endless(g, t);
      var one := TurnsEnd(g, t);
      forall more | more >= one ensures Turns(g, t, Some(t), more) == if OnCycle(g, t) then Found else Ended {
        TurnsSettled(g, t, Some(t), one, more);
      }
      fuel := one;
      if !OnCycle(g, t) {
        if EndlessFirst(g, order[1..]) {
          EndlessInRest(g, order);
          assert false;
        }
        var rest := CheckEnds(g, order[1..]);
        fuel := if one > rest then one else rest;
      }
    }
  }

  lemma EndlessInRest(g: Tables, order: seq<Thread>)
    requires (forall t :: t in order ==> t in g.waits) && order != []
    requires EndlessFirst(g, order[1..]) && !OnCycle(g, order[0])
    ensures EndlessFirst(g, order)
  {
    var rest := order[1..];
    var i :| 0 <= i < |rest| && Endless(g, rest[i]) && forall j :: 0 <= j < i ==> !OnCycle(g, rest[j]);
    var k := i + 1;
    assert order[k] == rest[i];
    forall j | 0 <= j < k ensures !OnCycle(g, order[j]) {
      assert j > 0 ==> order[j] == rest[j - 1];
    }
  }

  /** The whole check runs for ever exactly when a thread whose walk is endless comes before
      every thread on a cycle. */
  lemma CheckRunsForeverExactly(g: Tables, order: seq<Thread>)
    requires forall t :: t in order ==> t in g.waits
    ensures (forall fuel: nat :: CheckTurns(g, order, fuel).Running?) <==> EndlessFirst(g, order)
  {
    if EndlessFirst(g, order) {
      var i :| 0 <= i < |order| && Endless(g, order[i]) && forall j :: 0 <= j < i ==> !OnCycle(g, order[j]);
      forall fuel: nat ensures CheckTurns(g, order, fuel).Running? {
        EndlessFirstRuns(g, order, i, fuel);
      }
    } else {
      var fuel := CheckEnds(g, order);
      assert !CheckTurns(g, order, fuel).Running?;
    }
  }

  /** The last hop before the walk ends or comes back. */
  lemma EndOfWalk(g: Tables, t: Thread) returns (h: nat)
    requires t in g.waits
    requires Repeats(g, t) ==> OnCycle(g, t)
    ensures forall k :: 0 <= k <= h ==> Walk(g, t, k).Some?
    ensures forall k :: 0 < k <= h ==> Walk(g, t, k) != Some(t)
    ensures Walk(g, t, h + 1).None? || Walk(g, t, h + 1) == Some(t)
  {
    h := 0;
    while Walk(g, t, h + 1).Some? && Walk(g, t, h + 1) != Some(t)
      invariant forall k :: 0 <= k <= h ==> Walk(g, t, k).Some?
      invariant forall k :: 0 < k <= h ==> Walk(g, t, k) != Some(t)
      decreases |g.waits.Keys| - h
    {
      HopsBounded(g, t, h + 1);
      h := h + 1;
    }
  }

  /** Cut off or not, the loop reports only cycles through the thread it started from. */
  lemma {:induction false} FoundIsCycle(g: Tables, curr: Thread, h: nat, fuel: nat)
    requires curr in g.waits && Walk(g, curr, h).Some?
    requires Turns(g, curr, Walk(g, curr, h), fuel).Found?
    ensures OnCycle(g, curr)
    decreases fuel
  {
    assert Walk(g, curr, h + 1) == Hop(g, Walk(g, curr, h).value);
    if Stuck(g, Walk(g, curr, h).value) {
      StuckForever(g, curr, Walk(g, curr, h).value, fuel);
    } else if Walk(g, curr, h + 1) == Some(curr) {
    } else if Walk(g, curr, h + 1).Some? {
      FoundIsCycle(g, curr, h + 1, fuel - 1);
    }
  }

  // ----- what the check says about tracked mutexes

  function TablesOf(s: Mutex.State): Tables {
    Tables(s.waiter, s.owner)
  }

  lemma NobodyIsStuck(s: Mutex.State)
    requires Mutex.Inv(s)
    ensures forall t :: t in s.waiter ==> !Stuck(TablesOf(s), t)
    ensures forall t :: t in s.waiter ==> Hop(TablesOf(s), t) == Mutex.RecordedNext(s, t)
  {
    forall t | t in s.waiter ensures s.waiter[t].Some? ==> s.waiter[t].value in s.owner {
      assert Mutex.PhaseAgrees(s, t);
    }
    forall t | t in s.waiter ensures Hop(TablesOf(s), t) == Mutex.RecordedNext(s, t) {
      if s.waiter[t].Some? {
        assert Mutex.OwnerAgrees(s, s.waiter[t].value);
      }
    }
  }

  /** The threads met on the way round. */
  function Round(g: Tables, t: Thread, k: nat): (c: seq<Thread>)
    requires t in g.waits && forall i :: 0 <= i <= k ==> Walk(g, t, i).Some?
    ensures |c| == k && forall i :: 0 <= i < k ==> Walk(g, t, i) == Some(c[i])
  {
    seq(k, i requires 0 <= i < k => Walk(g, t, i).value)
  }

  /** The number of hops before the walk first comes back. */
  lemma FirstReturn(g: Tables, t: Thread) returns (h: nat)
    requires t in g.waits && OnCycle(g, t)
    ensures forall i :: 0 <= i <= h + 1 ==> Walk(g, t, i).Some?
    ensures Walk(g, t, h + 1) == Some(t)
    ensures forall i, j :: 0 <= i < j <= h ==> Walk(g, t, i) != Walk(g, t, j)
  {
    h := 0;
    var k: nat :| k > 0 && Walk(g, t, k) == Some(t);
    while Walk(g, t, h + 1) != Some(t)
      invariant h < k && forall i :: 0 < i <= h ==> Walk(g, t, i) != Some(t)
      decreases k - h
    {
      h := h + 1;
    }
    forall i | 0 <= i <= h + 1 ensures Walk(g, t, i).Some? {
      if Walk(g, t, i).None? {
        WalkEnds(g, t, i, h + 1);
      }
    }
    forall i, j | 0 <= i < j <= h ensures Walk(g, t, i) != Walk(g, t, j) {
      if Walk(g, t, i) == Walk(g, t, j) && i > 0 {
        FirstRepeatIsReturn(g, t, i, j);
      }
    }
  }

  lemma RoundIsCycle(s: Mutex.State, t: Thread, k: nat)
    requires Mutex.Inv(s) && t in s.waiter && k > 0
    requires forall i :: 0 <= i <= k ==> Walk(TablesOf(s), t, i).Some?
    requires Walk(TablesOf(s), t, k) == Some(t)
    ensures Mutex.RecordedCycle(s, Round(TablesOf(s), t, k))
  {
    hide Mutex.Inv, Mutex.RecordedNext;
    var g := TablesOf(s);
    var c := Round(g, t, k);
    NobodyIsStuck(s);
    forall i | 0 <= i < k ensures Mutex.RecordedNext(s, c[i]) == Some(c[Mutex.After(i, k)]) {
      assert Walk(g, t, i + 1) == Hop(g, c[i]);
      if i + 1 == k {
        assert Walk(g, t, 0) == Some(c[0]);
      }
    }
  }

  /** A thread whose recorded waits lead back to it is deadlocked with the threads on the
      way, unless it has just recorded itself as owner. */
  lemma OnCycleMeansDeadlock(s: Mutex.State, t: Thread) returns (c: seq<Thread>)
    requires Mutex.Inv(s) && t in s.waiter && OnCycle(TablesOf(s), t)
    ensures c != [] && c[0] == t && (Mutex.Deadlocked(s, c) || s.phase[t].Recorded?)
  {
    hide Mutex.Inv, Mutex.RecordedCycle, Mutex.Deadlocked;
    var g := TablesOf(s);
    var h := FirstReturn(g, t);
    c := Round(g, t, h + 1);
    assert Walk(g, t, 0) == Some(c[0]);
    RoundIsCycle(s, t, h + 1);
    if h == 0 {
      assert Walk(g, t, 0) == Some(c[0]);
      assert c == [t];
      WaitersAreThreads(s);
      Mutex.SelfCycle(s, t);
    } else {
      assert Mutex.Distinct(c) by {
        forall i, j | 0 <= i < j < |c| ensures c[i] != c[j] {
          assert Walk(g, t, i) == Some(c[i]) && Walk(g, t, j) == Some(c[j]);
        }
      }
      Mutex.CycleIsDeadlock(s, c);
    }
  }

  lemma {:induction false} WalkAlong(s: Mutex.State, c: seq<Thread>, n: nat)
    requires Mutex.Inv(s) && Mutex.RecordedCycle(s, c) && n < |c|
    ensures c[0] in s.waiter && Walk(TablesOf(s), c[0], n) == Some(c[n])
    ensures Walk(TablesOf(s), c[0], n + 1) == Some(c[Mutex.After(n, |c|)])
  {
    hide Mutex.Inv, Mutex.RecordedNext;
    NobodyIsStuck(s);
    if n == 0 {
      NextIsThread(s, c[0]);
    } else {
      WalkAlong(s, c, n - 1);
    }
    assert Mutex.RecordedNext(s, c[n]) == Some(c[Mutex.After(n, |c|)]);
  }

  lemma WaitersAreThreads(s: Mutex.State)
    requires Mutex.Inv(s)
    ensures s.waiter.Keys == s.phase.Keys
  {
  }

  lemma NextIsThread(s: Mutex.State, t: Thread)
    ensures Mutex.RecordedNext(s, t).Some? ==> t in s.waiter
  {
  }

  /** On a state that steps of threads can reach, some walk of the check comes back exactly
      when threads are deadlocked, or a thread is between recording itself as the owner of
      a mutex and withdrawing as its waiter: a false alarm. */
  lemma CheckIsExact(s: Mutex.State)
    requires Mutex.Inv(s)
    ensures forall t :: t in s.waiter ==> !Stuck(TablesOf(s), t)
    ensures (exists t :: t in s.waiter && OnCycle(TablesOf(s), t))
       <==> (exists c :: Mutex.Deadlocked(s, c)) || exists t :: t in s.phase && s.phase[t].Recorded?
  {
    NobodyIsStuck(s);
    var g := TablesOf(s);
    if exists t :: t in s.waiter && OnCycle(g, t) {
      var t :| t in s.waiter && OnCycle(g, t);
      var c := OnCycleMeansDeadlock(s, t);
    }
    if exists c :: Mutex.Deadlocked(s, c) {
      var c :| Mutex.Deadlocked(s, c);
      Mutex.DeadlockIsRecorded(s, c);
      WalkAlong(s, c, |c| - 1);
      assert OnCycle(g, c[0]);
    }
    if exists t :: t in s.phase && s.phase[t].Recorded? {
      var t :| t in s.phase && s.phase[t].Recorded?;
      assert Mutex.PhaseAgrees(s, t);
      assert Walk(g, t, 1) == Hop(g, Walk(g, t, 0).value) == Some(t);
      assert OnCycle(g, t);
    }
  }

  /** The states a single thread goes through while it locks a free mutex. */
  function Locking(phase: Mutex.Phase): Mutex.State {
    var has := phase.Taken? || phase.Recorded?;
    Mutex.State(
      map[7 := if has then Some(1) else None],
      map[7 := if phase.Recorded? then Some(1) else None],
      map[1 := if phase.Idle? then None else Some(7)],
      map[1 := phase])
  }

  lemma LockingAnnounces()
    ensures var s := Locking(Mutex.Idle);
      Mutex.Typed(s) && Mutex.Enabled(s, Mutex.Announce(1, 7))
        && Mutex.Apply(s, Mutex.Announce(1, 7)) == Locking(Mutex.Trying(7))
  {
  }

  lemma LockingTries()
    ensures var s := Locking(Mutex.Trying(7));
      Mutex.Typed(s) && Mutex.Enabled(s, Mutex.Try(1)) && Mutex.Apply(s, Mutex.Try(1)) == Locking(Mutex.Taken(7))
  {
  }

  lemma LockingRecords()
    ensures var s := Locking(Mutex.Taken(7));
      Mutex.Typed(s) && Mutex.Enabled(s, Mutex.Record(1))
        && Mutex.Apply(s, Mutex.Record(1)) == Locking(Mutex.Recorded(7))
    ensures Mutex.Typed(Locking(Mutex.Recorded(7)))
  {
  }

  /** A single thread locking a free mutex, up to the line that records it as owner. */
  lemma OneThreadLocks() returns (s: Mutex.State, steps: seq<Mutex.Step>, s': Mutex.State)
    ensures Mutex.Initial(s) && Mutex.Runs(s, steps, s')
    ensures s' == Locking(Mutex.Recorded(7))
  {
    LockingAnnounces();
    LockingTries();
    LockingRecords();
    s, s' := Locking(Mutex.Idle), Locking(Mutex.Recorded(7));
    assert Mutex.Initial(s);
    hide Mutex.Apply, Mutex.Enabled, Mutex.Typed, Mutex.Initial, Locking;
    steps := [Mutex.Announce(1, 7), Mutex.Try(1), Mutex.Record(1)];
    assert steps[1..][1..] == [Mutex.Record(1)] && steps[1..][1..][1..] == [];
    assert Mutex.Runs(Locking(Mutex.Taken(7)), steps[1..][1..], s');
    assert Mutex.Runs(Locking(Mutex.Trying(7)), steps[1..], s');
  }

  /** That run ends in a state in which the check reports a deadlock, although nobody is
      deadlocked. */
  lemma FalseAlarmIsReachable() returns (s: Mutex.State, steps: seq<Mutex.Step>, s': Mutex.State)
    ensures Mutex.Initial(s) && Mutex.Runs(s, steps, s')
    ensures 1 in s'.waiter && OnCycle(TablesOf(s'), 1) && forall t :: t in s'.waiter ==> !Stuck(TablesOf(s'), t)
    ensures forall c :: !Mutex.Deadlocked(s', c)
  {
    hide Mutex.Initial, Mutex.Runs;
    s, steps, s' := OneThreadLocks();
    var g := TablesOf(s');
    assert Walk(g, 1, 1) == Hop(g, Walk(g, 1, 0).value) == Some(1);
    forall c ensures !Mutex.Deadlocked(s', c) {
      assert c != [] ==> Mutex.TrueNext(s', c[0]).None?;
    }
  }

  // ----- an endless walk

  /** Thread 1 takes mutex 7 and thread 2 takes mutex 8, each then asks for the other's, and
      thread 0 asks for mutex 7: the state after `n` of these eleven steps. */
  function Knot(n: nat): Mutex.State {
    Mutex.State(
      map[7 := if n >= 2 then Some(1) else None, 8 := if n >= 6 then Some(2) else None],
      map[7 := if n >= 3 then Some(1) else None, 8 := if n >= 7 then Some(2) else None],
      map[
        0 := if n >= 11 then Some(7) else None,
        1 := if n >= 9 then Some(8) else if 1 <= n <= 3 then Some(7) else None,
        2 := if n >= 10 then Some(7) else if 5 <= n <= 7 then Some(8) else None],
      map[
        0 := if n >= 11 then Mutex.Trying(7) else Mutex.Idle,
        1 := if n >= 9 then Mutex.Trying(8) else LockingPhase(7, n),
        2 := if n >= 10 then Mutex.Trying(7) else if n >= 4 then LockingPhase(8, n - 4) else Mutex.Idle])
  }

  /** The phase after so many steps of locking a free mutex. */
  function LockingPhase(m: MutexId, n: nat): Mutex.Phase {
    if n == 1 then Mutex.Trying(m)
    else if n == 2 then Mutex.Taken(m)
    else if n == 3 then Mutex.Recorded(m)
    else Mutex.Idle
  }

  function KnotStep(n: nat): Mutex.Step {
    if n == 8 then Mutex.Announce(1, 8)
    else if n == 9 then Mutex.Announce(2, 7)
    else if n >= 10 then Mutex.Announce(0, 7)
    else
      var t, m, k := if n < 4 then 1 else 2, if n < 4 then 7 else 8, if n < 4 then n else n - 4;
      if k == 0 then Mutex.Announce(t, m)
      else if k == 1 then Mutex.Try(t)
      else if k == 2 then Mutex.Record(t)
      else Mutex.Finish(t)
  }

  function KnotSteps(n: nat): seq<Mutex.Step>
    decreases 11 - n
  {
    if n >= 11 then [] else [KnotStep(n)] + KnotSteps(n + 1)
  }

  lemma KnotTyped(n: nat)
    ensures Mutex.Typed(Knot(n))
  {
  }

  lemma FirstTies(n: nat)
    requires n < 2
    ensures Mutex.Typed(Knot(n)) && Mutex.Enabled(Knot(n), KnotStep(n))
      && Mutex.Apply(Knot(n), KnotStep(n)) == Knot(n + 1)
  {
    KnotTyped(n);
  }

  lemma MoreTies(n: nat)
    requires 2 <= n < 4
    ensures Mutex.Typed(Knot(n)) && Mutex.Enabled(Knot(n), KnotStep(n))
      && Mutex.Apply(Knot(n), KnotStep(n)) == Knot(n + 1)
  {
    KnotTyped(n);
  }

  lemma SecondTies(n: nat)
    requires 4 <= n < 8
    ensures Mutex.Typed(Knot(n)) && Mutex.Enabled(Knot(n), KnotStep(n))
      && Mutex.Apply(Knot(n), KnotStep(n)) == Knot(n + 1)
  {
    KnotTyped(n);
  }

  lemma LastTies(n: nat)
    requires 8 <= n < 11
    ensures Mutex.Typed(Knot(n)) && Mutex.Enabled(Knot(n), KnotStep(n))
      && Mutex.Apply(Knot(n), KnotStep(n)) == Knot(n + 1)
  {
    KnotTyped(n);
  }

  lemma {:induction false} KnotRuns(n: nat)
    requires n <= 11
    ensures Mutex.Runs(Knot(n), KnotSteps(n), Knot(11))
    decreases 11 - n
  {
    KnotTyped(n);
    hide Mutex.Typed, Mutex.Enabled, Mutex.Apply, Knot, KnotStep;
    if n < 11 {
      if n < 2 {
        FirstTies(n);
      } else if n < 4 {
        MoreTies(n);
      } else if n < 8 {
        SecondTies(n);
      } else {
        LastTies(n);
      }
      KnotRuns(n + 1);
      assert KnotSteps(n)[1..] == KnotSteps(n + 1);
    }
  }

  /** In the end threads 1 and 2 are deadlocked, and the check never ends if it starts from
      thread 0, which waits for them. */
  lemma EndlessWalkIsReachable()
    ensures Mutex.Initial(Knot(0)) && Mutex.Runs(Knot(0), KnotSteps(0), Knot(11))
    ensures Mutex.Deadlocked(Knot(11), [1, 2])
    ensures 0 in Knot(11).waiter && Endless(TablesOf(Knot(11)), 0)
    ensures forall fuel: nat :: CheckTurns(TablesOf(Knot(11)), [0, 1, 2], fuel).Running?
  {
    hide Mutex.Runs, KnotSteps, KnotStep, Mutex.Initial, Mutex.Deadlocked, Endless, CheckTurns, TablesOf, Knot;
    KnotStarts();
    KnotRuns(0);
    KnotIsDeadlock();
    KnotIsEndless();
    KnotChecked();
  }

  lemma KnotStarts()
    ensures Mutex.Initial(Knot(0))
  {
    KnotTyped(0);
  }

  lemma KnotChecked()
    ensures forall fuel: nat :: CheckTurns(TablesOf(Knot(11)), [0, 1, 2], fuel).Running?
  {
    KnotIsEndless();
    hide Endless;
    forall fuel: nat ensures CheckTurns(TablesOf(Knot(11)), [0, 1, 2], fuel).Running? {
      EndlessRuns(TablesOf(Knot(11)), 0, fuel);
    }
  }

  lemma KnotIsDeadlock()
    ensures Mutex.Deadlocked(Knot(11), [1, 2])
  {
    var c := [1, 2];
    forall i | 0 <= i < |c| ensures Mutex.TrueNext(Knot(11), c[i]) == Some(c[Mutex.After(i, |c|)]) {
    }
  }

  lemma KnotIsEndless()
    ensures 0 in Knot(11).waiter && Endless(TablesOf(Knot(11)), 0)
  {
    var g := TablesOf(Knot(11));
    assert Hop(g, 0) == Some(1) && Hop(g, 1) == Some(2) && Hop(g, 2) == Some(1);
    assert Walk(g, 0, 0) == Some(0) && Walk(g, 0, 1) == Some(1);
    assert Walk(g, 0, 2) == Some(2) && Walk(g, 0, 3) == Some(1);
    FirstRepeatIsReturn(g, 0, 1, 3);
  }
}

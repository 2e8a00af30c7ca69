/**
 A task in the queue is never left without a worker: exactly which limits guarantee it, in
 every interleaving of any number of callers and workers.
 */
module PoolProgress {
  import opened ThreadPool
  import opened PoolRuns

  /** A task is queued and no worker can take it or is running one that would let it. */
  ghost predicate Stuck(p: Pool) {
    p.tasks != [] && forall w: nat :: !Enabled(p, Take(w)) && !Enabled(p, Finish(w))
  }

  /** A caller that has found no need for a thread, or created one, leaves a worker alive. */
  ghost predicate Vouches(c: Caller) {
    c.Adding? || c.Enqueuing? || (c.Comparing? && c.idle != 0)
  }

  ghost predicate Served(p: Pool) {
    && p.minThreads >= 1 && p.maxThreads >= 1 && p.cur >= 0
    && (p.tasks != [] || (exists c :: 0 <= c < |p.callers| && Vouches(p.callers[c])) ==> AliveCount(p.workers) > 0)
  }

  /** Once a worker is alive, one always is. */
  lemma AliveStays(p: Pool, s: Step)
    requires Counted(p) && p.minThreads >= 1 && Enabled(p, s) && AliveCount(p.workers) > 0
    ensures AliveCount(Next(p, s).workers) > 0
  {
    CountsGrow(p.workers, Waiting);
    match s {
      case Take(w) => CountsChange(p.workers, w, Busy(p.tasks[0]));
      case Finish(w) => CountsChange(p.workers, w, Waiting);
      case IdleExit(w) => CountsChange(p.workers, w, Gone);
      case _ =>
    }
  }

  /** With none alive and nothing queued, a caller comes to vouch for one only by starting it. */
  lemma GoFromNone(p: Pool, c: nat)
    requires Counted(p) && Served(p) && Enabled(p, Go(c)) && AliveCount(p.workers) == 0
    ensures Served(Going(p, c))
  {
    BusyAreAlive(p.workers);
    CountsGrow(p.workers, Waiting);
    var q := Going(p, c);
    assert !Vouches(p.callers[c]);
    if AliveCount(q.workers) == 0 {
      assert !Vouches(q.callers[c]);
      forall d | 0 <= d < |q.callers| ensures !Vouches(q.callers[d]) {
        if d != c { assert q.callers[d] == p.callers[d]; }
      }
    }
  }

  lemma StepKeepsServed(p: Pool, s: Step)
    requires Counted(p) && Served(p) && Enabled(p, s)
    ensures Served(Next(p, s))
  {
    if AliveCount(p.workers) > 0 {
      AliveStays(p, s);
    } else if s.Go? {
      GoFromNone(p, s.c);
    } else {
      if !s.CallStart? && !s.CallCommit? { NobodyHome(p.workers, s.w); }
      var q := Next(p, s);
      forall d | 0 <= d < |q.callers| ensures !Vouches(q.callers[d]) {
        if d < |p.callers| { assert q.callers[d] == p.callers[d]; }
      }
    }
  }

  lemma {:induction false} NobodyHome(ws: seq<Worker>, w: nat)
    requires w < |ws| && !ws[w].Gone?
    ensures AliveCount(ws) > 0
  {
    if w < |ws| - 1 { NobodyHome(ws[..|ws| - 1], w); }
  }

  lemma {:induction false} RunKeepsServed(states: seq<Pool>, steps: seq<Step>, lo: int, hi: int, n: nat)
    requires IsRun(states, steps, lo, hi) && n < |states| && lo >= 1 && hi >= 1
    ensures Served(states[n])
  {
    if n > 0 {
      RunKeepsServed(states, steps, lo, hi, n - 1);
      RunKeepsInv(states, steps, lo, hi, n - 1);
      StepKeepsServed(states[n - 1], steps[n - 1]);
    }
  }

  lemma ServedIsNotStuck(p: Pool)
    requires Served(p)
    ensures !Stuck(p)
  {
    if p.tasks != [] {
      var w := SomeAlive(p.workers);
      assert Enabled(p, Take(w)) || Enabled(p, Finish(w));
    }
  }

  // ----- When it fails -----

  lemma NobodyLeft(p: Pool)
    requires p.tasks != [] && forall w :: 0 <= w < |p.workers| ==> p.workers[w].Gone?
    ensures Stuck(p)
  {
  }

  /** Without a maximum no thread is ever started for the first task. */
  lemma StuckWithoutMaximum(lo: int, hi: int) returns (p: Pool)
    requires hi <= 0
    ensures Reachable(p, lo, hi) && Stuck(p)
  {
    var s := StartClaims(0, lo, hi, 1);
    ArriveShort(s, lo, hi, 1);
    p := EnqueueLast(s, lo, hi, 1);
    UnderIsReachable(p, lo, hi, 1);
    NobodyLeft(p);
  }

  /** A pool started with one thread. */
  lemma StartOne(lo: int, hi: int) returns (p: Pool)
    requires lo <= 0 && hi >= 1
    ensures p == Pool(lo, hi, true, 1, 1, 0, [], [Waiting], [Started], 0, {}) && ReachableUnder(p, lo, hi, 1)
  {
    var s := StartClaims(1, lo, hi, 1);
    var bare := Fresh(lo, hi).(running := true);
    assert s == With(bare, Creating(0, ToReturn));
    var q := CreateLast(bare, 0, ToReturn, lo, hi, 1);
    p := With(q, Started);
  }

  /** Without a minimum the one idle worker can leave after a committer has counted on it and
      before the task is queued. */
  lemma StuckWithoutMinimum(lo: int, hi: int) returns (p: Pool)
    requires lo <= 0 && hi >= 1
    ensures Reachable(p, lo, hi) && Stuck(p)
  {
    var s := StartOne(lo, hi);
    Arrive(s, lo, hi, 1);
    MoveOn(s, Comparing(1), Enqueuing, lo, hi, 1);
    var t := s.(workers := [Gone], cur := 0, idle := 0);
    UnderIsUnder(With(s, Enqueuing), lo, hi, 1);
    UnderStep(With(s, Enqueuing), IdleExit(0), With(t, Enqueuing), lo, hi, 1);
    p := EnqueueLast(t, lo, hi, 1);
    UnderIsReachable(p, lo, hi, 1);
    NobodyLeft(p);
  }

  /** A queued task always has a worker that can take it or is on its way to, in every
      interleaving of any number of callers, exactly when minimum and maximum are positive. */
  lemma NeverStuckIff(lo: int, hi: int)
    ensures (forall p :: Reachable(p, lo, hi) ==> !Stuck(p)) <==> lo >= 1 && hi >= 1
  {
    if lo >= 1 && hi >= 1 {
      forall p | Reachable(p, lo, hi) ensures !Stuck(p) {
        var states, steps :| IsRun(states, steps, lo, hi) && states[|steps|] == p;
        RunKeepsServed(states, steps, lo, hi, |steps|);
        ServedIsNotStuck(p);
      }
    } else if hi <= 0 {
      var p := StuckWithoutMaximum(lo, hi);
      assert Reachable(p, lo, hi) && Stuck(p);
    } else {
      var p := StuckWithoutMinimum(lo, hi);
      assert Reachable(p, lo, hi) && Stuck(p);
    }
  }
}

/** Runs of the thread pool, built step by step. */
module PoolRuns {
  import opened ThreadPool

  /** A run in which at most `k` threads are being entered at a time. */
  ghost predicate IsRunUnder(states: seq<Pool>, steps: seq<Step>, lo: int, hi: int, k: nat) {
    IsRun(states, steps, lo, hi) && forall i :: 0 <= i < |states| ==> AddingCount(states[i].callers) <= k
  }

  ghost predicate ReachableUnder(p: Pool, lo: int, hi: int, k: nat) {
    exists states, steps :: IsRunUnder(states, steps, lo, hi, k) && states[|steps|] == p
  }

  lemma UnderIsReachable(p: Pool, lo: int, hi: int, k: nat)
    requires ReachableUnder(p, lo, hi, k)
    ensures Reachable(p, lo, hi)
  {
  }

  lemma UnderIsUnder(p: Pool, lo: int, hi: int, k: nat)
    requires ReachableUnder(p, lo, hi, k)
    ensures AddingCount(p.callers) <= k
  {
    var states, steps :| IsRunUnder(states, steps, lo, hi, k) && states[|steps|] == p;
  }

  lemma UnderFresh(lo: int, hi: int, k: nat)
    ensures ReachableUnder(Fresh(lo, hi), lo, hi, k)
  {
    assert IsRunUnder([Fresh(lo, hi)], [], lo, hi, k);
  }

  lemma ExtendRun(states: seq<Pool>, steps: seq<Step>, s: Step, q: Pool, lo: int, hi: int)
    requires IsRun(states, steps, lo, hi) && Enabled(states[|steps|], s) && q == Next(states[|steps|], s)
    ensures IsRun(states + [q], steps + [s], lo, hi)
  {
    var longer, more := states + [q], steps + [s];
    forall i | 0 <= i < |more| ensures Enabled(longer[i], more[i]) && longer[i + 1] == Next(longer[i], more[i]) {
      assert longer[i] == states[i];
      if i < |steps| { assert longer[i + 1] == states[i + 1] && more[i] == steps[i]; }
    }
  }

  lemma UnderStep(p: Pool, s: Step, q: Pool, lo: int, hi: int, k: nat)
    requires ReachableUnder(p, lo, hi, k) && Enabled(p, s) && q == Next(p, s) && AddingCount(q.callers) <= k
    ensures ReachableUnder(q, lo, hi, k)
  {
    var states, steps :| IsRunUnder(states, steps, lo, hi, k) && states[|steps|] == p;
    ExtendRun(states, steps, s, q, lo, hi);
    assert IsRunUnder(states + [q], steps + [s], lo, hi, k);
    assert (states + [q])[|steps + [s]|] == q;
  }

  /** `p` with one more caller. */
  function With(p: Pool, c: Caller): Pool {
    p.(callers := p.callers + [c])
  }

  /** The newest caller only moves on. */
  lemma MoveOn(p: Pool, x: Caller, y: Caller, lo: int, hi: int, k: nat)
    requires ReachableUnder(With(p, x), lo, hi, k) && !IsDone(x) && y == Advanced(With(p, x), x)
    requires !x.Claiming? && !x.Creating? && !x.Adding? && !x.Enqueuing?
    ensures ReachableUnder(With(p, y), lo, hi, k)
  {
    UnderIsUnder(With(p, x), lo, hi, k);
    AddingGrows(p.callers, x);
    AddingGrows(p.callers, y);
    var n := |p.callers|;
    assert (p.callers + [x])[n := y] == p.callers + [y];
    UnderStep(With(p, x), Go(n), With(p, y), lo, hi, k);
  }

  /** A commit on a running pool comes to its growth test. */
  lemma Arrive(p: Pool, lo: int, hi: int, k: nat)
    requires ReachableUnder(p, lo, hi, k) && p.running
    ensures ReachableUnder(With(p, Comparing(p.idle)), lo, hi, k)
  {
    UnderIsUnder(p, lo, hi, k);
    AddingGrows(p.callers, Arriving);
    UnderStep(p, CallCommit, With(p, Arriving), lo, hi, k);
    MoveOn(p, Arriving, Entering, lo, hi, k);
    MoveOn(p, Entering, Comparing(p.idle), lo, hi, k);
  }

  /** A commit past its growth test enqueues its task. */
  lemma EnqueueLast(p: Pool, lo: int, hi: int, k: nat) returns (q: Pool)
    requires ReachableUnder(With(p, Enqueuing), lo, hi, k)
    ensures q == With(p, Returned).(tasks := p.tasks + [p.enqueued], enqueued := p.enqueued + 1)
    ensures ReachableUnder(q, lo, hi, k)
  {
    q := With(p, Returned).(tasks := p.tasks + [p.enqueued], enqueued := p.enqueued + 1);
    UnderIsUnder(With(p, Enqueuing), lo, hi, k);
    AddingGrows(p.callers, Enqueuing);
    AddingGrows(p.callers, Returned);
    var n := |p.callers|;
    assert (p.callers + [Enqueuing])[n := Returned] == p.callers + [Returned];
    UnderStep(With(p, Enqueuing), Go(n), q, lo, hi, k);
  }

  /** A commit that finds more idle workers than queued tasks only enqueues. */
  lemma CommitEnqueues(p: Pool, lo: int, hi: int, k: nat) returns (q: Pool)
    requires ReachableUnder(p, lo, hi, k) && p.running && |p.tasks| < p.idle
    ensures q == With(p, Returned).(tasks := p.tasks + [p.enqueued], enqueued := p.enqueued + 1)
    ensures ReachableUnder(q, lo, hi, k)
  {
    Arrive(p, lo, hi, k);
    MoveOn(p, Comparing(p.idle), Enqueuing, lo, hi, k);
    q := EnqueueLast(p, lo, hi, k);
  }

  /** The newest caller starts a thread. */
  lemma SpawnLast(p: Pool, left: nat, after: After, lo: int, hi: int, k: nat) returns (q: Pool)
    requires ReachableUnder(With(p, Creating(left, after)), lo, hi, k) && p.cur < p.maxThreads
    requires AddingCount(p.callers) < k
    ensures q == With(p, Adding(left, after)).(workers := p.workers + [Waiting])
    ensures ReachableUnder(q, lo, hi, k)
  {
    var x, y, n := Creating(left, after), Adding(left, after), |p.callers|;
    q := With(p, y).(workers := p.workers + [Waiting]);
    AddingGrows(p.callers, y);
    assert (p.callers + [x])[n := y] == p.callers + [y];
    UnderStep(With(p, x), Go(n), q, lo, hi, k);
  }

  /** The newest caller enters its thread. */
  lemma AddLast(p: Pool, left: nat, after: After, lo: int, hi: int, k: nat) returns (q: Pool)
    requires ReachableUnder(With(p, Adding(left, after)), lo, hi, k)
    ensures q == With(p, ToCreate(left, after)).(cur := p.cur + 1, idle := p.idle + 1)
    ensures ReachableUnder(q, lo, hi, k)
  {
    var x, y, n := Adding(left, after), ToCreate(left, after), |p.callers|;
    q := With(p, y).(cur := p.cur + 1, idle := p.idle + 1);
    UnderIsUnder(With(p, x), lo, hi, k);
    AddingGrows(p.callers, x);
    AddingGrows(p.callers, y);
    assert (p.callers + [x])[n := y] == p.callers + [y];
    UnderStep(With(p, x), Go(n), q, lo, hi, k);
  }

  /** A caller creates a thread from start to end. */
  lemma CreateLast(p: Pool, left: nat, after: After, lo: int, hi: int, k: nat) returns (q: Pool)
    requires ReachableUnder(With(p, Creating(left, after)), lo, hi, k) && p.cur < p.maxThreads
    requires AddingCount(p.callers) < k
    ensures q == p.(workers := p.workers + [Waiting], cur := p.cur + 1, idle := p.idle + 1)
    ensures ReachableUnder(With(q, ToCreate(left, after)), lo, hi, k)
  {
    var p1 := SpawnLast(p, left, after, lo, hi, k);
    var p2 := p.(workers := p.workers + [Waiting]);
    assert p1 == With(p2, Adding(left, after));
    var p3 := AddLast(p2, left, after, lo, hi, k);
    q := p2.(cur := p.cur + 1, idle := p.idle + 1);
    assert p3 == With(q, ToCreate(left, after));
  }

  lemma ArriveToCheck(p: Pool, lo: int, hi: int, k: nat)
    requires ReachableUnder(p, lo, hi, k) && p.running && 0 <= p.idle <= |p.tasks|
    ensures ReachableUnder(With(p, Checking), lo, hi, k)
  {
    Arrive(p, lo, hi, k);
    MoveOn(p, Comparing(p.idle), Checking, lo, hi, k);
  }

  /** A commit that finds too few idle workers compares the size with the maximum. */
  lemma ArriveShort(p: Pool, lo: int, hi: int, k: nat)
    requires ReachableUnder(p, lo, hi, k) && p.running && 0 <= p.idle <= |p.tasks|
    ensures ReachableUnder(With(p, if p.cur < p.maxThreads then Creating(0, ToEnqueue) else Enqueuing), lo, hi, k)
  {
    ArriveToCheck(p, lo, hi, k);
    MoveOn(p, Checking, if p.cur < p.maxThreads then Creating(0, ToEnqueue) else Enqueuing, lo, hi, k);
  }

  /** A commit that finds too few idle workers and room for a thread starts one. */
  lemma CommitStarts(p: Pool, lo: int, hi: int, k: nat) returns (q: Pool)
    requires ReachableUnder(p, lo, hi, k) && p.running && 0 <= p.idle <= |p.tasks| && p.cur < p.maxThreads
    requires AddingCount(p.callers) < k
    ensures q == With(p, Adding(0, ToEnqueue)).(workers := p.workers + [Waiting])
    ensures ReachableUnder(q, lo, hi, k)
  {
    ArriveShort(p, lo, hi, k);
    q := SpawnLast(p, 0, ToEnqueue, lo, hi, k);
  }

  /** A call of `start` on a fresh pool has set the status. */
  lemma StartClaims(threads: int, lo: int, hi: int, k: nat) returns (p: Pool)
    ensures p == With(Fresh(lo, hi), ToCreate(StartCount(Fresh(lo, hi), threads), ToReturn)).(running := true)
    ensures ReachableUnder(p, lo, hi, k)
  {
    var s0 := Fresh(lo, hi);
    var x, y := Claiming(threads, false), ToCreate(StartCount(s0, threads), ToReturn);
    p := With(s0, y).(running := true);
    UnderFresh(lo, hi, k);
    AddingGrows([], Testing(threads, false));
    UnderStep(s0, CallStart(threads), With(s0, Testing(threads, false)), lo, hi, k);
    MoveOn(s0, Testing(threads, false), x, lo, hi, k);
    AddingGrows([], y);
    assert ([] + [x])[0 := y] == [] + [y];
    UnderStep(With(s0, x), Go(0), p, lo, hi, k);
  }
}

/**
 The limits of the thread pool over whole runs with any number of callers: how far the number
 of threads exceeds the maximum, and that the minimum, once reached, is kept.
 */
module PoolLimits {
  import opened ThreadPool
  import opened PoolRuns

  function Least(x: int, y: int): int {
    if x < y then x else y
  }

  // ----- The maximum -----

  /** The most threads there can be when at most `k` are being entered at a time. */
  function Peak(hi: int, k: nat): int {
    if hi <= 0 || k == 0 then 0 else hi + k - 1
  }

  /** Only a caller below the maximum adds to the threads started. */
  lemma StepGrowth(p: Pool, s: Step)
    requires Enabled(p, s)
    ensures var q := Next(p, s);
            var before, after := p.cur + AddingCount(p.callers), q.cur + AddingCount(q.callers);
            after <= before || (p.cur < p.maxThreads && q.cur == p.cur && after == before + 1)
  {
    match s {
      case CallStart(k) => AddingGrows(p.callers, Testing(k, false));
      case CallCommit => AddingGrows(p.callers, Arriving);
      case Go(c) => AddingChanges(p.callers, c, Advanced(p, p.callers[c]));
      case _ =>
    }
  }

  ghost predicate NoThreads(p: Pool) {
    p.maxThreads <= 0 && p.cur == 0 && p.workers == [] && AddingCount(p.callers) == 0
  }

  lemma StepKeepsNoThreads(p: Pool, s: Step)
    requires NoThreads(p) && Enabled(p, s)
    ensures NoThreads(Next(p, s))
  {
    match s {
      case CallStart(k) => AddingGrows(p.callers, Testing(k, false));
      case CallCommit => AddingGrows(p.callers, Arriving);
      case Go(c) =>
        if p.callers[c].Adding? { NoneAdding(p.callers, c); }
        AddingChanges(p.callers, c, Advanced(p, p.callers[c]));
      case _ =>
    }
  }

  /** Without a maximum no thread is ever started. */
  lemma {:induction false} RunKeepsNoThreads(states: seq<Pool>, steps: seq<Step>, lo: int, hi: int, n: nat)
    requires IsRun(states, steps, lo, hi) && n < |states| && hi <= 0
    ensures NoThreads(states[n])
  {
    if n > 0 {
      RunKeepsNoThreads(states, steps, lo, hi, n - 1);
      StepKeepsNoThreads(states[n - 1], steps[n - 1]);
    }
  }

  lemma {:induction false} NoneAdding(cs: seq<Caller>, c: nat)
    requires c < |cs| && cs[c].Adding?
    ensures AddingCount(cs) > 0
  {
    if c < |cs| - 1 { NoneAdding(cs[..|cs| - 1], c); }
  }

  /** The peak is never exceeded, counting the threads being entered. */
  lemma {:induction false} MaximumKept(states: seq<Pool>, steps: seq<Step>, lo: int, hi: int, k: nat, n: nat)
    requires IsRun(states, steps, lo, hi) && n < |states|
    requires forall i :: 0 <= i <= n ==> AddingCount(states[i].callers) <= k
    ensures var p := states[n];
            p.cur + AddingCount(p.callers) <= Peak(hi, k)
  {
    if hi <= 0 {
      RunKeepsNoThreads(states, steps, lo, hi, n);
    } else if n > 0 {
      MaximumKept(states, steps, lo, hi, k, n - 1);
      RunKeepsInv(states, steps, lo, hi, n - 1);
      StepGrowth(states[n - 1], steps[n - 1]);
      assert states[n] == Next(states[n - 1], steps[n - 1]) && AddingCount(states[n].callers) <= k;
    }
  }

  lemma UnderPeak(p: Pool, lo: int, hi: int, k: nat)
    requires ReachableUnder(p, lo, hi, k)
    ensures p.cur <= Peak(hi, k)
  {
    var states, steps :| IsRunUnder(states, steps, lo, hi, k) && states[|steps|] == p;
    MaximumKept(states, steps, lo, hi, k, |steps|);
  }

  // ----- The peak is reached -----

  /** A starting pool, apart from its starter, enters all its threads but one. */
  lemma {:induction false} FillUp(p: Pool, left: nat, lo: int, hi: int, k: nat) returns (q: Pool)
    requires ReachableUnder(With(p, Creating(left, ToReturn)), lo, hi, k) && k >= 1 && p.callers == []
    requires p.maxThreads == hi && p.running && p.tasks == [] && p.cur == p.idle == hi - 1 - left
    ensures ReachableUnder(With(q, Creating(0, ToReturn)), lo, hi, k) && q.callers == []
    ensures q.maxThreads == hi && q.running && q.tasks == [] && q.cur == q.idle == hi - 1
    decreases left
  {
    if left == 0 {
      q := p;
    } else {
      var p1 := CreateLast(p, left, ToReturn, lo, hi, k);
      q := FillUp(p1, left - 1, lo, hi, k);
    }
  }

  /** `q` differs from `p` in what further committers did. */
  ghost predicate SameThreads(p: Pool, q: Pool) {
    && q.maxThreads == p.maxThreads && q.running && q.cur == p.cur && q.idle == p.idle
    && p.callers <= q.callers
  }

  /** Commits that count on the idle workers, until there is a task for each. */
  lemma {:induction false} QueueUp(p: Pool, lo: int, hi: int, k: nat) returns (q: Pool)
    requires ReachableUnder(p, lo, hi, k) && p.running && |p.tasks| <= p.idle
    ensures ReachableUnder(q, lo, hi, k) && SameThreads(p, q) && |q.tasks| == q.idle
    ensures AddingCount(q.callers) == AddingCount(p.callers)
    decreases p.idle - |p.tasks|
  {
    if |p.tasks| == p.idle {
      q := p;
    } else {
      var p1 := CommitEnqueues(p, lo, hi, k);
      AddingGrows(p.callers, Returned);
      q := QueueUp(p1, lo, hi, k);
    }
  }

  /** Commits that find too few idle workers and start a thread each. */
  lemma {:induction false} StartMany(p: Pool, n: nat, lo: int, hi: int, k: nat) returns (q: Pool)
    requires ReachableUnder(p, lo, hi, k) && p.running && 0 <= p.idle <= |p.tasks| && p.cur < p.maxThreads
    requires AddingCount(p.callers) + n <= k
    ensures ReachableUnder(q, lo, hi, k) && SameThreads(p, q)
    ensures AddingCount(q.callers) == AddingCount(p.callers) + n
    decreases n
  {
    if n == 0 {
      q := p;
    } else {
      var p1 := CommitStarts(p, lo, hi, k);
      AddingGrows(p.callers, Adding(0, ToEnqueue));
      q := StartMany(p1, n - 1, lo, hi, k);
    }
  }

  lemma {:induction false} SomeAdding(cs: seq<Caller>) returns (c: nat)
    requires AddingCount(cs) > 0
    ensures c < |cs| && cs[c].Adding?
  {
    c := |cs| - 1;
    if !cs[c].Adding? { c := SomeAdding(cs[..|cs| - 1]); }
  }

  /** All threads started are entered. */
  lemma {:induction false} AllEnter(p: Pool, lo: int, hi: int, k: nat) returns (q: Pool)
    requires ReachableUnder(p, lo, hi, k)
    ensures ReachableUnder(q, lo, hi, k) && q.cur == p.cur + AddingCount(p.callers)
    decreases AddingCount(p.callers)
  {
    if AddingCount(p.callers) == 0 {
      q := p;
    } else {
      var c := SomeAdding(p.callers);
      var p1 := Next(p, Go(c));
      AddingChanges(p.callers, c, Advanced(p, p.callers[c]));
      UnderIsUnder(p, lo, hi, k);
      UnderStep(p, Go(c), p1, lo, hi, k);
      q := AllEnter(p1, lo, hi, k);
    }
  }

  /** A starting pool that has but one thread left to create. */
  lemma OneMissing(lo: int, hi: int, k: nat) returns (p: Pool)
    requires hi >= 1 && k >= 1
    ensures ReachableUnder(p, lo, hi, k) && p.callers == [Creating(0, ToReturn)] && AddingCount(p.callers) == 0
    ensures p.maxThreads == hi && p.running && p.tasks == [] && p.cur == p.idle == hi - 1
  {
    var s := StartClaims(hi, lo, hi, k);
    var bare := Fresh(lo, hi).(running := true);
    assert s == With(bare, Creating(hi - 1, ToReturn));
    var q := FillUp(bare, hi - 1, lo, hi, k);
    p := With(q, Creating(0, ToReturn));
    AddingGrows([], Creating(0, ToReturn));
  }

  /** The starter and `k - 1` committers pass the size test while one thread is still missing,
      and only then enter theirs. */
  lemma PeakReached(lo: int, hi: int, k: nat) returns (p: Pool)
    ensures ReachableUnder(p, lo, hi, k) && p.cur == Peak(hi, k)
  {
    if hi <= 0 || k == 0 {
      p := Fresh(lo, hi);
      UnderFresh(lo, hi, k);
    } else {
      var s1 := OneMissing(lo, hi, k);
      var s2 := QueueUp(s1, lo, hi, k);
      var s3 := StartMany(s2, k - 1, lo, hi, k);
      assert s3.callers[0] == Creating(0, ToReturn);
      var s4 := Next(s3, Go(0));
      AddingChanges(s3.callers, 0, Adding(0, ToReturn));
      UnderStep(s3, Go(0), s4, lo, hi, k);
      p := AllEnter(s4, lo, hi, k);
    }
  }

  /** Exactly how far the maximum is exceeded: over the runs with at most `k` threads being
      entered at a time, the greatest number of threads is the peak. */
  lemma MostThreads(lo: int, hi: int, k: nat)
    ensures forall p :: ReachableUnder(p, lo, hi, k) ==> p.cur <= Peak(hi, k)
    ensures exists p :: ReachableUnder(p, lo, hi, k) && p.cur == Peak(hi, k)
  {
    forall p | ReachableUnder(p, lo, hi, k) ensures p.cur <= Peak(hi, k) {
      UnderPeak(p, lo, hi, k);
    }
    var p := PeakReached(lo, hi, k);
  }

  /** So the maximum is kept exactly when callers take turns at entering threads, or when it
      allows none. */
  lemma MaximumKeptIff(lo: int, hi: int, k: nat)
    ensures (forall p :: ReachableUnder(p, lo, hi, k) ==> p.cur <= (if hi > 0 then hi else 0))
            <==> k <= 1 || hi <= 0
  {
    MostThreads(lo, hi, k);
  }

  /** With a maximum of 1, for instance, two committers make it 2. */
  lemma MaximumCanBeExceeded()
    ensures exists p :: Reachable(p, 0, 1) && p.cur == 2
  {
    var p := PeakReached(0, 1, 2);
    UnderIsReachable(p, 0, 1, 2);
  }

  // ----- The minimum -----

  /** The thread count falls only when a worker leaves for being idle with no task queued. */
  lemma OnlyIdleExitShrinks(states: seq<Pool>, steps: seq<Step>, lo: int, hi: int, n: nat)
    requires IsRun(states, steps, lo, hi) && n < |steps| && states[n + 1].cur < states[n].cur
    ensures steps[n].IdleExit? && states[n].tasks == []
    ensures states[n + 1].cur >= lo && states[n + 1].cur == states[n].cur - 1
  {
    RunKeepsInv(states, steps, lo, hi, n);
  }

  /** Idle exits never take the pool below its minimum: whatever was reached of it stays
      reached for the rest of the run. */
  lemma {:induction false} MinimumKept(states: seq<Pool>, steps: seq<Step>, lo: int, hi: int, m: nat, n: nat)
    requires IsRun(states, steps, lo, hi) && m <= n < |states|
    ensures states[n].cur >= Least(states[m].cur, lo)
  {
    if m < n {
      MinimumKept(states, steps, lo, hi, m, n - 1);
      RunKeepsInv(states, steps, lo, hi, n - 1);
    }
  }

  /** A call of `start` has entered all but the threads it still has to create. */
  ghost predicate OnItsWay(p: Pool, c: Caller) {
    var goal := Least(p.minThreads, p.maxThreads);
    match c
    case Creating(left, ToReturn) => p.cur + left + 1 >= goal
    case Adding(left, ToReturn) => p.cur + left + 1 >= goal
    case Started => p.cur >= goal
    case _ => true
  }

  ghost predicate AllOnTheirWay(p: Pool) {
    p.cur >= Least(0, p.minThreads) && forall c :: 0 <= c < |p.callers| ==> OnItsWay(p, p.callers[c])
  }

  lemma StepKeepsWay(p: Pool, s: Step)
    requires AllOnTheirWay(p) && Enabled(p, s)
    ensures AllOnTheirWay(Next(p, s))
  {
    var q := Next(p, s);
    forall c | 0 <= c < |q.callers| ensures OnItsWay(q, q.callers[c]) {
      if c < |p.callers| { assert OnItsWay(p, p.callers[c]); }
    }
  }

  lemma {:induction false} RunKeepsWay(states: seq<Pool>, steps: seq<Step>, lo: int, hi: int, n: nat)
    requires IsRun(states, steps, lo, hi) && n < |states|
    ensures AllOnTheirWay(states[n])
  {
    if n > 0 {
      RunKeepsWay(states, steps, lo, hi, n - 1);
      StepKeepsWay(states[n - 1], steps[n - 1]);
    }
  }

  /** From the return of a `start` that was not refused on, whatever else is called and whichever workers leave, the
      pool has its minimum number of threads, or its maximum if that is smaller. */
  lemma StartReachesMinimum(states: seq<Pool>, steps: seq<Step>, lo: int, hi: int, m: nat, c: nat, n: nat)
    requires IsRun(states, steps, lo, hi) && m <= n < |states|
    requires c < |states[m].callers| && states[m].callers[c] == Started
    ensures states[n].cur >= Least(lo, hi)
  {
    RunKeepsInv(states, steps, lo, hi, m);
    RunKeepsWay(states, steps, lo, hi, m);
    assert OnItsWay(states[m], states[m].callers[c]);
    MinimumKept(states, steps, lo, hi, m, n);
  }

  // ----- What a start alone enters -----

  /** How far a lone start of `goal` threads has come. */
  ghost predicate LoneWay(p: Pool, threads: int, goal: int) {
    && |p.callers| == 1 && p.tasks == [] && p.cur >= 0 && goal == StartCount(p, threads)
    && match p.callers[0]
       case Testing(n, commits) => !commits && n == threads && !p.running && p.cur == 0
       case Claiming(n, commits) => !commits && n == threads && p.cur == 0
       case Creating(left, after) => after == ToReturn && p.cur + left + 1 == goal
       case Adding(left, after) => after == ToReturn && p.cur + left + 1 == goal
       case Started => p.cur == if goal > 0 then goal else 0
       case _ => false
  }

  lemma {:induction false} LoneRun(states: seq<Pool>, steps: seq<Step>, lo: int, hi: int, threads: int, n: nat)
    requires IsRun(states, steps, lo, hi) && 0 < n < |states|
    requires steps[0] == CallStart(threads) && forall i :: 0 < i < |steps| ==> steps[i] == Go(0)
    ensures states[n].minThreads == lo && states[n].maxThreads == hi
    ensures LoneWay(states[n], threads, StartCount(Fresh(lo, hi), threads))
  {
    if n == 1 {
      assert states[1] == Next(states[0], steps[0]);
    } else {
      LoneRun(states, steps, lo, hi, threads, n - 1);
      assert states[n] == Going(states[n - 1], 0);
    }
  }

  /** A start on a stopped pool with nobody else about enters as many threads as asked for,
      but no fewer than the minimum and, above all, no more than the maximum. */
  lemma LoneStartEnters(states: seq<Pool>, steps: seq<Step>, lo: int, hi: int, threads: int, n: nat)
    requires IsRun(states, steps, lo, hi) && 0 < n < |states|
    requires steps[0] == CallStart(threads) && forall i :: 0 < i < |steps| ==> steps[i] == Go(0)
    requires states[n].callers == [Started] && 0 <= lo <= hi
    ensures states[n].cur == if threads < lo then lo else if threads > hi then hi else threads
  {
    LoneRun(states, steps, lo, hi, threads, n);
  }
}

/**
 The growing and shrinking thread pool as a machine whose steps are its critical sections
 and its reads of the shared counters.  Any number of threads call `start` and `commit`, and
 workers run in any order.  Tasks are numbered in the order they are enqueued.
 */
module ThreadPool {

  /** A worker waits in its loop, runs a task outside the lock, or has left. */
  datatype Worker = Waiting | Busy(task: nat) | Gone

  /** What a caller does once its threads are created. */
  datatype After = ToCommit | ToEnqueue | ToReturn

  /** Where a call of `start` or `commit` stands. */
  datatype Caller =
    | Arriving                           // commit: reads the status
    | Testing(threads: int, commits: bool)   // start, called on its own or by commit: reads the status
    | Claiming(threads: int, commits: bool)  // start: sets the status to running
    | Entering                           // commit: reads idle_thread_num
    | Comparing(idle: int)               // commit: compares it with the queue's length
    | Checking                           // commit: compares cur_thread_num with the maximum
    | Creating(left: nat, after: After)  // createThread: its own test; `left` more threads follow
    | Adding(left: nat, after: After)    // the thread runs, addThread comes next
    | Enqueuing                          // commit: takes task_mutex
    | Returned                           // from commit
    | Started                            // from start, with 0
    | Refused                            // from start, with -1

  datatype Pool = Pool(
    minThreads: int, maxThreads: int, running: bool,
    cur: int, idle: int, active: int,
    tasks: seq<nat>, workers: seq<Worker>, callers: seq<Caller>,
    enqueued: nat, finished: set<nat>)

  datatype Step =
    | CallStart(threads: int)
    | CallCommit
    | Go(c: nat)        // a caller goes on
    | Take(w: nat)      // a worker finds a task, under task_mutex
    | Finish(w: nat)    // a worker returns from its task and takes task_mutex
    | IdleExit(w: nat)  // a worker times out with no task, under both mutexes

  predicate IsDone(c: Caller) {
    c.Returned? || c.Started? || c.Refused?
  }

  predicate Enabled(p: Pool, s: Step) {
    match s
    case CallStart(_) => true
    case CallCommit => true
    case Go(c) => c < |p.callers| && !IsDone(p.callers[c])
    case Take(w) => w < |p.workers| && p.workers[w].Waiting? && p.tasks != []
    case Finish(w) => w < |p.workers| && p.workers[w].Busy?
    case IdleExit(w) => w < |p.workers| && p.workers[w].Waiting? && p.tasks == [] && p.cur > p.minThreads
  }

  /** How many threads `start` creates: the request, raised to the minimum, then cut to the
      maximum. */
  function StartCount(p: Pool, threads: int): int {
    var n := if threads < p.minThreads then p.minThreads else threads;
    if n > p.maxThreads then p.maxThreads else n
  }

  /** A caller with `n` threads still to create. */
  function ToCreate(n: int, after: After): Caller {
    if n > 0 then Creating(n - 1, after)
    else match after
      case ToCommit => Entering
      case ToEnqueue => Enqueuing
      case ToReturn => Started
  }

  /** The next position of caller `c`.  The idle count is compared with an unsigned length, so
      a negative one counts as large. */
  function Advanced(p: Pool, c: Caller): Caller {
    match c
    case Arriving => if p.running then Entering else Testing(0, true)
    case Testing(n, commits) =>
      if !p.running then Claiming(n, commits) else if commits then Entering else Refused
    case Claiming(n, commits) => ToCreate(StartCount(p, n), if commits then ToCommit else ToReturn)
    case Entering => Comparing(p.idle)
    case Comparing(n) => if 0 <= n <= |p.tasks| then Checking else Enqueuing
    case Checking => if p.cur < p.maxThreads then Creating(0, ToEnqueue) else Enqueuing
    case Creating(left, after) => if p.cur < p.maxThreads then Adding(left, after) else ToCreate(left, after)
    case Adding(left, after) => ToCreate(left, after)
    case _ => Returned
  }

  /** A caller's step: besides moving on it may set the status, start a thread, enter one in the
      counters, or enqueue its task. */
  function Going(p: Pool, c: nat): Pool
    requires Enabled(p, Go(c))
  {
    var q := p.(callers := p.callers[c := Advanced(p, p.callers[c])]);
    match p.callers[c]
    case Claiming(_, _) => q.(running := true)
    case Creating(_, _) => if p.cur < p.maxThreads then q.(workers := p.workers + [Waiting]) else q
    case Adding(_, _) => q.(cur := p.cur + 1, idle := p.idle + 1)
    case Enqueuing => q.(tasks := p.tasks + [p.enqueued], enqueued := p.enqueued + 1)
    case _ => q
  }

  function Next(p: Pool, s: Step): Pool
    requires Enabled(p, s)
  {
    match s
    case CallStart(k) => p.(callers := p.callers + [Testing(k, false)])
    case CallCommit => p.(callers := p.callers + [Arriving])
    case Go(c) => Going(p, c)
    case Take(w) =>
      p.(idle := p.idle - 1, active := p.active + 1, tasks := p.tasks[1..],
         workers := p.workers[w := Busy(p.tasks[0])])
    case Finish(w) =>
      p.(active := p.active - 1, idle := p.idle + 1, workers := p.workers[w := Waiting],
         finished := p.finished + {p.workers[w].task})
    case IdleExit(w) => p.(cur := p.cur - 1, idle := p.idle - 1, workers := p.workers[w := Gone])
  }

  function Fresh(minThreads: int, maxThreads: int): Pool {
    Pool(minThreads, maxThreads, false, 0, 0, 0, [], [], [], 0, {})
  }

  /** The pool after each step of a run; a run only takes enabled steps. */
  ghost predicate IsRun(states: seq<Pool>, steps: seq<Step>, minThreads: int, maxThreads: int) {
    && |states| == |steps| + 1 && states[0] == Fresh(minThreads, maxThreads)
    && forall i :: 0 <= i < |steps| ==> Enabled(states[i], steps[i]) && states[i + 1] == Next(states[i], steps[i])
  }

  /** The states that runs lead to. */
  ghost predicate Reachable(p: Pool, minThreads: int, maxThreads: int) {
    exists states, steps :: IsRun(states, steps, minThreads, maxThreads) && states[|steps|] == p
  }

  // ----- The invariant -----

  function BusyCount(ws: seq<Worker>): nat {
    if ws == [] then 0 else BusyCount(ws[..|ws| - 1]) + if ws[|ws| - 1].Busy? then 1 else 0
  }

  function AliveCount(ws: seq<Worker>): nat {
    if ws == [] then 0 else AliveCount(ws[..|ws| - 1]) + if ws[|ws| - 1].Gone? then 0 else 1
  }

  /** How many callers have started a thread that is not yet entered in the counters. */
  function AddingCount(cs: seq<Caller>): nat {
    if cs == [] then 0 else AddingCount(cs[..|cs| - 1]) + if cs[|cs| - 1].Adding? then 1 else 0
  }

  /** How many tasks have left the queue. */
  function TakenTasks(p: Pool): int {
    p.enqueued - |p.tasks|
  }

  /** The counters count what they are named after; threads not yet added are missing from
      `cur` and `idle`. */
  ghost predicate Counted(p: Pool) {
    && p.active == BusyCount(p.workers)
    && p.cur == AliveCount(p.workers) - AddingCount(p.callers)
    && p.idle == p.cur - p.active
  }

  /** Queued tasks are the newest, in order. */
  ghost predicate Queued(p: Pool) {
    TakenTasks(p) >= 0 && forall i :: 0 <= i < |p.tasks| ==> p.tasks[i] == TakenTasks(p) + i
  }

  ghost predicate Runs(p: Pool, w: nat, t: nat) {
    w < |p.workers| && p.workers[w] == Busy(t)
  }

  /** Each task taken from the queue is finished or run by exactly one worker, never both. */
  ghost predicate Assigned(p: Pool) {
    && (forall t :: t in p.finished ==> t < TakenTasks(p))
    && (forall w: nat, t: nat :: Runs(p, w, t) ==> t < TakenTasks(p) && t !in p.finished)
    && (forall v: nat, w: nat, t: nat :: Runs(p, v, t) && Runs(p, w, t) ==> v == w)
    && (forall t: nat :: t < TakenTasks(p) && t !in p.finished ==> exists w :: Runs(p, w, t))
  }

  ghost predicate Inv(p: Pool) {
    Counted(p) && Queued(p) && Assigned(p)
  }

  lemma {:induction false} CountsChange(ws: seq<Worker>, w: nat, x: Worker)
    requires w < |ws|
    ensures BusyCount(ws[w := x]) == BusyCount(ws) - (if ws[w].Busy? then 1 else 0) + (if x.Busy? then 1 else 0)
    ensures AliveCount(ws[w := x]) == AliveCount(ws) - (if ws[w].Gone? then 0 else 1) + (if x.Gone? then 0 else 1)
  {
    var n := |ws| - 1;
    if w == n {
      assert ws[w := x][..n] == ws[..n];
    } else {
      CountsChange(ws[..n], w, x);
      assert ws[w := x][..n] == ws[..n][w := x];
    }
  }

  lemma CountsGrow(ws: seq<Worker>, x: Worker)
    ensures BusyCount(ws + [x]) == BusyCount(ws) + if x.Busy? then 1 else 0
    ensures AliveCount(ws + [x]) == AliveCount(ws) + if x.Gone? then 0 else 1
  {
    assert (ws + [x])[..|ws|] == ws;
  }

  lemma {:induction false} AddingChanges(cs: seq<Caller>, c: nat, x: Caller)
    requires c < |cs|
    ensures AddingCount(cs[c := x]) == AddingCount(cs) - (if cs[c].Adding? then 1 else 0) + (if x.Adding? then 1 else 0)
  {
    var n := |cs| - 1;
    if c == n {
      assert cs[c := x][..n] == cs[..n];
    } else {
      AddingChanges(cs[..n], c, x);
      assert cs[c := x][..n] == cs[..n][c := x];
    }
  }

  lemma AddingGrows(cs: seq<Caller>, x: Caller)
    ensures AddingCount(cs + [x]) == AddingCount(cs) + if x.Adding? then 1 else 0
  {
    assert (cs + [x])[..|cs|] == cs;
  }

  lemma {:induction false} NoneBusy(ws: seq<Worker>, w: nat)
    requires w < |ws| && ws[w].Busy?
    ensures BusyCount(ws) > 0
  {
    if w < |ws| - 1 { NoneBusy(ws[..|ws| - 1], w); }
  }

  lemma {:induction false} BusyAreAlive(ws: seq<Worker>)
    ensures BusyCount(ws) <= AliveCount(ws)
  {
    if ws != [] { BusyAreAlive(ws[..|ws| - 1]); }
  }

  lemma {:induction false} SomeAlive(ws: seq<Worker>) returns (w: nat)
    requires AliveCount(ws) > 0
    ensures w < |ws| && !ws[w].Gone?
  {
    w := |ws| - 1;
    if ws[w].Gone? { w := SomeAlive(ws[..|ws| - 1]); }
  }

  // ----- Preservation, step by step -----

  /** A caller comes to be adding a thread only by starting one. */
  lemma AddingIsStarting(p: Pool, c: Caller)
    ensures Advanced(p, c).Adding? <==> c.Creating? && p.cur < p.maxThreads
  {
  }

  /** Caller `c` starts a thread, enters one or does neither. */
  lemma MoveKeepsCounters(p: Pool, q: Pool, c: nat, y: Caller)
    requires Counted(p) && c < |p.callers| && q.callers == p.callers[c := y] && q.active == p.active
    requires q.workers == if y.Adding? then p.workers + [Waiting] else p.workers
    requires y.Adding? ==> !p.callers[c].Adding?
    requires q.cur == p.cur + (if p.callers[c].Adding? then 1 else 0) && q.idle - p.idle == q.cur - p.cur
    ensures Counted(q)
  {
    AddingChanges(p.callers, c, y);
    CountsGrow(p.workers, Waiting);
  }

  lemma GoKeepsCounters(p: Pool, c: nat)
    requires Counted(p) && Enabled(p, Go(c))
    ensures Counted(Going(p, c))
  {
    AddingIsStarting(p, p.callers[c]);
    MoveKeepsCounters(p, Going(p, c), c, Advanced(p, p.callers[c]));
  }

  lemma CountersKept(p: Pool, s: Step)
    requires Counted(p) && Enabled(p, s)
    ensures Counted(Next(p, s))
  {
    match s {
      case CallStart(k) => AddingGrows(p.callers, Testing(k, false));
      case CallCommit => AddingGrows(p.callers, Arriving);
      case Go(c) => GoKeepsCounters(p, c);
      case Take(w) => CountsChange(p.workers, w, Busy(p.tasks[0]));
      case Finish(w) => CountsChange(p.workers, w, Waiting);
      case IdleExit(w) => CountsChange(p.workers, w, Gone);
    }
  }

  /** Steps that neither take nor finish a task leave the assignment alone. */
  lemma AssignmentStays(p: Pool, q: Pool)
    requires Assigned(p) && TakenTasks(q) == TakenTasks(p) && q.finished == p.finished
    requires forall w: nat, t: nat :: Runs(q, w, t) <==> Runs(p, w, t)
    ensures Assigned(q)
  {
    forall t: nat | t < TakenTasks(q) && t !in q.finished ensures exists w :: Runs(q, w, t) {
      var w :| Runs(p, w, t);
      assert Runs(q, w, t);
    }
  }

  lemma TakeKeepsAssignment(p: Pool, w: nat)
    requires Queued(p) && Assigned(p) && Enabled(p, Take(w))
    ensures Assigned(Next(p, Take(w)))
  {
    var q, new' := Next(p, Take(w)), p.tasks[0];
    assert new' == TakenTasks(p) && TakenTasks(q) == TakenTasks(p) + 1;
    assert forall v: nat, t: nat :: Runs(q, v, t) ==> (v == w && t == new') || (v != w && Runs(p, v, t));
    forall t: nat | t < TakenTasks(q) && t !in q.finished ensures exists v :: Runs(q, v, t) {
      if t == new' {
        assert Runs(q, w, t);
      } else {
        var v :| Runs(p, v, t);
        assert Runs(q, v, t);
      }
    }
  }

  lemma FinishKeepsAssignment(p: Pool, w: nat)
    requires Assigned(p) && Enabled(p, Finish(w))
    ensures Assigned(Next(p, Finish(w)))
  {
    var q, done := Next(p, Finish(w)), p.workers[w].task;
    assert Runs(p, w, done);
    assert forall v: nat, t: nat :: Runs(q, v, t) ==> v != w && Runs(p, v, t);
    forall t: nat | t < TakenTasks(q) && t !in q.finished ensures exists v :: Runs(q, v, t) {
      var v :| Runs(p, v, t);
      assert Runs(q, v, t);
    }
  }

  lemma OthersKeepAssignment(p: Pool, s: Step)
    requires Assigned(p) && Enabled(p, s) && !s.Take? && !s.Finish?
    ensures Assigned(Next(p, s))
  {
    var q := Next(p, s);
    assert TakenTasks(q) == TakenTasks(p) && q.finished == p.finished;
    assert forall w: nat, t: nat :: Runs(q, w, t) <==> Runs(p, w, t);
    AssignmentStays(p, q);
  }

  lemma QueueKept(p: Pool, s: Step)
    requires Queued(p) && Enabled(p, s)
    ensures Queued(Next(p, s))
  {
  }

  lemma StepKeepsInv(p: Pool, s: Step)
    requires Inv(p) && Enabled(p, s)
    ensures Inv(Next(p, s))
  {
    CountersKept(p, s);
    QueueKept(p, s);
    match s {
      case Take(w) => TakeKeepsAssignment(p, w);
      case Finish(w) => FinishKeepsAssignment(p, w);
      case _ => OthersKeepAssignment(p, s);
    }
  }

  lemma {:induction false} RunKeepsInv(states: seq<Pool>, steps: seq<Step>, lo: int, hi: int, n: nat)
    requires IsRun(states, steps, lo, hi) && n < |states|
    ensures Inv(states[n]) && states[n].minThreads == lo && states[n].maxThreads == hi
  {
    if n > 0 {
      RunKeepsInv(states, steps, lo, hi, n - 1);
      StepKeepsInv(states[n - 1], steps[n - 1]);
    }
  }

  // ----- What it means -----

  /** At every point of a run, with any number of callers, the thread count is the idle count
      plus the active count.  The idle count can be negative, but only by as many threads as
      have been started and not entered yet. */
  lemma CountersAgree(states: seq<Pool>, steps: seq<Step>, lo: int, hi: int, n: nat)
    requires IsRun(states, steps, lo, hi) && n < |states|
    ensures var p := states[n];
            && p.cur == p.idle + p.active
            && p.idle + AddingCount(p.callers) >= 0
  {
    RunKeepsInv(states, steps, lo, hi, n);
    BusyAreAlive(states[n].workers);
  }

  // ----- Tasks -----

  /** When `wait` may return, every task enqueued so far has finished executing. */
  lemma WaitMeansAllDone(states: seq<Pool>, steps: seq<Step>, lo: int, hi: int, n: nat, t: nat)
    requires IsRun(states, steps, lo, hi) && n < |states|
    requires states[n].tasks == [] && states[n].active == 0
    ensures t < states[n].enqueued <==> t in states[n].finished
  {
    RunKeepsInv(states, steps, lo, hi, n);
    AllDone(states[n]);
  }

  /** Tasks start in the order they were enqueued, each once. */
  lemma TasksStartInOrder(states: seq<Pool>, steps: seq<Step>, lo: int, hi: int, n: nat)
    requires IsRun(states, steps, lo, hi) && n < |steps| && steps[n].Take?
    ensures TakenTasks(states[n]) >= 0 && states[n + 1].workers[steps[n].w] == Busy(TakenTasks(states[n]))
    ensures TakenTasks(states[n + 1]) == TakenTasks(states[n]) + 1
  {
    RunKeepsInv(states, steps, lo, hi, n);
  }

  // ----- The object: one method per atomic section; `c` is the caller, `w` the worker -----

  class HThreadPool {
    const minThreadNum: int
    const maxThreadNum: int
    var running: bool
    var curThreadNum: int
    var idleThreadNum: int
    var activeTaskNum: int
    var tasks: seq<nat>
    ghost var workers: seq<Worker>
    ghost var callers: seq<Caller>
    ghost var enqueued: nat
    ghost var finished: set<nat>

    ghost function State(): Pool
      reads this
    {
      Pool(minThreadNum, maxThreadNum, running, curThreadNum, idleThreadNum, activeTaskNum,
           tasks, workers, callers, enqueued, finished)
    }

    constructor (minThreads: int, maxThreads: int)
      ensures State() == Fresh(minThreads, maxThreads) && Inv(State())
    {
      minThreadNum, maxThreadNum, running := minThreads, maxThreads, false;
      curThreadNum, idleThreadNum, activeTaskNum, tasks := 0, 0, 0, [];
      workers, callers, enqueued, finished := [], [], 0, {};
      new;
      assert Inv(State());
    }

    /** A thread calls `start` or `commit`. */
    ghost method Call(s: Step)
      requires Inv(State()) && (s.CallStart? || s.CallCommit?)
      modifies this`callers
      ensures Inv(State()) && State() == Next(old(State()), s)
    {
      StepKeepsInv(State(), s);
      callers := callers + [if s.CallStart? then Testing(s.threads, false) else Arriving];
    }

    /** The test by which `commit` decides to call `start`. */
    method IsStopped(ghost c: nat) returns (stopped: bool)
      requires Inv(State()) && c < |callers| && callers[c] == Arriving
      modifies this`callers
      ensures Inv(State()) && State() == Next(old(State()), Go(c))
      ensures callers[c] == if stopped then Testing(0, true) else Entering
    {
      StepKeepsInv(State(), Go(c));
      stopped := !running;
      callers := callers[c := if stopped then Testing(0, true) else Entering];
    }

    /** The same test in `start` itself, which gives up on a pool already started. */
    method MayStart(ghost c: nat) returns (may: bool)
      requires Inv(State()) && c < |callers| && callers[c].Testing?
      modifies this`callers
      ensures Inv(State()) && State() == Next(old(State()), Go(c))
      ensures may == callers[c].Claiming?
      ensures !may ==> callers[c] == if old(callers)[c].commits then Entering else Refused
    {
      StepKeepsInv(State(), Go(c));
      may := !running;
      callers := callers[c := Advanced(State(), callers[c])];
    }

    /** `start` sets the status and works out how many threads to create. */
    method Start(ghost c: nat, startThreads: int) returns (count: int)
      requires Inv(State()) && c < |callers| && callers[c].Claiming? && callers[c].threads == startThreads
      modifies this`callers, this`running
      ensures Inv(State()) && State() == Next(old(State()), Go(c)) && running
      ensures callers[c] == ToCreate(count, if old(callers)[c].commits then ToCommit else ToReturn)
      ensures count <= maxThreadNum && (count >= minThreadNum || count == maxThreadNum)
      ensures minThreadNum <= startThreads <= maxThreadNum ==> count == startThreads
      ensures startThreads < minThreadNum <= maxThreadNum ==> count == minThreadNum
      ensures maxThreadNum < startThreads ==> count == maxThreadNum
    {
      StepKeepsInv(State(), Go(c));
      running := true;
      count := startThreads;
      if count < minThreadNum { count := minThreadNum; }
      if count > maxThreadNum { count := maxThreadNum; }
      callers := callers[c := ToCreate(count, if callers[c].commits then ToCommit else ToReturn)];
    }

    /** The first operand of the growth test in `commit`. */
    method ReadIdle(ghost c: nat) returns (idle: int)
      requires Inv(State()) && c < |callers| && callers[c] == Entering
      modifies this`callers
      ensures Inv(State()) && State() == Next(old(State()), Go(c)) && callers[c] == Comparing(idle)
    {
      StepKeepsInv(State(), Go(c));
      idle := idleThreadNum;
      callers := callers[c := Comparing(idle)];
    }

    /** The queue's length is taken under its lock and compared with the count read before. */
    method TooFewIdle(ghost c: nat, idle: int) returns (few: bool)
      requires Inv(State()) && c < |callers| && callers[c] == Comparing(idle)
      modifies this`callers
      ensures Inv(State()) && State() == Next(old(State()), Go(c))
      ensures callers[c] == if few then Checking else Enqueuing
      ensures (idle < 0 ==> !few) && (idle >= 0 ==> (few <==> idle <= |tasks|))
    {
      StepKeepsInv(State(), Go(c));
      few := 0 <= idle <= |tasks|;
      callers := callers[c := if few then Checking else Enqueuing];
    }

    /** The last operand of the growth test. */
    method MayGrow(ghost c: nat) returns (grow: bool)
      requires Inv(State()) && c < |callers| && callers[c] == Checking
      modifies this`callers
      ensures Inv(State()) && State() == Next(old(State()), Go(c))
      ensures callers[c] == if grow then Creating(0, ToEnqueue) else Enqueuing
    {
      StepKeepsInv(State(), Go(c));
      grow := curThreadNum < maxThreadNum;
      callers := callers[c := if grow then Creating(0, ToEnqueue) else Enqueuing];
    }

    /** The check in `createThread` and the start of the new thread. */
    method StartThread(ghost c: nat) returns (started: bool)
      requires Inv(State()) && c < |callers| && callers[c].Creating?
      modifies this`workers, this`callers
      ensures Inv(State()) && State() == Next(old(State()), Go(c)) && started == callers[c].Adding?
    {
      ghost var next := Next(State(), Go(c));
      StepKeepsInv(State(), Go(c));
      AddingIsStarting(State(), callers[c]);
      callers := next.callers;
      if curThreadNum >= maxThreadNum {
        assert State() == next;
        return false;
      }
      workers := workers + [Waiting];
      started := true;
      assert State() == next;
    }

    method AddThread(ghost c: nat)
      requires Inv(State()) && c < |callers| && callers[c].Adding?
      modifies this`curThreadNum, this`idleThreadNum, this`callers
      ensures Inv(State()) && State() == Next(old(State()), Go(c))
    {
      StepKeepsInv(State(), Go(c));
      callers := callers[c := Advanced(State(), callers[c])];
      curThreadNum := curThreadNum + 1;
      idleThreadNum := idleThreadNum + 1;
    }

    method Commit(ghost c: nat, task: nat)
      requires Inv(State()) && c < |callers| && callers[c] == Enqueuing && task == enqueued
      modifies this`tasks, this`enqueued, this`callers
      ensures Inv(State()) && State() == Next(old(State()), Go(c))
    {
      StepKeepsInv(State(), Go(c));
      callers := callers[c := Returned];
      tasks := tasks + [task];
      enqueued := enqueued + 1;
    }

    /** A waiting worker holds the lock: it takes the oldest task, or leaves if it timed out
        without one and the pool is above its minimum, or goes on waiting. */
    method WakeUp(ghost w: nat) returns (task: int, leaves: bool)
      requires Inv(State()) && w < |workers| && workers[w] == Waiting
      modifies this`curThreadNum, this`idleThreadNum, this`activeTaskNum, this`tasks, this`workers
      ensures Inv(State())
      ensures old(tasks) != [] ==> State() == Next(old(State()), Take(w)) && task == old(tasks)[0] && !leaves
      ensures old(tasks) == [] ==> task == -1 && leaves == (old(curThreadNum) > minThreadNum)
      ensures old(tasks) == [] ==> State() == if leaves then Next(old(State()), IdleExit(w)) else old(State())
    {
      task, leaves := -1, false;
      if tasks == [] {
        if curThreadNum > minThreadNum {
          DelThread(w);
          leaves := true;
        }
        return;
      }
      task := TakeTask(w);
    }

    /** The worker leaves the pool. */
    method DelThread(ghost w: nat)
      requires Inv(State()) && Enabled(State(), IdleExit(w))
      modifies this`curThreadNum, this`idleThreadNum, this`workers
      ensures Inv(State()) && State() == Next(old(State()), IdleExit(w))
    {
      StepKeepsInv(State(), IdleExit(w));
      curThreadNum := curThreadNum - 1;
      idleThreadNum := idleThreadNum - 1;
      workers := workers[w := Gone];
    }

    /** The worker takes the oldest task off the queue. */
    method TakeTask(ghost w: nat) returns (task: nat)
      requires Inv(State()) && Enabled(State(), Take(w))
      modifies this`idleThreadNum, this`activeTaskNum, this`tasks, this`workers
      ensures Inv(State()) && State() == Next(old(State()), Take(w)) && task == old(tasks)[0]
    {
      ghost var next := Next(State(), Take(w));
      StepKeepsInv(State(), Take(w));
      idleThreadNum := idleThreadNum - 1;
      activeTaskNum := activeTaskNum + 1;
      task := tasks[0];
      workers := workers[w := Busy(tasks[0])];
      tasks := tasks[1..];
      assert State() == next;
    }

    /** A worker comes back from its task; waiters are notified exactly when all is done. */
    method FinishTask(ghost w: nat) returns (notify: bool)
      requires Inv(State()) && w < |workers| && workers[w].Busy?
      modifies this`idleThreadNum, this`activeTaskNum, this`workers, this`finished
      ensures Inv(State()) && State() == Next(old(State()), Finish(w))
      ensures notify ==> forall t: nat :: t < enqueued ==> t in finished
      ensures notify <==> tasks == [] && activeTaskNum == 0
    {
      ghost var next := Next(State(), Finish(w));
      StepKeepsInv(State(), Finish(w));
      if next.tasks == [] && next.active == 0 {
        AllDone(next);
      }
      activeTaskNum := activeTaskNum - 1;
      idleThreadNum := idleThreadNum + 1;
      finished := finished + {workers[w].task};
      workers := workers[w := Waiting];
      notify := tasks == [] && activeTaskNum == 0;
      assert State() == next;
    }
  }

  lemma AllDone(p: Pool)
    requires Inv(p) && p.tasks == [] && p.active == 0
    ensures forall t: nat :: t < p.enqueued ==> t in p.finished
  {
    forall t: nat | t < p.enqueued ensures t in p.finished {
      if t !in p.finished {
        var w :| Runs(p, w, t);
        NoneBusy(p.workers, w);
        assert false;
      }
    }
  }
}

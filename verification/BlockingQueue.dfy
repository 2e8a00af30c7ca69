/**
 The blocking queue as steps taken under its lock by any threads in any order: what was
 pushed, which pushed items were dequeued and which were overrun.
 */
module BlockingQueue {
  import opened Basics
  import opened CircularQueue

  /** `fates` tells, for the oldest pushed items, whether each was dequeued or overrun. */
  datatype Log<T> = Log(cap: nat, pushed: seq<T>, fates: seq<bool>, popped: seq<T>) {
    ghost predicate Valid() {
      |fates| <= |pushed|
    }

    function Content(): seq<T>
      requires Valid()
    {
      pushed[|fates|..]
    }
  }

  datatype Act<T> = Enqueue(item: T) | EnqueueNowait(item: T) | DequeueFor

  /** A blocking `enqueue` on a full queue has no effect yet; a `dequeue_for` on an empty one
      times out. */
  function Next<T>(h: Log<T>, act: Act<T>): (r: Log<T>)
    requires h.Valid()
    ensures r.Valid() && r.cap == h.cap
  {
    match act
    case Enqueue(x) => if |h.Content()| < h.cap then h.(pushed := h.pushed + [x]) else h
    case EnqueueNowait(x) =>
      h.(pushed := h.pushed + [x], fates := if |h.Content()| >= h.cap then h.fates + [false] else h.fates)
    case DequeueFor =>
      if h.Content() == [] then h
      else h.(popped := h.popped + [h.Content()[0]], fates := h.fates + [true])
  }

  function Run<T>(cap: nat, acts: seq<Act<T>>): (r: Log<T>)
    ensures r.Valid() && r.cap == cap
  {
    if acts == [] then Log(cap, [], [], [])
    else Next(Run(cap, acts[..|acts| - 1]), acts[|acts| - 1])
  }

  /** The items whose fate is to have been dequeued, in push order. */
  ghost function Taken<T>(pushed: seq<T>, fates: seq<bool>): seq<T>
    requires |fates| <= |pushed|
  {
    if fates == [] then []
    else
      var n := |fates| - 1;
      Taken(pushed, fates[..n]) + if fates[n] then [pushed[n]] else []
  }

  function Overruns(fates: seq<bool>): nat {
    if fates == [] then 0
    else Overruns(fates[..|fates| - 1]) + if fates[|fates| - 1] then 0 else 1
  }

  lemma {:induction false} TakenStays<T>(pushed: seq<T>, more: seq<T>, fates: seq<bool>)
    requires |fates| <= |pushed| && pushed <= more
    ensures Taken(more, fates) == Taken(pushed, fates)
  {
    if fates != [] { TakenStays(pushed, more, fates[..|fates| - 1]); }
  }

  lemma {:induction false} TakenLength<T>(pushed: seq<T>, fates: seq<bool>)
    requires |fates| <= |pushed|
    ensures |Taken(pushed, fates)| + Overruns(fates) == |fates|
  {
    if fates != [] { TakenLength(pushed, fates[..|fates| - 1]); }
  }

  lemma {:induction false} TakenAll<T>(pushed: seq<T>, fates: seq<bool>)
    requires |fates| <= |pushed|
    ensures Overruns(fates) == 0 <==> Taken(pushed, fates) == pushed[..|fates|]
  {
    TakenLength(pushed, fates);
    if fates != [] {
      var n := |fates| - 1;
      TakenAll(pushed, fates[..n]);
      assert pushed[..|fates|] == pushed[..n] + [pushed[n]];
    }
  }

  ghost predicate Accounted<T>(h: Log<T>) {
    h.Valid() && |h.Content()| <= h.cap && h.popped == Taken(h.pushed, h.fates)
  }

  lemma NextAccounted<T>(h: Log<T>, act: Act<T>)
    requires Accounted(h)
    ensures Accounted(Next(h, act))
  {
    var r := Next(h, act);
    TakenStays(h.pushed, r.pushed, h.fates);
    if r.fates != h.fates {
      assert r.fates[..|h.fates|] == h.fates;
    }
  }

  lemma {:induction false} RunAccounted<T>(cap: nat, acts: seq<Act<T>>)
    ensures Accounted(Run(cap, acts))
  {
    if acts != [] {
      var n := |acts| - 1;
      RunAccounted(cap, acts[..n]);
      NextAccounted(Run(cap, acts[..n]), acts[n]);
    }
  }

  /** Conservation over every interleaving: what was pushed and neither dequeued nor still
      queued was overrun, and the queue holds the newest pushed items in order. */
  lemma {:induction false} Conservation<T>(cap: nat, acts: seq<Act<T>>)
    ensures var h := Run(cap, acts);
            && |h.Content()| <= cap
            && h.Content() == h.pushed[|h.pushed| - |h.Content()|..]
            && Overruns(h.fates) == |h.pushed| - |h.popped| - |h.Content()|
            && (Overruns(h.fates) == 0 <==> h.popped + h.Content() == h.pushed)
  {
    RunAccounted(cap, acts);
    var h := Run(cap, acts);
    TakenLength(h.pushed, h.fates);
    TakenAll(h.pushed, h.fates);
    assert h.pushed == h.pushed[..|h.fates|] + h.Content();
    if h.popped + h.Content() == h.pushed {
      assert h.popped == h.pushed[..|h.fates|];
    }
  }

  /** What one more step of any run does: an enqueue that does not wait always adds its item as
      the newest, at the cost of the oldest when the queue is full; a blocking one adds it when
      there is room and otherwise goes on waiting; a dequeue hands out the oldest item. */
  lemma OneMore<T>(cap: nat, acts: seq<Act<T>>, act: Act<T>)
    ensures var h, r := Run(cap, acts), Run(cap, acts + [act]);
            var full := |h.Content()| == cap;
            && (act.EnqueueNowait? ==>
                  && r.pushed == h.pushed + [act.item] && r.popped == h.popped
                  && r.Content() == (if full then (h.Content() + [act.item])[1..] else h.Content() + [act.item])
                  && Overruns(r.fates) == Overruns(h.fates) + if full then 1 else 0)
            && (act.Enqueue? && full ==> r == h)
            && (act.Enqueue? && !full ==>
                  r.pushed == h.pushed + [act.item] && r.Content() == h.Content() + [act.item] && r.popped == h.popped)
            && (act.DequeueFor? ==>
                  && r.pushed == h.pushed
                  && r.popped == h.popped + h.Content()[..|h.Content()| - |r.Content()|]
                  && r.Content() == if h.Content() == [] then [] else h.Content()[1..])
  {
    var h := Run(cap, acts);
    assert (acts + [act])[..|acts|] == acts;
    RunAccounted(cap, acts);
    match act {
      case EnqueueNowait(x) => NowaitEffect(h, x);
      case Enqueue(x) => if |h.Content()| < cap { EnqueueEffect(h, x); }
      case DequeueFor => DequeueEffect(h);
    }
  }

  lemma NowaitEffect<T>(h: Log<T>, x: T)
    requires Accounted(h)
    ensures var r, full := Next(h, EnqueueNowait(x)), |h.Content()| == h.cap;
            && r.Content() == (if full then (h.Content() + [x])[1..] else h.Content() + [x])
            && Overruns(r.fates) == Overruns(h.fates) + if full then 1 else 0
  {
    var r := Next(h, EnqueueNowait(x));
    if r.fates != h.fates {
      assert r.fates[..|h.fates|] == h.fates;
    }
    assert (h.pushed + [x])[|h.fates|..] == h.Content() + [x];
  }

  lemma EnqueueEffect<T>(h: Log<T>, x: T)
    requires h.Valid() && |h.Content()| < h.cap
    ensures Next(h, Enqueue(x)).Content() == h.Content() + [x]
  {
  }

  lemma DequeueEffect<T>(h: Log<T>)
    requires h.Valid()
    ensures var r := Next(h, DequeueFor);
            && r.popped == h.popped + h.Content()[..|h.Content()| - |r.Content()|]
            && r.Content() == if h.Content() == [] then [] else h.Content()[1..]
  {
    if h.Content() != [] {
      assert h.Content()[..1] == [h.Content()[0]];
    }
  }

  /** With blocking producers only, nothing is ever lost or reordered: the dequeued items are
      a prefix of the enqueued ones. */
  lemma {:induction false} BlockingLosesNothing<T>(cap: nat, acts: seq<Act<T>>)
    requires forall i :: 0 <= i < |acts| ==> !acts[i].EnqueueNowait?
    ensures var h := Run(cap, acts);
            Overruns(h.fates) == 0 && h.popped <= h.pushed && h.popped + h.Content() == h.pushed
  {
    if acts != [] {
      var n := |acts| - 1;
      BlockingLosesNothing(cap, acts[..n]);
      var g, h := Run(cap, acts[..n]), Run(cap, acts);
      if h.fates != g.fates {
        assert h.fates[..|g.fates|] == g.fates;
      }
    }
    Conservation(cap, acts);
  }

  class MpmcBlockingQueue<T(0)> {
    const q: CircularQ<T>
    ghost var log: Log<T>

    ghost predicate Valid()
      reads this, q, q.v
    {
      && q.Valid() && log.Valid() && q.maxItems == log.cap + 1
      && q.Contents() == log.Content() && |log.Content()| <= log.cap
      && q.overrunCounter == Overruns(log.fates)
    }

    constructor (maxItems: nat)
      ensures Valid() && log == Run(maxItems, []) && fresh(q) && fresh(q.v)
    {
      q := new CircularQ(maxItems);
      log := Log(maxItems, [], [], []);
    }

    /** The part of `enqueue` after its wait: the lock is held and the queue is not full. */
    method Enqueue(item: T)
      requires Valid() && !q.Full()
      modifies this, q, q.v
      ensures Valid() && log == Next(old(log), Act.Enqueue(item)) && log != old(log)
      ensures q.Contents() == old(q.Contents()) + [item] && q.overrunCounter == old(q.overrunCounter)
    {
      q.PushBack(item);
      log := Next(log, Act.Enqueue(item));
    }

    /** Does not wait: on a full queue the oldest item is overrun. */
    method EnqueueNowait(item: T)
      requires Valid()
      modifies this, q, q.v
      ensures Valid() && log == Next(old(log), Act.EnqueueNowait(item))
      ensures q.maxItems > 1 ==> q.Contents() != [] && q.Contents()[|q.Contents()| - 1] == item
      ensures var room := |old(q.Contents())| < q.maxItems - 1;
              && q.Contents() == (if room then old(q.Contents()) + [item] else (old(q.Contents()) + [item])[1..])
              && q.overrunCounter == old(q.overrunCounter) + if room then 0 else 1
    {
      q.PushBack(item);
      ghost var before := log;
      log := Next(log, Act.EnqueueNowait(item));
      if log.fates != before.fates {
        assert log.fates[..|before.fates|] == before.fates;
      }
    }

    /** Returns nothing when the wait ends with the queue still empty. */
    method DequeueFor() returns (popped: Option<T>)
      requires Valid()
      modifies this, q
      ensures Valid() && log == Next(old(log), Act.DequeueFor)
      ensures old(q.Contents()) == [] ==> popped == None && q.Contents() == []
      ensures old(q.Contents()) != [] ==>
                popped == Some(old(q.Contents())[0]) && q.Contents() == old(q.Contents())[1..]
      ensures popped == if old(log).Content() == [] then None else Some(old(log).Content()[0])
    {
      if q.Empty() {
        return None;
      }
      ghost var before, c := log, q.Contents();
      popped := Some(q.Front());
      q.PopFront();
      log := Next(log, Act.DequeueFor);
      assert log.fates[..|before.fates|] == before.fates;
      assert log.Content() == c[1..];
    }
  }
}

/**
 Recency over all six operations of the cache, resizes included: the list is ordered by last
 use, evictions take the least recently used nodes first, and a key survives while its rivals
 fit beside it.
 */
module LruResize {
  import opened LruSpec
  import opened LruHistory
  import opened LruRecency

  predicate Uses<K(==), V>(step: Step<K, V>, k: K) {
    match step
    case Getting(x) => x == k
    case Putting(x, _) => x == k
    case _ => false
  }

  /** One past the position of the last get or put of `k`; zero if there is none. */
  function LastStep<K(==), V>(steps: seq<Step<K, V>>, k: K): nat {
    if steps == [] then 0
    else
      var n := |steps| - 1;
      if Uses(steps[n], k) then |steps| else LastStep(steps[..n], k)
  }

  ghost predicate ByLastStep<K, V>(l: seq<Node<K, V>>, steps: seq<Step<K, V>>) {
    forall i, j :: 0 <= i < j < |l| ==> LastStep(steps, l[i].key) > LastStep(steps, l[j].key)
  }

  lemma {:induction false} LastStepBound<K, V>(steps: seq<Step<K, V>>, k: K)
    ensures LastStep(steps, k) <= |steps|
  {
    if steps != [] { LastStepBound(steps[..|steps| - 1], k); }
  }

  lemma WithoutOrdered<K, V>(l: seq<Node<K, V>>, steps: seq<Step<K, V>>, k: K)
    requires Distinct(l) && ByLastStep(l, steps)
    ensures ByLastStep(Without(l, k), steps)
  {
    WithoutLength(l, k);
    if Has(l, k) {
      var i :| 0 <= i < |l| && l[i].key == k;
      WithoutAt(l, i);
    }
  }

  lemma {:induction false} RejectOrdered<K, V>(l: seq<Node<K, V>>, p: (K, V) -> bool, steps: seq<Step<K, V>>)
    requires ByLastStep(l, steps)
    ensures ByLastStep(Reject(l, p), steps) && ByLastStep(Select(l, p), steps)
  {
    if l != [] {
      var tail := l[1..];
      assert forall i :: 0 <= i < |tail| ==> tail[i] == l[i + 1];
      RejectOrdered(tail, p, steps);
      forall n | n in Reject(tail, p) ensures n in tail { RejectMember(tail, p, n); }
      forall n | n in Select(tail, p) ensures n in tail { SelectMember(tail, p, n); }
      forall m | m in tail ensures LastStep(steps, l[0].key) > LastStep(steps, m.key) {
        var i :| 0 <= i < |tail| && tail[i] == m;
      }
      FrontOrdered(l[0], tail, Reject(tail, p), steps);
      FrontOrdered(l[0], tail, Select(tail, p), steps);
    }
  }

  lemma {:induction false} SelectMember<K, V>(l: seq<Node<K, V>>, p: (K, V) -> bool, n: Node<K, V>)
    ensures n in Select(l, p) <==> n in l && p(n.key, n.value)
  {
    if l != [] {
      SelectMember(l[1..], p, n);
      assert l == [l[0]] + l[1..];
    }
  }

  /** A node used after all of `tail` can stand before any part of it. */
  lemma FrontOrdered<K, V>(n: Node<K, V>, tail: seq<Node<K, V>>, part: seq<Node<K, V>>, steps: seq<Step<K, V>>)
    requires forall m :: m in tail ==> LastStep(steps, n.key) > LastStep(steps, m.key)
    requires ByLastStep(part, steps) && forall m :: m in part ==> m in tail
    ensures ByLastStep([n] + part, steps)
  {
    var l := [n] + part;
    forall i, j | 0 <= i < j < |l| ensures LastStep(steps, l[i].key) > LastStep(steps, l[j].key) {
      assert l[j] == part[j - 1] && l[j] in part;
      if i > 0 { assert l[i] == part[i - 1]; }
    }
  }

  /** The node used by the newest step goes in front of the others. */
  lemma UsedInFront<K, V>(rest: seq<Node<K, V>>, steps: seq<Step<K, V>>, n: Node<K, V>)
    requires steps != [] && ByLastStep(rest, steps[..|steps| - 1]) && !Has(rest, n.key)
    requires var step := steps[|steps| - 1]; (step.Getting? || step.Putting?) && step.key == n.key
    ensures ByLastStep([n] + rest, steps)
  {
    var before := steps[..|steps| - 1];
    forall m | m in rest ensures LastStep(steps, m.key) == LastStep(before, m.key) < |steps| {
      LastStepBound(before, m.key);
    }
    assert ByLastStep(rest, steps) by {
      assert forall i :: 0 <= i < |rest| ==> rest[i] in rest;
    }
    FrontOrdered(n, rest, rest, steps);
  }

  lemma GetOrdered<K, V>(l: seq<Node<K, V>>, steps: seq<Step<K, V>>, k: K)
    requires Distinct(l) && steps != [] && steps[|steps| - 1] == Getting(k) && ByLastStep(l, steps[..|steps| - 1])
    ensures ByLastStep(Get(l, k), steps)
  {
    WithoutFacts(l, k);
    if Has(l, k) {
      WithoutOrdered(l, steps[..|steps| - 1], k);
      UsedInFront(Without(l, k), steps, Node(k, Find(l, k).value));
    } else {
      assert forall i :: 0 <= i < |l| ==> !Uses(steps[|steps| - 1], l[i].key);
    }
  }

  lemma PutOrdered<K, V>(l: seq<Node<K, V>>, steps: seq<Step<K, V>>, k: K, v: V, cap: nat)
    requires Distinct(l) && steps != [] && steps[|steps| - 1] == Putting(k, v) && ByLastStep(l, steps[..|steps| - 1])
    ensures ByLastStep(Put(l, k, v, cap), steps)
  {
    WithoutFacts(l, k);
    if Has(l, k) {
      WithoutOrdered(l, steps[..|steps| - 1], k);
      UsedInFront(Without(l, k), steps, Node(k, v));
    } else {
      UsedInFront(if |l| >= cap && l != [] then l[..|l| - 1] else l, steps, Node(k, v));
    }
  }

  /** The other steps are no use of any key. */
  lemma UnusedOrdered<K, V>(l: seq<Node<K, V>>, steps: seq<Step<K, V>>)
    requires steps != [] && !steps[|steps| - 1].Getting? && !steps[|steps| - 1].Putting?
    ensures ByLastStep(l, steps) <==> ByLastStep(l, steps[..|steps| - 1])
  {
    assert forall k :: LastStep(steps, k) == LastStep(steps[..|steps| - 1], k);
  }

  lemma StepOrdered<K, V>(c: Cache<K, V>, steps: seq<Step<K, V>>)
    requires Distinct(c.list) && steps != [] && ByLastStep(c.list, steps[..|steps| - 1])
    ensures ByLastStep(Next(c, steps[|steps| - 1]).list, steps)
  {
    var before, step := steps[..|steps| - 1], steps[|steps| - 1];
    match step {
      case Getting(k) => GetOrdered(c.list, steps, k);
      case Putting(k, v) => PutOrdered(c.list, steps, k, v, c.capacity);
      case Removing(k) =>
        WithoutOrdered(c.list, before, k);
        UnusedOrdered(Next(c, step).list, steps);
      case Resizing(_) => UnusedOrdered(Next(c, step).list, steps);
      case RemovingIf(p) =>
        RejectOrdered(c.list, p, before);
        UnusedOrdered(Next(c, step).list, steps);
      case Clearing =>
    }
  }

  lemma {:induction false} CapacityPositive<K, V>(capacity: nat, steps: seq<Step<K, V>>)
    ensures History(capacity, steps).capacity >= 1
  {
    if steps != [] { CapacityPositive(capacity, steps[..|steps| - 1]); }
  }

  lemma HistoryFits<K, V>(capacity: nat, steps: seq<Step<K, V>>)
    ensures Fits(History(capacity, steps))
  {
    CapacityPositive(capacity, steps);
    var l := History(capacity, steps).list;
    if l != [] { HistoryConserves(capacity, steps, l[0].key); }
  }

  /** After any sequence of the six operations the list is in order of last use, most recent
      first. */
  lemma {:induction false} HistoryByLastUse<K, V>(capacity: nat, steps: seq<Step<K, V>>)
    ensures ByLastStep(History(capacity, steps).list, steps)
  {
    if steps != [] {
      var n := |steps| - 1;
      HistoryByLastUse(capacity, steps[..n]);
      HistoryFits(capacity, steps[..n]);
      StepOrdered(History(capacity, steps[..n]), steps);
    }
  }

  // ----- Evictions -----

  /** Everything in `gone` was used longer ago than everything in `kept`. */
  ghost predicate LessRecent<K, V>(gone: seq<Node<K, V>>, kept: seq<Node<K, V>>, steps: seq<Step<K, V>>) {
    forall i, j :: 0 <= i < |gone| && 0 <= j < |kept| ==> LastStep(steps, gone[i].key) < LastStep(steps, kept[j].key)
  }

  /** Oldest use first. */
  ghost predicate OldestFirst<K, V>(gone: seq<Node<K, V>>, steps: seq<Step<K, V>>) {
    forall i, j :: 0 <= i < j < |gone| ==> LastStep(steps, gone[i].key) < LastStep(steps, gone[j].key)
  }

  lemma {:induction false} ReverseAt<T>(s: seq<T>, k: nat)
    requires k < |s|
    ensures Reverse(s)[k] == s[|s| - 1 - k]
  {
    if k < |s| - 1 { ReverseAt(s[1..], k); }
  }

  /** A resize hands out just the nodes over the new capacity, which is the request raised to 1:
      the least recently used ones, oldest first; the others stay as they are. */
  lemma ResizeEvictsOldest<K, V>(capacity: nat, steps: seq<Step<K, V>>, request: nat)
    ensures var c := History(capacity, steps);
            var r := History(capacity, steps + [Resizing(request)]);
            var gone := r.evicted[|c.evicted|..];
            && r.capacity == (if request == 0 then 1 else request)
            && |r.list| == (if |c.list| > r.capacity then r.capacity else |c.list|)
            && |c.evicted| <= |r.evicted| && |gone| == |c.list| - |r.list|
            && r.list <= c.list && LessRecent(gone, r.list, steps) && OldestFirst(gone, steps)
  {
    var c := History(capacity, steps);
    assert (steps + [Resizing(request)])[..|steps|] == steps;
    var r := History(capacity, steps + [Resizing(request)]);
    var gone := ShrinkEvicts(c.list, r.capacity);
    assert r == Next(c, Resizing(request)) && r.evicted[|c.evicted|..] == gone;
    HistoryByLastUse(capacity, steps);
    if |c.list| > r.capacity {
      var tail := c.list[r.capacity..];
      forall k | 0 <= k < |gone| ensures gone[k] == c.list[|c.list| - 1 - k] {
        ReverseAt(tail, k);
      }
    }
  }

  /** A put that needs room hands out the least recently used node. */
  lemma PutEvictsOldest<K, V>(capacity: nat, steps: seq<Step<K, V>>, key: K, value: V)
    ensures var c := History(capacity, steps);
            var r := History(capacity, steps + [Putting(key, value)]);
            && |c.evicted| <= |r.evicted| <= |c.evicted| + 1
            && (|r.evicted| > |c.evicted| <==> Find(c.list, key).None? && |c.list| == c.capacity)
            && LessRecent(r.evicted[|c.evicted|..], r.list, steps + [Putting(key, value)])
  {
    var c, longer := History(capacity, steps), steps + [Putting(key, value)];
    assert longer[..|steps|] == steps;
    HistoryFits(capacity, steps);
    HistoryByLastUse(capacity, steps);
    var r := Next(c, Putting(key, value));
    assert r == History(capacity, longer);
    if PutEvicts(c.list, key, c.capacity) != [] {
      var n := |c.list| - 1;
      var oldest := c.list[n];
      assert oldest.key != key;
      assert r.evicted[|c.evicted|..] == [oldest] && r.list == [Node(key, value)] + c.list[..n];
      LastStepBound(steps, oldest.key);
      forall j | 0 <= j < |r.list| ensures LastStep(longer, oldest.key) < LastStep(longer, r.list[j].key) {
        if j > 0 { assert r.list[j] == c.list[j - 1] && c.list[j - 1].key != key; }
      }
    } else {
      assert r.evicted[|c.evicted|..] == [];
    }
  }

  /** Removals by predicate keep the order of what stays and hand out the rest in list order. */
  lemma RemovalsInListOrder<K, V>(capacity: nat, steps: seq<Step<K, V>>, p: (K, V) -> bool)
    ensures var c := History(capacity, steps);
            var r := History(capacity, steps + [RemovingIf(p)]);
            && |c.evicted| <= |r.evicted| && ByLastStep(r.list, steps) && ByLastStep(r.evicted[|c.evicted|..], steps)
            && (forall n :: n in r.list <==> n in c.list && !p(n.key, n.value))
            && (forall n :: n in r.evicted[|c.evicted|..] <==> n in c.list && p(n.key, n.value))
  {
    var c := History(capacity, steps);
    assert (steps + [RemovingIf(p)])[..|steps|] == steps;
    HistoryByLastUse(capacity, steps);
    RejectOrdered(c.list, p, steps);
    forall n ensures n in Select(c.list, p) <==> n in c.list && p(n.key, n.value) { SelectMember(c.list, p, n); }
    forall n ensures n in Reject(c.list, p) <==> n in c.list && !p(n.key, n.value) { RejectMember(c.list, p, n); }
    var r := Next(c, RemovingIf(p));
    assert r.evicted[|c.evicted|..] == Select(c.list, p);
  }

  // ----- Retention through resizes -----

  /** The keys other than `k` used by some steps. */
  ghost function Rivals<K, V>(steps: seq<Step<K, V>>, k: K): set<K> {
    if steps == [] then {}
    else
      var n := |steps| - 1;
      var step := steps[n];
      Rivals(steps[..n], k) +
      if (step.Getting? || step.Putting?) && step.key != k then {step.key} else {}
  }

  /** Gets, puts, removals of other keys and resizes. */
  ghost predicate Spares<K, V>(step: Step<K, V>, k: K) {
    step.Getting? || step.Putting? || step.Resizing? || (step.Removing? && step.key != k)
  }

  lemma PrefixBehind<K, V>(l: seq<Node<K, V>>, k: K, i: nat, used: set<K>, cap: nat)
    requires Distinct(l) && Behind(l, k, i, used) && |used| < cap
    ensures Behind(Shrink(l, cap), k, i, used)
  {
    BehindFew(l, k, i, used);
  }

  lemma RivalsOfOne<K, V>(step: Step<K, V>, k: K)
    ensures Rivals([step], k) == if (step.Getting? || step.Putting?) && step.key != k then {step.key} else {}
  {
    assert [step][..0] == [];
  }

  lemma OpBehind<K, V>(l: seq<Node<K, V>>, cap: nat, op: Op<K, V>, k: K, i: nat, used: set<K>) returns (j: nat)
    requires Distinct(l) && |l| <= cap && 1 <= cap && Behind(l, k, i, used) && !op.RemoveOp?
    requires |if op.key == k then used else used + {op.key}| < cap
    ensures Behind(Apply(l, op, cap), k, j, if op.key == k then used else used + {op.key})
  {
    if op.key == k {
      assert Has(l, k);
      UseMovesToFront(l, cap, op);
      j := 0;
    } else {
      j := StepKeepsBehind(l, cap, op, k, i, used);
    }
  }

  lemma StepBehind<K, V>(c: Cache<K, V>, step: Step<K, V>, k: K, i: nat, used: set<K>) returns (j: nat)
    requires Fits(c) && Behind(c.list, k, i, used) && Spares(step, k)
    requires |used + Rivals([step], k)| < Next(c, step).capacity
    ensures Behind(Next(c, step).list, k, j, used + Rivals([step], k))
  {
    RivalsOfOne(step, k);
    assert used + {} == used;
    match step {
      case Resizing(request) =>
        PrefixBehind(c.list, k, i, used, Clamp(request));
        j := i;
      case Removing(x) =>
        WithoutLength(c.list, x);
        j := WithoutKeepsBehind(c.list, k, i, used, x);
      case Getting(x) => j := OpBehind(c.list, c.capacity, GetOp(x), k, i, used);
      case Putting(x, v) => j := OpBehind(c.list, c.capacity, PutOp(x, v), k, i, used);
    }
  }

  lemma RivalsStep<K, V>(steps: seq<Step<K, V>>, n: nat, k: K)
    requires n < |steps|
    ensures var last := |steps| - 1;
            Rivals(steps[n..], k) == Rivals(steps[..last][n..], k) + Rivals([steps[last]], k)
  {
    var last := |steps| - 1;
    assert steps[n..][..last - n] == steps[..last][n..];
    assert [steps[last]][..0] == [];
  }

  lemma {:induction false} ResizedBehind<K, V>(capacity: nat, steps: seq<Step<K, V>>, n: nat, k: K) returns (j: nat)
    requires 0 < n <= |steps| && steps[n - 1].Putting? && steps[n - 1].key == k
    requires forall m :: n <= m < |steps| ==> Spares(steps[m], k)
    requires forall m :: n <= m <= |steps| ==> |Rivals(steps[..m][n..], k)| < History(capacity, steps[..m]).capacity
    ensures Behind(History(capacity, steps).list, k, j, Rivals(steps[n..], k))
    decreases |steps|
  {
    var last := |steps| - 1;
    var before, step := steps[..last], steps[last];
    assert steps[..|steps|] == steps;
    if n == |steps| {
      j := 0;
    } else {
      forall m | n <= m <= last ensures |Rivals(before[..m][n..], k)| < History(capacity, before[..m]).capacity {
        assert before[..m] == steps[..m];
      }
      var i := ResizedBehind(capacity, before, n, k);
      RivalsStep(steps, n, k);
      HistoryFits(capacity, before);
      j := StepBehind(History(capacity, before), step, k, i, Rivals(before[n..], k));
    }
  }

  /** A key that was put is still cached as long as at every point since, whatever resizes came
      between, fewer other keys had been used than the capacity of the time. */
  lemma RetentionThroughResizes<K, V>(capacity: nat, steps: seq<Step<K, V>>, n: nat, k: K)
    requires 0 < n <= |steps| && steps[n - 1].Putting? && steps[n - 1].key == k
    requires forall m :: n <= m < |steps| ==> Spares(steps[m], k)
    requires forall m :: n <= m <= |steps| ==> |Rivals(steps[..m][n..], k)| < History(capacity, steps[..m]).capacity
    ensures Find(History(capacity, steps).list, k).Some?
  {
    var j := ResizedBehind(capacity, steps, n, k);
  }
}

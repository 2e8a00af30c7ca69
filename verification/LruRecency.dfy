/**
 What makes the cache a least-recently-used one, said without its list: entries are ordered
 by last use, and a key stays until the capacity's worth of other keys has been used.
 */
module LruRecency {
  import opened LruSpec

  /** One past the position of the last get or put of `k`; zero if there is none. */
  function LastUse<K(==), V>(trace: seq<Op<K, V>>, k: K): nat {
    if trace == [] then 0
    else
      var n := |trace| - 1;
      if !trace[n].RemoveOp? && trace[n].key == k then |trace| else LastUse(trace[..n], k)
  }

  ghost predicate ByLastUse<K, V>(l: seq<Node<K, V>>, trace: seq<Op<K, V>>) {
    forall i, j :: 0 <= i < j < |l| ==> LastUse(trace, l[i].key) > LastUse(trace, l[j].key)
  }

  lemma {:induction false} LastUseBound<K, V>(trace: seq<Op<K, V>>, k: K)
    ensures LastUse(trace, k) <= |trace|
  {
    if trace != [] { LastUseBound(trace[..|trace| - 1], k); }
  }

  lemma OrderWithout<K, V>(l: seq<Node<K, V>>, trace: seq<Op<K, V>>, k: K)
    requires Distinct(l) && ByLastUse(l, trace)
    ensures ByLastUse(Without(l, k), trace)
  {
    WithoutLength(l, k);
    if Has(l, k) {
      var i :| 0 <= i < |l| && l[i].key == k;
      WithoutAt(l, i);
    }
  }

  /** The key used by the newest operation goes in front of the others. */
  lemma OrderFront<K, V>(rest: seq<Node<K, V>>, trace: seq<Op<K, V>>, n: Node<K, V>)
    requires trace != [] && ByLastUse(rest, trace[..|trace| - 1]) && !Has(rest, n.key)
    requires !trace[|trace| - 1].RemoveOp? && trace[|trace| - 1].key == n.key
    ensures ByLastUse([n] + rest, trace)
  {
    var l, before := [n] + rest, trace[..|trace| - 1];
    forall i | 0 <= i < |rest| ensures LastUse(trace, rest[i].key) == LastUse(before, rest[i].key) < |trace| {
      LastUseBound(before, rest[i].key);
    }
    forall i, j | 0 <= i < j < |l| ensures LastUse(trace, l[i].key) > LastUse(trace, l[j].key) {
      assert l[j] == rest[j - 1];
      if i > 0 { assert l[i] == rest[i - 1]; }
    }
  }

  /** The newest operation does not touch the keys of `l`. */
  lemma OrderStays<K, V>(l: seq<Node<K, V>>, trace: seq<Op<K, V>>)
    requires trace != [] && ByLastUse(l, trace[..|trace| - 1])
    requires trace[|trace| - 1].RemoveOp? || !Has(l, trace[|trace| - 1].key)
    ensures ByLastUse(l, trace)
  {
  }

  lemma Shape<K, V>(trace: seq<Op<K, V>>, cap: nat)
    requires 1 <= cap
    ensures Distinct(Replay(trace, cap)) && |Replay(trace, cap)| <= cap
  {
    Inclusion(trace, cap, cap);
  }

  lemma GetKeepsOrder<K, V>(l: seq<Node<K, V>>, trace: seq<Op<K, V>>, k: K)
    requires Distinct(l) && trace != [] && trace[|trace| - 1] == GetOp(k) && ByLastUse(l, trace[..|trace| - 1])
    ensures ByLastUse(Get(l, k), trace)
  {
    if Has(l, k) {
      OrderWithout(l, trace[..|trace| - 1], k);
      WithoutFacts(l, k);
      OrderFront(Without(l, k), trace, Node(k, Find(l, k).value));
    } else {
      OrderStays(l, trace);
    }
  }

  lemma PutKeepsOrder<K, V>(l: seq<Node<K, V>>, trace: seq<Op<K, V>>, k: K, v: V, cap: nat)
    requires Distinct(l) && trace != [] && trace[|trace| - 1] == PutOp(k, v) && ByLastUse(l, trace[..|trace| - 1])
    ensures ByLastUse(Put(l, k, v, cap), trace)
  {
    if Has(l, k) {
      OrderWithout(l, trace[..|trace| - 1], k);
      WithoutFacts(l, k);
      OrderFront(Without(l, k), trace, Node(k, v));
    } else {
      OrderFront(if |l| >= cap && l != [] then l[..|l| - 1] else l, trace, Node(k, v));
    }
  }

  /** In every run the list is in order of last use, most recent first; the node put evicts, the
      last one, is the least recently used. */
  lemma {:induction false} ListedByLastUse<K, V>(trace: seq<Op<K, V>>, cap: nat)
    requires 1 <= cap
    ensures ByLastUse(Replay(trace, cap), trace)
  {
    if trace != [] {
      var n := |trace| - 1;
      var l := Replay(trace[..n], cap);
      ListedByLastUse(trace[..n], cap);
      Shape(trace[..n], cap);
      match trace[n] {
        case GetOp(k) => GetKeepsOrder(l, trace, k);
        case PutOp(k, v) => PutKeepsOrder(l, trace, k, v, cap);
        case RemoveOp(k) =>
          OrderWithout(l, trace[..n], k);
          OrderStays(Without(l, k), trace);
      }
    }
  }

  // ----- Retention -----

  /** The keys other than `k` used by a trace. */
  ghost function Others<K, V>(trace: seq<Op<K, V>>, k: K): set<K> {
    if trace == [] then {}
    else
      var n := |trace| - 1;
      Others(trace[..n], k) + if trace[n].RemoveOp? || trace[n].key == k then {} else {trace[n].key}
  }

  /** `k` sits at `i` and everything in front of it is in `used`. */
  ghost predicate Behind<K, V>(l: seq<Node<K, V>>, k: K, i: nat, used: set<K>) {
    i < |l| && l[i].key == k && forall j :: 0 <= j < i ==> l[j].key in used
  }

  /** A position behind only used keys is no further back than there are used keys. */
  lemma {:induction false} BehindFew<K, V>(l: seq<Node<K, V>>, k: K, i: nat, used: set<K>)
    requires Distinct(l) && Behind(l, k, i, used)
    ensures i <= |used|
    decreases i
  {
    if i > 0 {
      var first := l[0].key;
      var tail := l[1..];
      assert forall j :: 0 <= j < i - 1 ==> tail[j].key in used - {first};
      BehindFew(tail, k, i - 1, used - {first});
    }
  }

  /** Moving or adding another key in front. */
  lemma FrontKeepsBehind<K, V>(l: seq<Node<K, V>>, k: K, i: nat, used: set<K>, n: Node<K, V>) returns (j: nat)
    requires Distinct(l) && Behind(l, k, i, used) && n.key != k
    ensures Behind([n] + Without(l, n.key), k, j, used + {n.key})
  {
    j := WithoutKeepsBehind(l, k, i, used, n.key);
    j := j + 1;
    var l' := [n] + Without(l, n.key);
    assert forall m :: 0 < m < |l'| ==> l'[m] == Without(l, n.key)[m - 1];
  }

  lemma WithoutKeepsBehind<K, V>(l: seq<Node<K, V>>, k: K, i: nat, used: set<K>, gone: K) returns (j: nat)
    requires Distinct(l) && Behind(l, k, i, used) && gone != k
    ensures Behind(Without(l, gone), k, j, used)
  {
    WithoutLength(l, gone);
    j := i;
    if Has(l, gone) {
      var m :| 0 <= m < |l| && l[m].key == gone;
      WithoutAt(l, m);
      j := if m < i then i - 1 else i;
    }
  }

  ghost function UsedBy<K, V>(used: set<K>, op: Op<K, V>): set<K> {
    if op.RemoveOp? then used else used + {op.key}
  }

  /** One operation on another key than `k`, with fewer other keys used than the capacity. */
  lemma StepKeepsBehind<K, V>(l: seq<Node<K, V>>, cap: nat, op: Op<K, V>, k: K, i: nat, used: set<K>) returns (j: nat)
    requires Distinct(l) && |l| <= cap && 1 <= cap && Behind(l, k, i, used) && op.key != k
    requires |UsedBy(used, op)| < cap
    ensures Behind(Apply(l, op, cap), k, j, UsedBy(used, op))
  {
    WithoutLength(l, op.key);
    match op {
      case GetOp(x) =>
        if Has(l, x) {
          j := FrontKeepsBehind(l, k, i, used, Node(x, Find(l, x).value));
        } else {
          j := i;
        }
      case RemoveOp(x) => j := WithoutKeepsBehind(l, k, i, used, x);
      case PutOp(x, v) =>
        if Has(l, x) {
          j := FrontKeepsBehind(l, k, i, used, Node(x, v));
        } else {
          EvictionSpares(l, cap, x, v, k, i, used);
          j := i + 1;
        }
    }
  }

  /** Inserting a new key evicts the last entry, which `k` is not: too few keys are ahead of it. */
  lemma EvictionSpares<K, V>(l: seq<Node<K, V>>, cap: nat, x: K, v: V, k: K, i: nat, used: set<K>)
    requires Distinct(l) && |l| <= cap && 1 <= cap && Behind(l, k, i, used) && x != k && !Has(l, x)
    requires |used + {x}| < cap
    ensures Behind(Put(l, x, v, cap), k, i + 1, used + {x})
  {
    assert Behind(l, k, i, used - {x});
    BehindFew(l, k, i, used - {x});
    assert used + {x} == (used - {x}) + {x};
    var l' := Put(l, x, v, cap);
    assert forall m :: 0 < m <= i + 1 ==> l'[m] == l[m - 1];
  }

  lemma {:induction false} UsedFewer<T>(a: set<T>, b: set<T>)
    requires a <= b
    ensures |a| <= |b|
  {
    assert b == a + (b - a);
  }

  lemma UseMovesToFront<K, V>(l: seq<Node<K, V>>, cap: nat, op: Op<K, V>)
    requires op.PutOp? || (op.GetOp? && Has(l, op.key))
    ensures Apply(l, op, cap) != [] && Apply(l, op, cap)[0].key == op.key
  {
  }

  lemma OthersStep<K, V>(trace: seq<Op<K, V>>, n: nat, k: K)
    requires n < |trace|
    ensures var last := |trace| - 1;
            var before := Others(trace[..last][n..], k);
            Others(trace[n..], k) == if trace[last].key == k then before else UsedBy(before, trace[last])
  {
    var last := |trace| - 1;
    assert trace[n..][..last - n] == trace[..last][n..];
  }

  lemma {:induction false} RetainedBehind<K, V>(trace: seq<Op<K, V>>, cap: nat, n: nat, k: K) returns (j: nat)
    requires 1 <= cap && 0 < n <= |trace| && trace[n - 1].PutOp? && trace[n - 1].key == k
    requires forall m :: n <= m < |trace| ==> trace[m].key != k || !trace[m].RemoveOp?
    requires |Others(trace[n..], k)| < cap
    ensures Behind(Replay(trace, cap), k, j, Others(trace[n..], k))
    decreases |trace|
  {
    var last := |trace| - 1;
    var before := trace[..last];
    var l, op := Replay(before, cap), trace[last];
    Shape(before, cap);
    if n == |trace| {
      UseMovesToFront(l, cap, op);
      j := 0;
    } else {
      OthersStep(trace, n, k);
      UsedFewer(Others(before[n..], k), Others(trace[n..], k));
      var i := RetainedBehind(before, cap, n, k);
      if op.key == k {
        UseMovesToFront(l, cap, op);
        j := 0;
      } else {
        j := StepKeepsBehind(l, cap, op, k, i, Others(before[n..], k));
      }
    }
  }

  /** A key that was put and not removed is still cached as long as fewer other keys than the
      capacity have been used since. */
  lemma Retention<K, V>(trace: seq<Op<K, V>>, cap: nat, n: nat, k: K)
    requires 1 <= cap && 0 < n <= |trace| && trace[n - 1].PutOp? && trace[n - 1].key == k
    requires forall m :: n <= m < |trace| ==> trace[m].key != k || !trace[m].RemoveOp?
    requires |Others(trace[n..], k)| < cap
    ensures Find(Replay(trace, cap), k).Some?
  {
    var j := RetainedBehind(trace, cap, n, k);
  }

  // ----- Exactly when, for puts alone -----

  ghost function Keys<K, V>(l: seq<Node<K, V>>): set<K> {
    set i | 0 <= i < |l| :: l[i].key
  }

  lemma {:induction false} FewKeys<K, V>(l: seq<Node<K, V>>)
    ensures |Keys(l)| <= |l|
  {
    if l != [] {
      var n := |l| - 1;
      FewKeys(l[..n]);
      assert Keys(l) == Keys(l[..n]) + {l[n].key};
    }
  }

  /** If `k` is cached, all of `used` lies in front of it. */
  ghost predicate Crowded<K, V>(l: seq<Node<K, V>>, k: K, used: set<K>) {
    forall i :: 0 <= i < |l| && l[i].key == k ==> used <= Keys(l[..i])
  }

  /** Putting a key already cached, in front of `k`. */
  lemma UpdateCrowds<K, V>(l: seq<Node<K, V>>, x: K, v: V, k: K, used: set<K>)
    requires Distinct(l) && Crowded(l, k, used) && x != k && Has(l, x)
    ensures Crowded([Node(x, v)] + Without(l, x), k, used + {x})
  {
    var m :| 0 <= m < |l| && l[m].key == x;
    WithoutAt(l, m);
    var l' := [Node(x, v)] + Without(l, x);
    MovedFront(l, l', m, Node(x, v));
    forall i | 0 <= i < |l'| && l'[i].key == k ensures used + {x} <= Keys(l'[..i]) {
      var was := if i <= m then i - 1 else i;
      MovedKeys(l, l', m, was, i);
    }
  }

  /** Where the entries go when entry `m` moves to the front. */
  ghost predicate IsMoved<K, V>(l: seq<Node<K, V>>, l': seq<Node<K, V>>, m: nat) {
    && m < |l| == |l'| && l'[0].key == l[m].key
    && (forall j :: 0 <= j < m ==> l'[j + 1] == l[j])
    && (forall j :: m < j < |l| ==> l'[j] == l[j])
  }

  lemma MovedFront<K, V>(l: seq<Node<K, V>>, l': seq<Node<K, V>>, m: nat, n: Node<K, V>)
    requires m < |l| && n.key == l[m].key && l' == [n] + (l[..m] + l[m + 1..])
    ensures IsMoved(l, l', m)
  {
  }

  /** Moving entry `m` to the front takes no key out of what lies before another entry. */
  lemma MovedKeys<K, V>(l: seq<Node<K, V>>, l': seq<Node<K, V>>, m: nat, was: nat, now: nat)
    requires IsMoved(l, l', m) && was < |l| && was != m && now == if was < m then was + 1 else was
    ensures l'[now] == l[was] && Keys(l[..was]) + {l[m].key} <= Keys(l'[..now])
  {
    assert l'[..now][0].key == l[m].key;
    forall j | 0 <= j < was ensures l[j].key in Keys(l'[..now]) {
      var to := if j == m then 0 else if j < m then j + 1 else j;
      assert l'[..now][to].key == l[j].key;
    }
  }

  /** Putting a new key, with whatever is left of the list behind it. */
  lemma InsertCrowds<K, V>(l: seq<Node<K, V>>, x: K, v: V, k: K, used: set<K>, n: nat)
    requires Crowded(l, k, used) && x != k && n <= |l|
    ensures Crowded([Node(x, v)] + l[..n], k, used + {x})
  {
    var l' := [Node(x, v)] + l[..n];
    forall i | 0 <= i < |l'| && l'[i].key == k ensures used + {x} <= Keys(l'[..i]) {
      assert l'[i] == l[i - 1];
      forall y | y in used + {x} ensures y in Keys(l'[..i]) {
        if y == x {
          assert l'[..i][0].key == x;
        } else {
          var j :| 0 <= j < |l[..i - 1]| && l[..i - 1][j].key == y;
          assert l'[..i][j + 1].key == y;
        }
      }
    }
  }

  lemma PutCrowds<K, V>(l: seq<Node<K, V>>, cap: nat, x: K, v: V, k: K, used: set<K>)
    requires Distinct(l) && Crowded(l, k, used) && x != k
    ensures Crowded(Put(l, x, v, cap), k, used + {x})
  {
    if Has(l, x) {
      UpdateCrowds(l, x, v, k, used);
    } else {
      InsertCrowds(l, x, v, k, used, if |l| >= cap && l != [] then |l| - 1 else |l|);
      assert l[..|l|] == l;
    }
  }

  ghost predicate PutsOnly<K, V>(trace: seq<Op<K, V>>) {
    forall m :: 0 <= m < |trace| ==> trace[m].PutOp?
  }

  /** Operation `n - 1` is the last one on `k`. */
  ghost predicate LastPut<K, V>(trace: seq<Op<K, V>>, n: nat, k: K) {
    0 < n <= |trace| && trace[n - 1].key == k && forall m :: n <= m < |trace| ==> trace[m].key != k
  }

  lemma {:induction false} CrowdedSince<K, V>(trace: seq<Op<K, V>>, cap: nat, n: nat, k: K)
    requires 1 <= cap && PutsOnly(trace) && LastPut(trace, n, k)
    ensures Crowded(Replay(trace, cap), k, Others(trace[n..], k))
    decreases |trace|
  {
    var last := |trace| - 1;
    var before := trace[..last];
    Shape(before, cap);
    if n == |trace| {
      assert trace[n..] == [];
    } else {
      CrowdedSince(before, cap, n, k);
      OthersStep(trace, n, k);
      var op := trace[last];
      PutCrowds(Replay(before, cap), cap, op.key, op.value, k, Others(before[n..], k));
    }
  }

  /** When keys are only put, a key is cached exactly if fewer other keys than the capacity have
      been put since it was. */
  lemma RetentionIff<K, V>(trace: seq<Op<K, V>>, cap: nat, n: nat, k: K)
    requires 1 <= cap && PutsOnly(trace) && LastPut(trace, n, k)
    ensures Find(Replay(trace, cap), k).Some? <==> |Others(trace[n..], k)| < cap
  {
    var l, used := Replay(trace, cap), Others(trace[n..], k);
    if |used| < cap {
      Retention(trace, cap, n, k);
    } else if Has(l, k) {
      var i :| 0 <= i < |l| && l[i].key == k;
      CrowdedSince(trace, cap, n, k);
      Shape(trace, cap);
      UsedFewer(used, Keys(l[..i]));
      FewKeys(l[..i]);
      assert false;
    }
  }
}

/**
 The LRU cache as a recency-ordered list of nodes, most recent first, and what holds of
 it over every trace of operations: the inclusion of a smaller cache in a larger one, and
 that a hit returns the value last put.
 */
module LruSpec {
  import opened Basics

  datatype Node<K, V> = Node(key: K, value: V)

  /** How many nodes carry key `k`. */
  ghost function Count<K, V>(l: seq<Node<K, V>>, k: K): nat {
    if l == [] then 0 else (if l[0].key == k then 1 else 0) + Count(l[1..], k)
  }

  ghost predicate Distinct<K, V>(l: seq<Node<K, V>>) {
    forall i, j :: 0 <= i < j < |l| ==> l[i].key != l[j].key
  }

  ghost predicate Has<K, V>(l: seq<Node<K, V>>, k: K) {
    exists i :: 0 <= i < |l| && l[i].key == k
  }

  /** The list with every node of key `k` taken out. */
  function Without<K(==), V>(l: seq<Node<K, V>>, k: K): seq<Node<K, V>> {
    if l == [] then []
    else if l[0].key == k then Without(l[1..], k)
    else [l[0]] + Without(l[1..], k)
  }

  function Find<K(==), V>(l: seq<Node<K, V>>, k: K): (r: Option<V>)
    ensures r.Some? ==> exists i :: 0 <= i < |l| && l[i] == Node(k, r.value)
    ensures r.None? <==> !Has(l, k)
  {
    if l == [] then None
    else if l[0].key == k then Some(l[0].value)
    else
      var r := Find(l[1..], k);
      assert r.Some? ==> forall i :: 0 <= i < |l[1..]| ==> l[1..][i] == l[i + 1];
      r
  }

  /** Nodes satisfying `p` taken out; order kept. */
  function Reject<K, V>(l: seq<Node<K, V>>, p: (K, V) -> bool): seq<Node<K, V>> {
    if l == [] then []
    else if p(l[0].key, l[0].value) then Reject(l[1..], p)
    else [l[0]] + Reject(l[1..], p)
  }

  /** Nodes satisfying `p`, in list order. */
  function Select<K, V>(l: seq<Node<K, V>>, p: (K, V) -> bool): seq<Node<K, V>> {
    if l == [] then []
    else if p(l[0].key, l[0].value) then [l[0]] + Select(l[1..], p)
    else Select(l[1..], p)
  }

  function Reverse<T>(s: seq<T>): (r: seq<T>)
    ensures |r| == |s|
  {
    if s == [] then [] else Reverse(s[1..]) + [s[0]]
  }

  // ----- The operations -----

  function Get<K(==), V>(l: seq<Node<K, V>>, k: K): seq<Node<K, V>> {
    var found := Find(l, k);
    if found.Some? then [Node(k, found.value)] + Without(l, k) else l
  }

  function Put<K(==), V>(l: seq<Node<K, V>>, k: K, v: V, cap: nat): seq<Node<K, V>> {
    if Find(l, k).Some? then [Node(k, v)] + Without(l, k)
    else if |l| >= cap && l != [] then [Node(k, v)] + l[..|l| - 1]
    else [Node(k, v)] + l
  }

  function PutEvicts<K(==), V>(l: seq<Node<K, V>>, k: K, cap: nat): seq<Node<K, V>> {
    if Find(l, k).None? && |l| >= cap && l != [] then [l[|l| - 1]] else []
  }

  function Shrink<K, V>(l: seq<Node<K, V>>, cap: nat): seq<Node<K, V>> {
    if |l| > cap then l[..cap] else l
  }

  function ShrinkEvicts<K, V>(l: seq<Node<K, V>>, cap: nat): seq<Node<K, V>> {
    if |l| > cap then Reverse(l[cap..]) else []
  }

  /** A requested capacity of zero means one. */
  function Clamp(capacity: nat): (r: nat)
    ensures r >= 1
  {
    if capacity == 0 then 1 else capacity
  }

  // ----- Facts about the list functions -----

  lemma {:induction false} WithoutMember<K, V>(l: seq<Node<K, V>>, k: K, n: Node<K, V>)
    ensures n in Without(l, k) <==> n in l && n.key != k
  {
    if l != [] {
      WithoutMember(l[1..], k, n);
      assert l == [l[0]] + l[1..];
    }
  }

  lemma {:induction false} WithoutDistinct<K, V>(l: seq<Node<K, V>>, k: K)
    requires Distinct(l)
    ensures Distinct(Without(l, k))
  {
    if l != [] {
      var rest := Without(l[1..], k);
      WithoutDistinct(l[1..], k);
      forall i | 0 <= i < |rest| ensures rest[i].key != l[0].key {
        WithoutMember(l[1..], k, rest[i]);
      }
    }
  }

  lemma {:induction false} WithoutLength<K, V>(l: seq<Node<K, V>>, k: K)
    requires Distinct(l)
    ensures |Without(l, k)| == if Has(l, k) then |l| - 1 else |l|
    ensures !Has(l, k) ==> Without(l, k) == l
  {
    if l != [] {
      WithoutLength(l[1..], k);
      assert l == [l[0]] + l[1..];
      assert Has(l, k) <==> l[0].key == k || Has(l[1..], k) by {
        if Has(l[1..], k) {
          var i :| 0 <= i < |l[1..]| && l[1..][i].key == k;
          assert l[i + 1].key == k;
        }
      }
    }
  }

  lemma WithoutFacts<K, V>(l: seq<Node<K, V>>, k: K)
    requires Distinct(l)
    ensures Distinct(Without(l, k)) && !Has(Without(l, k), k)
    ensures forall n :: n in Without(l, k) <==> n in l && n.key != k
    ensures |Without(l, k)| == if Has(l, k) then |l| - 1 else |l|
    ensures !Has(l, k) ==> Without(l, k) == l
  {
    WithoutDistinct(l, k);
    WithoutLength(l, k);
    forall n ensures n in Without(l, k) <==> n in l && n.key != k { WithoutMember(l, k, n); }
    assert forall i :: 0 <= i < |Without(l, k)| ==> Without(l, k)[i] in Without(l, k);
  }

  lemma {:induction false} WithoutAt<K, V>(l: seq<Node<K, V>>, i: nat)
    requires Distinct(l) && i < |l|
    ensures Without(l, l[i].key) == l[..i] + l[i + 1..]
  {
    if i == 0 {
      WithoutFacts(l[1..], l[0].key);
      assert l[..0] + l[1..] == l[1..];
    } else {
      WithoutAt(l[1..], i - 1);
      assert l[1..][..i - 1] == l[1..i] && l[1..][i..] == l[i + 1..];
      assert [l[0]] + l[1..i] == l[..i];
    }
  }

  lemma {:induction false} FindAt<K, V>(l: seq<Node<K, V>>, i: nat)
    requires Distinct(l) && i < |l|
    ensures Find(l, l[i].key) == Some(l[i].value)
  {
    if i > 0 { FindAt(l[1..], i - 1); }
  }

  // ----- Inclusion -----

  /** `x` can be obtained from `y` by deleting nodes. */
  ghost predicate Subsequence<T>(x: seq<T>, y: seq<T>)
    decreases |y|
  {
    x == [] || (y != [] && if x[0] == y[0] then Subsequence(x[1..], y[1..]) else Subsequence(x, y[1..]))
  }

  lemma {:induction false} SubsequenceTail<T>(x: seq<T>, y: seq<T>)
    requires Subsequence(x, y) && x != []
    ensures Subsequence(x[1..], y)
    decreases |y|
  {
    if x[0] == y[0] {
      if |x| > 1 {
        if x[1] == y[0] {
          SubsequenceTail(x[1..], y[1..]);
        }
      }
    } else {
      SubsequenceTail(x, y[1..]);
      if |x| > 1 && x[1] == y[0] {
        SubsequenceTail(x[1..], y[1..]);
      }
    }
  }

  lemma SubsequencePrepend<T>(x: seq<T>, y: seq<T>, n: T)
    requires Subsequence(x, y)
    ensures Subsequence(x, [n] + y) && Subsequence([n] + x, [n] + y)
  {
    assert ([n] + y)[1..] == y && ([n] + x)[1..] == x;
    if x != [] { SubsequenceTail(x, y); }
  }

  lemma {:induction false} SubsequenceMember<T>(x: seq<T>, y: seq<T>, n: T)
    requires Subsequence(x, y) && n in x
    ensures n in y
    decreases |y|
  {
    if x[0] == y[0] {
      if n != x[0] { SubsequenceMember(x[1..], y[1..], n); }
    } else {
      SubsequenceMember(x, y[1..], n);
    }
  }

  lemma {:induction false} SubsequenceShorter<T>(x: seq<T>, y: seq<T>)
    requires Subsequence(x, y)
    ensures |x| <= |y|
    decreases |y|
  {
    if x != [] {
      if x[0] == y[0] { SubsequenceShorter(x[1..], y[1..]); } else { SubsequenceShorter(x, y[1..]); }
    }
  }

  /** Dropping the last node on the smaller side, or on both. */
  lemma {:induction false} SubsequenceDropLast<T>(x: seq<T>, y: seq<T>)
    requires Subsequence(x, y) && x != []
    ensures Subsequence(x[..|x| - 1], y)
    ensures Subsequence(x[..|x| - 1], y[..|y| - 1])
    decreases |y|
  {
    if |x| == 1 {
    } else if x[0] == y[0] {
      SubsequenceDropLast(x[1..], y[1..]);
      assert x[1..][..|x| - 2] == x[..|x| - 1][1..];
      assert y[1..][..|y| - 2] == y[..|y| - 1][1..];
    } else {
      SubsequenceShorter(x, y[1..]);
      SubsequenceDropLast(x, y[1..]);
      assert y[1..][..|y| - 2] == y[..|y| - 1][1..];
    }
  }

  lemma {:induction false} SubsequenceWithout<K, V>(x: seq<Node<K, V>>, y: seq<Node<K, V>>, k: K)
    requires Subsequence(x, y)
    ensures Subsequence(Without(x, k), Without(y, k))
    decreases |y|
  {
    if x != [] {
      if x[0] == y[0] {
        SubsequenceWithout(x[1..], y[1..], k);
        if x[0].key != k { SubsequencePrepend(Without(x[1..], k), Without(y[1..], k), x[0]); }
      } else {
        SubsequenceWithout(x, y[1..], k);
        if y[0].key != k { SubsequencePrepend(Without(x, k), Without(y[1..], k), y[0]); }
      }
    }
  }

  /** The simulation between a cache of capacity `s` and one of capacity `c`. */
  ghost predicate Included<K, V>(x: seq<Node<K, V>>, s: nat, y: seq<Node<K, V>>, c: nat) {
    && Distinct(x) && Distinct(y) && |x| <= s && |y| <= c
    && Subsequence(x, y) && |y| - |x| <= c - s
  }

  /** A hit in the smaller cache is a hit in the larger, with the same value. */
  lemma IncludedHit<K, V>(x: seq<Node<K, V>>, s: nat, y: seq<Node<K, V>>, c: nat, k: K)
    requires Included(x, s, y, c) && Find(x, k).Some?
    ensures Find(y, k) == Find(x, k)
  {
    var i :| 0 <= i < |x| && x[i] == Node(k, Find(x, k).value);
    SubsequenceMember(x, y, x[i]);
    var j :| 0 <= j < |y| && y[j] == x[i];
    FindAt(y, j);
  }

  lemma FrontDistinct<K, V>(l: seq<Node<K, V>>, n: Node<K, V>)
    requires Distinct(l) && !Has(l, n.key)
    ensures Distinct([n] + l)
  {
  }

  lemma IncludedFront<K, V>(x: seq<Node<K, V>>, y: seq<Node<K, V>>, n: Node<K, V>)
    requires Distinct(x) && Distinct(y) && Subsequence(x, y)
    ensures Distinct([n] + Without(x, n.key)) && Distinct([n] + Without(y, n.key))
    ensures Subsequence([n] + Without(x, n.key), [n] + Without(y, n.key))
  {
    WithoutFacts(x, n.key);
    WithoutFacts(y, n.key);
    SubsequenceWithout(x, y, n.key);
    SubsequencePrepend(Without(x, n.key), Without(y, n.key), n);
  }

  lemma GetKeepsInclusion<K, V>(x: seq<Node<K, V>>, s: nat, y: seq<Node<K, V>>, c: nat, k: K)
    requires Included(x, s, y, c)
    ensures Included(Get(x, k), s, Get(y, k), c)
  {
    WithoutFacts(x, k);
    WithoutFacts(y, k);
    if Find(x, k).Some? {
      IncludedHit(x, s, y, c, k);
      IncludedFront(x, y, Node(k, Find(x, k).value));
    } else if Find(y, k).Some? {
      SubsequenceWithout(x, y, k);
      SubsequencePrepend(x, Without(y, k), Node(k, Find(y, k).value));
    }
  }

  lemma RemoveKeepsInclusion<K, V>(x: seq<Node<K, V>>, s: nat, y: seq<Node<K, V>>, c: nat, k: K)
    requires Included(x, s, y, c)
    ensures Included(Without(x, k), s, Without(y, k), c)
  {
    WithoutFacts(x, k);
    WithoutFacts(y, k);
    SubsequenceWithout(x, y, k);
    if Has(x, k) { IncludedHit(x, s, y, c, k); }
  }

  /** Putting a key neither cache holds: if the larger one evicts, so does the smaller. */
  lemma PutNewKeepsInclusion<K, V>(x: seq<Node<K, V>>, s: nat, y: seq<Node<K, V>>, c: nat, k: K, v: V)
    requires Included(x, s, y, c) && 1 <= s && !Has(x, k) && !Has(y, k)
    ensures Included(Put(x, k, v, s), s, Put(y, k, v, c), c)
  {
    var x' := if |x| >= s then x[..|x| - 1] else x;
    var y' := if |y| >= c then y[..|y| - 1] else y;
    if |x| >= s { SubsequenceDropLast(x, y); }
    SubsequencePrepend(x', y', Node(k, v));
  }

  lemma PutHeldKeepsInclusion<K, V>(x: seq<Node<K, V>>, s: nat, y: seq<Node<K, V>>, c: nat, k: K, v: V)
    requires Included(x, s, y, c) && Has(x, k)
    ensures Included(Put(x, k, v, s), s, Put(y, k, v, c), c)
  {
    IncludedHit(x, s, y, c, k);
    IncludedFront(x, y, Node(k, v));
    WithoutLength(x, k);
    WithoutLength(y, k);
  }

  /** Putting a key only the larger cache holds: it makes room in the smaller one. */
  lemma PutLargerKeepsInclusion<K, V>(x: seq<Node<K, V>>, s: nat, y: seq<Node<K, V>>, c: nat, k: K, v: V)
    requires Included(x, s, y, c) && 1 <= s <= c && !Has(x, k) && Has(y, k)
    ensures Included(Put(x, k, v, s), s, Put(y, k, v, c), c)
  {
    var x' := if |x| >= s then x[..|x| - 1] else x;
    if |x| >= s { SubsequenceDropLast(x, y); }
    assert Distinct(x') && !Has(x', k);
    WithoutLength(x', k);
    WithoutLength(y, k);
    IncludedFront(x', y, Node(k, v));
  }

  lemma PutKeepsInclusion<K, V>(x: seq<Node<K, V>>, s: nat, y: seq<Node<K, V>>, c: nat, k: K, v: V)
    requires Included(x, s, y, c) && 1 <= s <= c
    ensures Included(Put(x, k, v, s), s, Put(y, k, v, c), c)
  {
    if Has(x, k) {
      PutHeldKeepsInclusion(x, s, y, c, k, v);
    } else if Has(y, k) {
      PutLargerKeepsInclusion(x, s, y, c, k, v);
    } else {
      PutNewKeepsInclusion(x, s, y, c, k, v);
    }
  }

  // ----- Traces -----

  datatype Op<K, V> = GetOp(key: K) | PutOp(key: K, value: V) | RemoveOp(key: K)

  function Apply<K(==), V>(l: seq<Node<K, V>>, op: Op<K, V>, cap: nat): seq<Node<K, V>> {
    match op
    case GetOp(k) => Get(l, k)
    case PutOp(k, v) => Put(l, k, v, cap)
    case RemoveOp(k) => Without(l, k)
  }

  /** The cache of capacity `cap` after a trace, from empty. */
  function Replay<K(==), V>(trace: seq<Op<K, V>>, cap: nat): seq<Node<K, V>> {
    if trace == [] then []
    else Apply(Replay(trace[..|trace| - 1], cap), trace[|trace| - 1], cap)
  }

  lemma {:induction false} Inclusion<K, V>(trace: seq<Op<K, V>>, s: nat, c: nat)
    requires 1 <= s <= c
    ensures Included(Replay(trace, s), s, Replay(trace, c), c)
  {
    if trace != [] {
      var n := |trace| - 1;
      Inclusion(trace[..n], s, c);
      var x, y := Replay(trace[..n], s), Replay(trace[..n], c);
      match trace[n] {
        case GetOp(k) => GetKeepsInclusion(x, s, y, c, k);
        case PutOp(k, v) => PutKeepsInclusion(x, s, y, c, k, v);
        case RemoveOp(k) => RemoveKeepsInclusion(x, s, y, c, k);
      }
    }
  }

  /** Giving the cache more capacity never turns a hit into a miss, nor changes its value. */
  lemma LargerCacheHitsMore<K, V>(trace: seq<Op<K, V>>, s: nat, c: nat, k: K)
    requires 1 <= s <= c && Find(Replay(trace, s), k).Some?
    ensures Find(Replay(trace, c), k) == Find(Replay(trace, s), k)
  {
    Inclusion(trace, s, c);
    IncludedHit(Replay(trace, s), s, Replay(trace, c), c, k);
  }

  function LastPut<K(==), V>(trace: seq<Op<K, V>>, k: K): Option<V> {
    if trace == [] then None
    else
      var op := trace[|trace| - 1];
      if op.PutOp? && op.key == k then Some(op.value) else LastPut(trace[..|trace| - 1], k)
  }

  /** Whatever the cache still holds is the value most recently put under that key. */
  lemma {:induction false} HoldsLastPut<K, V>(trace: seq<Op<K, V>>, cap: nat, n: Node<K, V>)
    requires 1 <= cap && n in Replay(trace, cap)
    ensures LastPut(trace, n.key) == Some(n.value)
  {
    var m := |trace| - 1;
    var l, op := Replay(trace[..m], cap), trace[m];
    Inclusion(trace[..m], cap, cap);
    WithoutFacts(l, op.key);
    if op.PutOp? && op.key == n.key {
      assert n == Node(op.key, op.value);
    } else {
      assert n in l;
      HoldsLastPut(trace[..m], cap, n);
    }
  }
}

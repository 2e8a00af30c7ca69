/**
 The LRU cache with its history: which keys were inserted and which nodes were handed to
 the eviction callback.  Every inserted key is still cached or was evicted, once per
 insertion, whatever the sequence of operations.
 */
module LruHistory {
  import opened LruSpec

  datatype Cache<!K, !V> = Cache(list: seq<Node<K, V>>, capacity: nat, inserted: seq<K>, evicted: seq<Node<K, V>>)

  datatype Step<!K, !V> =
    | Getting(key: K)
    | Putting(key: K, value: V)
    | Removing(key: K)
    | Resizing(capacity: nat)
    | RemovingIf(p: (K, V) -> bool)
    | Clearing

  function Next<K(==), V>(c: Cache<K, V>, step: Step<K, V>): Cache<K, V> {
    match step
    case Getting(k) => c.(list := Get(c.list, k))
    case Putting(k, v) =>
      Cache(Put(c.list, k, v, c.capacity), c.capacity,
            if Find(c.list, k).None? then c.inserted + [k] else c.inserted,
            c.evicted + PutEvicts(c.list, k, c.capacity))
    case Removing(k) =>
      var found := Find(c.list, k);
      if found.Some? then c.(list := Without(c.list, k), evicted := c.evicted + [Node(k, found.value)]) else c
    case Resizing(n) =>
      c.(list := Shrink(c.list, Clamp(n)), capacity := Clamp(n),
         evicted := c.evicted + ShrinkEvicts(c.list, Clamp(n)))
    case RemovingIf(p) => c.(list := Reject(c.list, p), evicted := c.evicted + Select(c.list, p))
    case Clearing => c.(list := [], evicted := c.evicted + c.list)
  }

  function History<K(==), V>(capacity: nat, steps: seq<Step<K, V>>): Cache<K, V> {
    if steps == [] then Cache([], Clamp(capacity), [], [])
    else Next(History(capacity, steps[..|steps| - 1]), steps[|steps| - 1])
  }

  /** How often `k` was inserted as a new key. */
  ghost function Insertions<K>(keys: seq<K>, k: K): nat {
    if keys == [] then 0
    else Insertions(keys[..|keys| - 1], k) + if keys[|keys| - 1] == k then 1 else 0
  }

  ghost predicate Fits<K, V>(c: Cache<K, V>) {
    Distinct(c.list) && |c.list| <= c.capacity && 1 <= c.capacity
  }

  /** Each insertion of `k` is accounted for: cached now, or handed out on an eviction. */
  ghost predicate Conserved<K, V>(c: Cache<K, V>, k: K) {
    Fits(c) && Insertions(c.inserted, k) == Count(c.list, k) + Count(c.evicted, k)
  }

  lemma {:induction false} CountConcat<K, V>(x: seq<Node<K, V>>, y: seq<Node<K, V>>, k: K)
    ensures Count(x + y, k) == Count(x, k) + Count(y, k)
  {
    if x == [] {
      assert x + y == y;
    } else {
      CountConcat(x[1..], y, k);
      assert (x + y)[1..] == x[1..] + y;
    }
  }

  lemma CountFront<K, V>(n: Node<K, V>, l: seq<Node<K, V>>, k: K)
    ensures Count([n] + l, k) == Count(l, k) + if n.key == k then 1 else 0
    ensures Count([n], k) == if n.key == k then 1 else 0
  {
    assert ([n] + l)[1..] == l;
  }

  lemma {:induction false} CountWithout<K, V>(l: seq<Node<K, V>>, gone: K, k: K)
    ensures Count(Without(l, gone), k) == if gone == k then 0 else Count(l, k)
  {
    if l != [] {
      CountWithout(l[1..], gone, k);
      CountFront(l[0], Without(l[1..], gone), k);
    }
  }

  lemma {:induction false} CountDistinct<K, V>(l: seq<Node<K, V>>, k: K)
    requires Distinct(l)
    ensures Count(l, k) == if Has(l, k) then 1 else 0
  {
    if l != [] {
      CountDistinct(l[1..], k);
      assert l == [l[0]] + l[1..];
      assert Has(l, k) <==> l[0].key == k || Has(l[1..], k) by {
        if Has(l[1..], k) {
          var i :| 0 <= i < |l[1..]| && l[1..][i].key == k;
          assert l[i + 1].key == k;
        }
      }
    }
  }

  lemma {:induction false} CountReverse<K, V>(l: seq<Node<K, V>>, k: K)
    ensures Count(Reverse(l), k) == Count(l, k)
  {
    if l != [] {
      CountReverse(l[1..], k);
      CountConcat(Reverse(l[1..]), [l[0]], k);
      CountFront(l[0], [], k);
    }
  }

  lemma {:induction false} CountSplit<K, V>(l: seq<Node<K, V>>, p: (K, V) -> bool, k: K)
    ensures Count(l, k) == Count(Reject(l, p), k) + Count(Select(l, p), k)
  {
    if l != [] {
      CountSplit(l[1..], p, k);
      CountFront(l[0], Reject(l[1..], p), k);
      CountFront(l[0], Select(l[1..], p), k);
    }
  }

  lemma {:induction false} RejectMember<K, V>(l: seq<Node<K, V>>, p: (K, V) -> bool, n: Node<K, V>)
    ensures n in Reject(l, p) <==> n in l && !p(n.key, n.value)
  {
    if l != [] {
      RejectMember(l[1..], p, n);
      assert l == [l[0]] + l[1..];
    }
  }

  lemma {:induction false} RejectDistinct<K, V>(l: seq<Node<K, V>>, p: (K, V) -> bool)
    requires Distinct(l)
    ensures Distinct(Reject(l, p)) && |Reject(l, p)| <= |l|
  {
    if l != [] {
      var rest := Reject(l[1..], p);
      RejectDistinct(l[1..], p);
      forall i | 0 <= i < |rest| ensures rest[i].key != l[0].key {
        RejectMember(l[1..], p, rest[i]);
      }
    }
  }

  lemma GetConserves<K, V>(c: Cache<K, V>, key: K, k: K)
    requires Conserved(c, k)
    ensures Conserved(Next(c, Getting(key)), k)
  {
    WithoutFacts(c.list, key);
    if Find(c.list, key).Some? {
      CountWithout(c.list, key, k);
      CountDistinct(c.list, key);
      CountFront(Node(key, Find(c.list, key).value), Without(c.list, key), k);
    }
  }

  lemma UpdateConserves<K, V>(c: Cache<K, V>, key: K, v: V, k: K)
    requires Conserved(c, k) && Has(c.list, key)
    ensures Conserved(Next(c, Putting(key, v)), k)
  {
    WithoutFacts(c.list, key);
    CountWithout(c.list, key, k);
    CountDistinct(c.list, key);
    CountFront(Node(key, v), Without(c.list, key), k);
    assert PutEvicts(c.list, key, c.capacity) == [];
    assert c.evicted + [] == c.evicted;
  }

  lemma InsertConserves<K, V>(c: Cache<K, V>, key: K, v: V, k: K)
    requires Conserved(c, k) && !Has(c.list, key)
    ensures Conserved(Next(c, Putting(key, v)), k)
  {
    var l, drop := c.list, PutEvicts(c.list, key, c.capacity);
    var keep := if |l| >= c.capacity then l[..|l| - 1] else l;
    var r := Next(c, Putting(key, v));
    assert r.list == [Node(key, v)] + keep && r.evicted == c.evicted + drop;
    assert r.inserted[..|c.inserted|] == c.inserted;
    assert Count(l, k) == Count(keep, k) + Count(drop, k) by {
      assert l == keep + drop;
      CountConcat(keep, drop, k);
    }
    CountConcat(c.evicted, drop, k);
    CountFront(Node(key, v), keep, k);
    FrontDistinct(keep, Node(key, v));
  }

  lemma PutConserves<K, V>(c: Cache<K, V>, key: K, v: V, k: K)
    requires Conserved(c, k)
    ensures Conserved(Next(c, Putting(key, v)), k)
  {
    if Has(c.list, key) { UpdateConserves(c, key, v, k); } else { InsertConserves(c, key, v, k); }
  }

  lemma RemoveConserves<K, V>(c: Cache<K, V>, key: K, k: K)
    requires Conserved(c, k)
    ensures Conserved(Next(c, Removing(key)), k)
  {
    WithoutFacts(c.list, key);
    if Find(c.list, key).Some? {
      var n := Node(key, Find(c.list, key).value);
      CountWithout(c.list, key, k);
      CountDistinct(c.list, key);
      CountConcat(c.evicted, [n], k);
      CountFront(n, [], k);
    }
  }

  lemma ResizeConserves<K, V>(c: Cache<K, V>, n: nat, k: K)
    requires Conserved(c, k)
    ensures Conserved(Next(c, Resizing(n)), k)
  {
    var l, m := c.list, Clamp(n);
    CountConcat(c.evicted, ShrinkEvicts(l, m), k);
    if |l| > m {
      assert l == l[..m] + l[m..];
      CountConcat(l[..m], l[m..], k);
      CountReverse(l[m..], k);
    }
  }

  lemma NextConserves<K, V>(c: Cache<K, V>, step: Step<K, V>, k: K)
    requires Conserved(c, k)
    ensures Conserved(Next(c, step), k)
  {
    match step {
      case Getting(key) => GetConserves(c, key, k);
      case Putting(key, v) => PutConserves(c, key, v, k);
      case Removing(key) => RemoveConserves(c, key, k);
      case Resizing(n) => ResizeConserves(c, n, k);
      case RemovingIf(p) =>
        CountSplit(c.list, p, k);
        RejectDistinct(c.list, p);
        CountConcat(c.evicted, Select(c.list, p), k);
      case Clearing => CountConcat(c.evicted, c.list, k);
    }
  }

  /** Over every sequence of operations: the cache never overfills, holds each key once,
      and every insertion of a key is matched by its presence or by an eviction. */
  lemma {:induction false} HistoryConserves<K, V>(capacity: nat, steps: seq<Step<K, V>>, k: K)
    ensures Conserved(History(capacity, steps), k)
    ensures var c := History(capacity, steps);
            Insertions(c.inserted, k) - Count(c.evicted, k) == if Has(c.list, k) then 1 else 0
  {
    if steps != [] {
      var n := |steps| - 1;
      HistoryConserves(capacity, steps[..n], k);
      NextConserves(History(capacity, steps[..n]), steps[n], k);
    }
    CountDistinct(History(capacity, steps).list, k);
  }
}

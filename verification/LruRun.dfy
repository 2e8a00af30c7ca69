/** The cache object driven through whole sequences of operations. */
module LruRun {
  import opened LruSpec
  import opened LruHistory
  import opened LruCache

  /** One operation on the object is one step of its history. */
  method Perform<K(==), V>(cache: LRUCache<K, V>, step: Step<K, V>, ghost c: Cache<K, V>)
    returns (evicted: seq<Node<K, V>>)
    requires cache.Valid() && cache.view == c.list && cache.capacity == c.capacity
    modifies cache
    ensures cache.Valid()
    ensures cache.view == Next(c, step).list && cache.capacity == Next(c, step).capacity
    ensures Next(c, step).evicted == c.evicted + evicted
  {
    evicted := [];
    match step {
      case Getting(k) =>
        var r := cache.Get(k);
      case Putting(k, v) =>
        var added, gone := cache.Put(k, v);
        evicted := gone;
      case Removing(k) =>
        WithoutLength(c.list, k);
        var removed, gone := cache.Remove(k);
        evicted := gone;
      case Resizing(n) =>
        evicted := cache.SetCapacity(n);
      case RemovingIf(p) =>
        var n, gone := cache.RemoveIf(p);
        evicted := gone;
      case Clearing =>
        evicted := cache.Clear();
    }
  }

  /** Everything the eviction callback sees over a run, and what is left in the cache. */
  method Drive<K(==), V>(requested: nat, steps: seq<Step<K, V>>, ghost k: K)
    returns (evicted: seq<Node<K, V>>, size: nat)
    ensures evicted == History(requested, steps).evicted
    ensures size == |History(requested, steps).list| <= History(requested, steps).capacity
    ensures Count(evicted, k) + (if Has(History(requested, steps).list, k) then 1 else 0)
            == Insertions(History(requested, steps).inserted, k)
  {
    var cache := new LRUCache<K, V>(requested);
    evicted := [];
    assert steps[..0] == [];
    for n := 0 to |steps|
      invariant cache.Valid()
      invariant cache.view == History(requested, steps[..n]).list
      invariant cache.capacity == History(requested, steps[..n]).capacity
      invariant evicted == History(requested, steps[..n]).evicted
    {
      assert steps[..n + 1][..n] == steps[..n];
      var gone := Perform(cache, steps[n], History(requested, steps[..n]));
      evicted := evicted + gone;
    }
    assert steps[..|steps|] == steps;
    HistoryConserves(requested, steps, k);
    size := |cache.nodeList|;
  }
}

/**
 The LRU cache on its linked nodes and hash index, proved against the recency list.

 A list iterator is a handle: it stays valid while its node is in the list, wherever the
 node is spliced to.  `cells` is what the handles point at.
 */
module LruCache {
  import opened Basics
  import opened LruSpec

  type Handle = nat

  /** The node list and the index hold the same distinct keys, every index entry points at
      the node of its own key, and the nodes carry the contents of `l`, in order. */
  ghost predicate Represents<K, V>(order: seq<Handle>, cells: map<Handle, Node<K, V>>, index: map<K, Handle>,
                                   l: seq<Node<K, V>>)
  {
    && |order| == |l| && Distinct(l)
    && (forall i :: 0 <= i < |order| ==> order[i] in cells && cells[order[i]] == l[i])
    && (forall i :: 0 <= i < |order| ==> l[i].key in index && index[l[i].key] == order[i])
    && (forall k :: k in index ==> Has(l, k))
  }

  ghost function Splice<T>(s: seq<T>, i: nat): seq<T>
    requires i < |s|
  {
    s[..i] + s[i + 1..]
  }

  /** Where an indexed key sits. */
  lemma Locate<K, V>(order: seq<Handle>, cells: map<Handle, Node<K, V>>, index: map<K, Handle>,
                     l: seq<Node<K, V>>, k: K) returns (i: nat)
    requires Represents(order, cells, index, l) && k in index
    ensures i < |order| && order[i] == index[k] && l[i].key == k
    ensures Find(l, k) == Some(l[i].value) && Without(l, k) == Splice(l, i)
  {
    assert Has(l, k);
    i :| 0 <= i < |l| && l[i].key == k;
    FindAt(l, i);
    WithoutAt(l, i);
  }

  lemma NotHeld<K, V>(order: seq<Handle>, cells: map<Handle, Node<K, V>>, index: map<K, Handle>,
                      l: seq<Node<K, V>>, k: K)
    requires Represents(order, cells, index, l) && k !in index
    ensures !Has(l, k) && Find(l, k) == None
  {
  }

  /** A handle is linked once. */
  lemma SamePlace<K, V>(order: seq<Handle>, cells: map<Handle, Node<K, V>>, index: map<K, Handle>,
                        l: seq<Node<K, V>>, i: nat, j: nat)
    requires Represents(order, cells, index, l) && i < |order| && j < |order| && order[i] == order[j]
    ensures i == j
  {
    assert l[i] == l[j];
  }

  /** Erasing a node and its index entry. */
  lemma EraseRepresents<K, V>(order: seq<Handle>, cells: map<Handle, Node<K, V>>, index: map<K, Handle>,
                              l: seq<Node<K, V>>, i: nat)
    requires Represents(order, cells, index, l) && i < |order|
    ensures Represents(Splice(order, i), cells - {order[i]}, index - {l[i].key}, Splice(l, i))
  {
    var order', l' := Splice(order, i), Splice(l, i);
    WithoutAt(l, i);
    WithoutDistinct(l, l[i].key);
    forall j | 0 <= j < |l'|
      ensures order'[j] != order[i] && order'[j] in cells && cells[order'[j]] == l'[j]
      ensures l'[j].key != l[i].key && l'[j].key in index && index[l'[j].key] == order'[j]
    {
      var m := if j < i then j else j + 1;
      assert order'[j] == order[m] && l'[j] == l[m];
    }
    forall k | k in index && k != l[i].key ensures Has(l', k) {
      var j :| 0 <= j < |l| && l[j].key == k;
      assert l'[if j < i then j else j - 1] == l[j];
    }
  }

  /** Linking a node not yet indexed at the front. */
  lemma FrontRepresents<K, V>(order: seq<Handle>, cells: map<Handle, Node<K, V>>, index: map<K, Handle>,
                              l: seq<Node<K, V>>, h: Handle, n: Node<K, V>)
    requires Represents(order, cells, index, l) && h !in cells && n.key !in index
    ensures Represents([h] + order, cells[h := n], index[n.key := h], [n] + l)
  {
    var order', cells', index', l' := [h] + order, cells[h := n], index[n.key := h], [n] + l;
    assert !Has(l, n.key) && Distinct(l') by { FrontDistinct(l, n); }
    forall i | 0 <= i < |l'|
      ensures order'[i] in cells' && cells'[order'[i]] == l'[i]
      ensures l'[i].key in index' && index'[l'[i].key] == order'[i]
    {
      if i > 0 {
        assert order'[i] == order[i - 1] && l'[i] == l[i - 1];
      }
    }
    forall k | k in index' ensures Has(l', k) {
      if k == n.key {
        assert l'[0].key == k;
      } else {
        var j :| 0 <= j < |l| && l[j].key == k;
        assert l'[j + 1] == l[j];
      }
    }
  }

  /** Splicing a node to the front, possibly with a new value, without touching the index. */
  lemma MoveRepresents<K, V>(order: seq<Handle>, cells: map<Handle, Node<K, V>>, index: map<K, Handle>,
                             l: seq<Node<K, V>>, i: nat, v: V)
    requires Represents(order, cells, index, l) && i < |order|
    ensures var n := Node(l[i].key, v);
            Represents([order[i]] + Splice(order, i), cells[order[i] := n], index, [n] + Splice(l, i))
  {
    var h, k, n := order[i], l[i].key, Node(l[i].key, v);
    EraseRepresents(order, cells, index, l, i);
    FrontRepresents(Splice(order, i), cells - {h}, index - {k}, Splice(l, i), h, n);
    assert (cells - {h})[h := n] == cells[h := n];
    assert (index - {k})[k := h] == index;
  }

  class LRUCache<K(==), V> {
    var capacity: nat
    var nodeList: seq<Handle>
    var cells: map<Handle, Node<K, V>>
    var hashMap: map<K, Handle>
    var nextHandle: Handle
    ghost var view: seq<Node<K, V>>  // the recency list, most recent first

    ghost predicate Linked(l: seq<Node<K, V>>)
      reads this
    {
      Represents(nodeList, cells, hashMap, l) && forall h :: h in cells ==> h < nextHandle
    }

    ghost predicate Valid()
      reads this
    {
      Linked(view) && |view| <= capacity && 1 <= capacity
    }

    constructor (requested: nat)
      ensures Valid() && view == [] && capacity == (if requested == 0 then 1 else requested)
    {
      capacity := if requested == 0 then 1 else requested;
      nodeList, cells, hashMap, nextHandle := [], map[], map[], 0;
      view := [];
    }

    // ----- List surgery -----

    /** Splice a node to the front of the list. */
    method MoveToFront(it: Handle, ghost i: nat, ghost l: seq<Node<K, V>>)
      requires Linked(l) && i < |nodeList| && nodeList[i] == it
      modifies this`nodeList
      ensures Linked([l[i]] + Splice(l, i))
    {
      MoveRepresents(nodeList, cells, hashMap, l, i, l[i].value);
      assert cells[it := l[i]] == cells;
      var at :| 0 <= at < |nodeList| && nodeList[at] == it;
      SamePlace(nodeList, cells, hashMap, l, at, i);
      nodeList := [it] + (nodeList[..at] + nodeList[at + 1..]);
    }

    /** Overwrite a node through its iterator and splice it to the front. */
    method Refresh(it: Handle, n: Node<K, V>, ghost i: nat, ghost l: seq<Node<K, V>>)
      requires Linked(l) && i < |nodeList| && nodeList[i] == it && n.key == l[i].key
      modifies this`nodeList, this`cells
      ensures Linked([n] + Splice(l, i))
    {
      MoveRepresents(nodeList, cells, hashMap, l, i, n.value);
      var at :| 0 <= at < |nodeList| && nodeList[at] == it;
      SamePlace(nodeList, cells, hashMap, l, at, i);
      cells := cells[it := n];
      nodeList := [it] + (nodeList[..at] + nodeList[at + 1..]);
    }

    /** Erase the node at a list position together with its index entry. */
    method Erase(at: nat, ghost l: seq<Node<K, V>>) returns (gone: Node<K, V>)
      requires Linked(l) && at < |nodeList|
      modifies this`nodeList, this`cells, this`hashMap
      ensures Linked(Splice(l, at)) && gone == l[at]
    {
      var h := nodeList[at];
      gone := cells[h];
      EraseRepresents(nodeList, cells, hashMap, l, at);
      hashMap := hashMap - {gone.key};
      cells := cells - {h};
      nodeList := nodeList[..at] + nodeList[at + 1..];
    }

    /** Link a new node at the front. */
    method Emplace(n: Node<K, V>, ghost l: seq<Node<K, V>>)
      requires Linked(l) && n.key !in hashMap
      modifies this`nodeList, this`cells, this`hashMap, this`nextHandle
      ensures Linked([n] + l)
    {
      FrontRepresents(nodeList, cells, hashMap, l, nextHandle, n);
      nodeList := [nextHandle] + nodeList;
      cells := cells[nextHandle := n];
      hashMap := hashMap[n.key := nextHandle];
      nextHandle := nextHandle + 1;
    }

    /** Take the least recently used node off the back, if there is one. */
    method EvictLru(ghost l: seq<Node<K, V>>) returns (evicted: seq<Node<K, V>>)
      requires Linked(l)
      modifies this`nodeList, this`cells, this`hashMap
      ensures l == [] ==> Linked(l) && evicted == []
      ensures l != [] ==> Linked(l[..|l| - 1]) && evicted == [l[|l| - 1]]
    {
      if nodeList == [] {
        return [];
      }
      var last := Erase(|nodeList| - 1, l);
      assert Splice(l, |l| - 1) == l[..|l| - 1];
      evicted := [last];
    }

    // ----- The operations -----

    method Get(key: K) returns (r: Option<V>)
      requires Valid()
      modifies this
      ensures Valid() && capacity == old(capacity)
      ensures view == LruSpec.Get(old(view), key) && r == Find(old(view), key)
    {
      if key !in hashMap {
        NotHeld(nodeList, cells, hashMap, view, key);
        return None;
      }
      ghost var i := Locate(nodeList, cells, hashMap, view, key);
      r := Some(cells[hashMap[key]].value);
      MoveToFront(hashMap[key], i, view);
      view := [view[i]] + Splice(view, i);
    }

    /** Returns whether a new item was added, and the nodes to hand to the eviction callback. */
    method Put(key: K, value: V) returns (added: bool, evicted: seq<Node<K, V>>)
      requires Valid()
      modifies this
      ensures Valid() && capacity == old(capacity)
      ensures view == LruSpec.Put(old(view), key, value, capacity)
      ensures added == Find(old(view), key).None? && evicted == PutEvicts(old(view), key, capacity)
    {
      if key in hashMap {
        ghost var i := Locate(nodeList, cells, hashMap, view, key);
        Refresh(hashMap[key], Node(key, value), i, view);
        view := [Node(key, value)] + Splice(view, i);
        return false, [];
      }
      evicted := InsertNew(key, value);
      added := true;
    }

    method InsertNew(key: K, value: V) returns (evicted: seq<Node<K, V>>)
      requires Valid() && key !in hashMap
      modifies this
      ensures Valid() && capacity == old(capacity) && Find(old(view), key).None?
      ensures view == LruSpec.Put(old(view), key, value, capacity) && evicted == PutEvicts(old(view), key, capacity)
    {
      NotHeld(nodeList, cells, hashMap, view, key);
      evicted := [];
      if |nodeList| >= capacity {
        evicted := EvictLru(view);
        view := view[..|view| - 1];
      }
      Emplace(Node(key, value), view);
      view := [Node(key, value)] + view;
    }

    method Remove(key: K) returns (removed: bool, evicted: seq<Node<K, V>>)
      requires Valid()
      modifies this
      ensures Valid() && capacity == old(capacity)
      ensures view == Without(old(view), key)
      ensures removed == Find(old(view), key).Some?
      ensures evicted == if removed then [Node(key, Find(old(view), key).value)] else []
    {
      if key !in hashMap {
        NotHeld(nodeList, cells, hashMap, view, key);
        WithoutLength(view, key);
        return false, [];
      }
      ghost var i := Locate(nodeList, cells, hashMap, view, key);
      var at :| 0 <= at < |nodeList| && nodeList[at] == hashMap[key];
      SamePlace(nodeList, cells, hashMap, view, at, i);
      var gone := Erase(at, view);
      removed, evicted := true, [gone];
      view := Splice(view, at);
    }

    method SetCapacity(requested: nat) returns (evicted: seq<Node<K, V>>)
      requires Valid()
      modifies this
      ensures Valid() && capacity == (if requested == 0 then 1 else requested)
      ensures |view| == (if |old(view)| > capacity then capacity else |old(view)|) && view <= old(view)
      ensures view == Shrink(old(view), capacity) && evicted == ShrinkEvicts(old(view), capacity)
    {
      capacity := if requested == 0 then 1 else requested;
      evicted := EvictExcess(view);
      view := Shrink(view, capacity);
    }

    method EvictExcess(ghost l: seq<Node<K, V>>) returns (evicted: seq<Node<K, V>>)
      requires Linked(l)
      modifies this`nodeList, this`cells, this`hashMap
      ensures Linked(Shrink(l, capacity)) && evicted == ShrinkEvicts(l, capacity)
    {
      evicted := [];
      ghost var n := |l|;
      assert l[..n] == l;
      while |nodeList| > capacity
        invariant |nodeList| == n <= |l| && (if |l| > capacity then capacity <= n else n == |l|)
        invariant Linked(l[..n]) && evicted == Reverse(l[n..])
        decreases |nodeList|
      {
        LastOff(l, n);
        var dropped := EvictLru(l[..n]);
        evicted := evicted + dropped;
        n := n - 1;
      }
    }

    /** Remove every item satisfying the predicate. */
    method RemoveIf(p: (K, V) -> bool) returns (removedCount: nat, evicted: seq<Node<K, V>>)
      requires Valid()
      modifies this
      ensures Valid() && capacity == old(capacity)
      ensures view == Reject(old(view), p)
      ensures evicted == Select(old(view), p) && removedCount == |evicted|
    {
      removedCount, evicted := EraseMatching(p, view);
      RejectShorter(view, p);
      view := Reject(view, p);
    }

    /** Walk the list once, erasing or stepping past each node. */
    method EraseMatching(p: (K, V) -> bool, ghost l: seq<Node<K, V>>)
      returns (removedCount: nat, evicted: seq<Node<K, V>>)
      requires Linked(l)
      modifies this`nodeList, this`cells, this`hashMap
      ensures Linked(Reject(l, p)) && evicted == Select(l, p) && removedCount == |evicted|
    {
      ghost var kept: seq<Node<K, V>>, ahead := [], l;
      var it := 0;
      removedCount, evicted := 0, [];
      assert kept + ahead == l;
      while it < |nodeList|
        invariant Linked(kept + ahead) && it == |kept| && |nodeList| == |kept| + |ahead|
        invariant Reject(l, p) == kept + Reject(ahead, p)
        invariant Select(l, p) == evicted + Select(ahead, p) && removedCount == |evicted|
        decreases |nodeList| - it
      {
        var erased, gone := VisitNode(p, it, kept, ahead);
        WalkStep(kept, evicted, ahead, p);
        if erased {
          evicted := evicted + [gone];
          removedCount := removedCount + 1;
        } else {
          kept := kept + [gone];
          it := it + 1;
        }
        ahead := ahead[1..];
      }
      assert kept + ahead == kept;
    }

    /** One turn of that walk. */
    method VisitNode(p: (K, V) -> bool, it: nat, ghost kept: seq<Node<K, V>>, ghost ahead: seq<Node<K, V>>)
      returns (erased: bool, node: Node<K, V>)
      requires Linked(kept + ahead) && it == |kept| && it < |nodeList|
      modifies this`nodeList, this`cells, this`hashMap
      ensures ahead != [] && node == ahead[0] && erased == p(node.key, node.value)
      ensures Linked(if erased then kept + ahead[1..] else kept + ahead)
      ensures |nodeList| == |old(nodeList)| - if erased then 1 else 0
    {
      node := cells[nodeList[it]];
      assert node == (kept + ahead)[it] == ahead[0];
      erased := p(node.key, node.value);
      if erased {
        assert Splice(kept + ahead, it) == kept + ahead[1..];
        node := Erase(it, kept + ahead);
      }
    }

    method Clear() returns (evicted: seq<Node<K, V>>)
      requires Valid()
      modifies this
      ensures Valid() && capacity == old(capacity)
      ensures view == [] && evicted == old(view) && nodeList == [] && hashMap == map[]
    {
      var order, nodes := nodeList, cells;
      evicted := seq(|order|, i requires 0 <= i < |order| && order[i] in nodes => nodes[order[i]]);
      nodeList, cells, hashMap := [], map[], map[];
      view := [];
    }
  }

  lemma LastOff<T>(l: seq<T>, n: nat)
    requires 0 < n <= |l|
    ensures l[..n][..n - 1] == l[..n - 1] && l[..n][n - 1] == l[n - 1]
    ensures Reverse(l[n - 1..]) == Reverse(l[n..]) + [l[n - 1]]
  {
    assert l[n - 1..] == [l[n - 1]] + l[n..];
    assert ([l[n - 1]] + l[n..])[1..] == l[n..];
  }

  /** What has been kept and evicted so far, extended by the next node. */
  lemma WalkStep<K, V>(kept: seq<Node<K, V>>, evicted: seq<Node<K, V>>, ahead: seq<Node<K, V>>, p: (K, V) -> bool)
    requires ahead != []
    ensures var out := p(ahead[0].key, ahead[0].value);
            && kept + Reject(ahead, p) == (if out then kept else kept + [ahead[0]]) + Reject(ahead[1..], p)
            && evicted + Select(ahead, p) == (if out then evicted + [ahead[0]] else evicted) + Select(ahead[1..], p)
            && (!out ==> kept + ahead == (kept + [ahead[0]]) + ahead[1..])
  {
    AppendThenRest(kept, ahead[0], ahead[1..]);
    AppendThenRest(kept, ahead[0], Reject(ahead[1..], p));
    AppendThenRest(evicted, ahead[0], Select(ahead[1..], p));
    assert ahead == [ahead[0]] + ahead[1..];
  }

  lemma AppendThenRest<T>(s: seq<T>, x: T, rest: seq<T>)
    ensures s + ([x] + rest) == (s + [x]) + rest
  {
  }

  lemma {:induction false} RejectShorter<K, V>(l: seq<Node<K, V>>, p: (K, V) -> bool)
    ensures |Reject(l, p)| <= |l|
  {
    if l != [] { RejectShorter(l[1..], p); }
  }
}

/**
 The greedy head-to-head matching of two sorted caches fuses as many pairs as any
 one-to-one pairing within the threshold could.
 */
module FuserMatching {
  import opened FuserSpec

  type Pairing = set<(nat, nat)>

  ghost predicate OneToOne(m: Pairing) {
    forall p, q :: p in m && q in m && (p.0 == q.0 || p.1 == q.1) ==> p == q
  }

  /** `p` pairs two frames that arrived at or after positions `i` and `j`, within the threshold. */
  ghost predicate Linkable(a: Side, b: Side, i: nat, j: nat, p: (nat, nat)) {
    && i <= p.0 < |a.arrivals| && j <= p.1 < |b.arrivals|
    && Close(a.arrivals[p.0], b.arrivals[p.1])
  }

  ghost predicate Matching(a: Side, b: Side, i: nat, j: nat, m: Pairing) {
    OneToOne(m) && forall p :: p in m ==> Linkable(a, b, i, j, p)
  }

  /** `m` pairs cached frames one to one, each pair within the threshold. */
  ghost predicate IsMatching(s: State, m: Pairing) {
    Matching(s.a, s.b, |s.a.fates|, |s.b.fates|, m)
  }

  ghost predicate Sorted(s: State) {
    s.Valid() && s.a.Sorted() && s.b.Sorted()
  }

  /** The number of pairs the inner loop fuses. */
  function FusedCount(s: State): nat
    requires s.Valid()
  {
    |MatchAll(s).out| - |s.out|
  }

  /** Taking pairs away, and moving the bounds past indices no pair uses. */
  lemma Shrink(a: Side, b: Side, i: nat, j: nat, m: Pairing, kept: Pairing)
    requires Matching(a, b, i, j, m) && kept <= m
    requires forall p :: p in kept ==> p.0 != i && p.1 != j
    ensures Matching(a, b, i + 1, j + 1, kept)
  {
    forall p | p in kept ensures Linkable(a, b, i + 1, j + 1, p) {
      assert Linkable(a, b, i, j, p);
    }
  }

  /** The heads i and j are paired with y and x; then x and y are close to each other. */
  lemma CrossLink(a: Side, b: Side, i: nat, j: nat, x: nat, y: nat)
    requires a.Sorted() && b.Sorted() && x > i && y > j
    requires Linkable(a, b, i, j, (i, y)) && Linkable(a, b, i, j, (x, j))
    ensures Linkable(a, b, i + 1, j + 1, (x, y))
  {
    assert a.arrivals[i].timestamp <= a.arrivals[x].timestamp;
    assert b.arrivals[j].timestamp <= b.arrivals[y].timestamp;
  }

  lemma AddPair(a: Side, b: Side, i: nat, j: nat, m: Pairing, r: (nat, nat))
    requires Matching(a, b, i, j, m) && Linkable(a, b, i, j, r)
    requires forall p :: p in m ==> p.0 != r.0 && p.1 != r.1
    ensures Matching(a, b, i, j, m + {r}) && |m + {r}| == |m| + 1
  {
    assert r !in m;
    assert OneToOne(m + {r});
  }

  lemma WithoutTwo(m: Pairing, p: (nat, nat), q: (nat, nat))
    requires p in m && q in m && p != q
    ensures |m - {p, q}| == |m| - 2
  {
    assert m - {p, q} == m - {p} - {q};
  }

  /** Pairs (i, y) and (x, j) of two close heads i, j can be rewired to (x, y). */
  lemma Rewire(a: Side, b: Side, i: nat, j: nat, m: Pairing, x: nat, y: nat) returns (m': Pairing)
    requires a.Sorted() && b.Sorted()
    requires Matching(a, b, i, j, m) && (i, y) in m && (x, j) in m && x != i
    ensures Matching(a, b, i + 1, j + 1, m') && |m'| == |m| - 1
  {
    var p, q := (i, y), (x, j);
    assert Linkable(a, b, i, j, p) && Linkable(a, b, i, j, q) && p != q;
    var kept := m - {p, q};
    WithoutTwo(m, p, q);
    Shrink(a, b, i, j, m, kept);
    CrossLink(a, b, i, j, x, y);
    AddPair(a, b, i + 1, j + 1, kept, (x, y));
    m' := kept + {(x, y)};
  }

  /** A matching loses at most one pair when two close heads leave. */
  lemma Exchange(a: Side, b: Side, i: nat, j: nat, m: Pairing) returns (m': Pairing)
    requires a.Sorted() && b.Sorted() && Matching(a, b, i, j, m)
    ensures Matching(a, b, i + 1, j + 1, m') && |m'| >= |m| - 1
  {
    if p :| p in m && p.0 == i {
      if q :| q in m && q.1 == j && q != p {
        m' := Rewire(a, b, i, j, m, q.0, p.1);
      } else {
        m' := m - {p};
        Shrink(a, b, i, j, m, m');
      }
    } else if q :| q in m && q.1 == j {
      m' := m - {q};
      Shrink(a, b, i, j, m, m');
    } else {
      m' := m;
      Shrink(a, b, i, j, m, m');
    }
  }

  /** A head at least the threshold older than the other head has no partner at all. */
  lemma DropKeepsMatching(s: State, m: Pairing)
    requires Sorted(s) && IsMatching(s, m)
    requires s.a.Size() > 0 && s.b.Size() > 0 && !Close(s.a.Head(), s.b.Head())
    ensures IsMatching(MatchStep(s), m)
  {
    var t := MatchStep(s);
    forall p | p in m ensures Linkable(t.a, t.b, |t.a.fates|, |t.b.fates|, p) {
      assert Linkable(s.a, s.b, |s.a.fates|, |s.b.fates|, p);
    }
  }

  lemma NoneLeft(s: State, m: Pairing)
    requires s.Valid() && IsMatching(s, m) && (s.a.Size() == 0 || s.b.Size() == 0)
    ensures m == {}
  {
    var i, j := |s.a.fates|, |s.b.fates|;
    assert forall p :: !Linkable(s.a, s.b, i, j, p);
  }

  /** No pairing beats the greedy loop. */
  lemma {:induction false} GreedyIsMaximum(s: State, m: Pairing)
    requires Sorted(s) && IsMatching(s, m)
    ensures |m| <= FusedCount(s)
    decreases s.a.Size() + s.b.Size()
  {
    if s.a.Size() == 0 || s.b.Size() == 0 {
      NoneLeft(s, m);
    } else if Close(s.a.Head(), s.b.Head()) {
      var m' := Exchange(s.a, s.b, |s.a.fates|, |s.b.fates|, m);
      GreedyIsMaximum(MatchStep(s), m');
    } else {
      DropKeepsMatching(s, m);
      GreedyIsMaximum(MatchStep(s), m);
    }
  }

  /** The pairs the inner loop fuses, as arrival indices. */
  ghost function FusedPairs(s: State): Pairing
    requires s.Valid()
  {
    set o | o in MatchAll(s).out[|s.out|..] && o.Fused? :: (o.a, o.b)
  }

  lemma FusedPairsUnfold(s: State)
    requires s.Valid() && s.a.Size() > 0 && s.b.Size() > 0
    ensures FusedPairs(s) == FusedPairs(MatchStep(s)) +
                             (if Close(s.a.Head(), s.b.Head()) then {(|s.a.fates|, |s.b.fates|)} else {})
  {
    var t, out := MatchStep(s), MatchAll(s).out;
    if Close(s.a.Head(), s.b.Head()) {
      var o := Fused(|s.a.fates|, |s.b.fates|);
      assert out[|s.out|] == out[..|t.out|][|s.out|] == o;
      assert out[|s.out|..] == [o] + out[|t.out|..];
    }
  }

  lemma Widen(a: Side, b: Side, i: nat, j: nat, i': nat, j': nat, m: Pairing)
    requires Matching(a, b, i', j', m) && i <= i' && j <= j'
    ensures Matching(a, b, i, j, m)
  {
    forall p | p in m ensures Linkable(a, b, i, j, p) {
      assert Linkable(a, b, i', j', p);
    }
  }

  lemma AddHeads(a: Side, b: Side, i: nat, j: nat, m: Pairing)
    requires Matching(a, b, i + 1, j + 1, m) && Linkable(a, b, i, j, (i, j))
    ensures Matching(a, b, i, j, m + {(i, j)}) && |m + {(i, j)}| == |m| + 1
  {
    assert forall p :: p in m ==> Linkable(a, b, i + 1, j + 1, p);
    Widen(a, b, i, j, i + 1, j + 1, m);
  }

  /** The greedy loop's own pairs are such a pairing, and there are that many of them. */
  lemma {:induction false} GreedyIsMatching(s: State)
    requires s.Valid()
    ensures IsMatching(s, FusedPairs(s)) && |FusedPairs(s)| == FusedCount(s)
    decreases s.a.Size() + s.b.Size()
  {
    if s.a.Size() > 0 && s.b.Size() > 0 {
      var i, j, t := |s.a.fates|, |s.b.fates|, MatchStep(s);
      GreedyIsMatching(t);
      FusedPairsUnfold(s);
      if Close(s.a.Head(), s.b.Head()) {
        assert Matching(s.a, s.b, i + 1, j + 1, FusedPairs(t)) by {
          WidenState(s, t, FusedPairs(t));
        }
        AddHeads(s.a, s.b, i, j, FusedPairs(t));
      } else {
        WidenState(s, t, FusedPairs(t));
        Widen(s.a, s.b, i, j, |t.a.fates|, |t.b.fates|, FusedPairs(t));
      }
    } else {
      assert MatchAll(s).out[|s.out|..] == [];
      assert FusedPairs(s) == {};
    }
  }

  /** A matching speaks of arrivals only, so it carries over between states that share them. */
  lemma WidenState(s: State, t: State, m: Pairing)
    requires IsMatching(t, m)
    requires s.a.arrivals == t.a.arrivals && s.b.arrivals == t.b.arrivals
    ensures Matching(s.a, s.b, |t.a.fates|, |t.b.fates|, m)
  {
    forall p | p in m ensures Linkable(s.a, s.b, |t.a.fates|, |t.b.fates|, p) {
      assert Linkable(t.a, t.b, |t.a.fates|, |t.b.fates|, p);
    }
  }

  /** The two halves together: the fused count is the maximum cardinality of a pairing. */
  lemma FusedCountIsMaximumMatching(s: State)
    requires Sorted(s)
    ensures exists m :: IsMatching(s, m) && |m| == FusedCount(s)
    ensures forall m :: IsMatching(s, m) ==> |m| <= FusedCount(s)
  {
    GreedyIsMatching(s);
    forall m | IsMatching(s, m) ensures |m| <= FusedCount(s) {
      GreedyIsMaximum(s, m);
    }
  }
}

/**
 Safety of the fuser over whole runs: every arrival has one fate, dropped frames had no
 partner left, emitted timestamps never go back, caches stay bounded, and exactly which
 passes emit anything.
 */
module FuserRuns {
  import opened Basics
  import opened FuserSpec
  import opened FuserMatching

  // ----- The invariant -----

  /** Fates and outputs tell the same story, each output once. */
  ghost predicate Logged(s: State) {
    && s.Valid()
    && (forall i: nat, j: nat :: Fused(i, j) in s.out <==> i < |s.a.fates| && s.a.fates[i] == Paired(j))
    && (forall i: nat, j: nat :: Fused(i, j) in s.out <==> j < |s.b.fates| && s.b.fates[j] == Paired(i))
    && (forall i: nat :: SoloA(i) in s.out <==> i < |s.a.fates| && s.a.fates[i] == Alone)
    && (forall j: nat :: SoloB(j) in s.out <==> j < |s.b.fates| && s.b.fates[j] == Alone)
    && (forall p, q :: 0 <= p < q < |s.out| ==> s.out[p] != s.out[q])
  }

  /** Arrival `i` of `x` is at least the threshold older than arrival `j` of `y`. */
  ghost predicate TooOld(x: Side, i: nat, y: Side, j: nat) {
    && i < |x.arrivals| && j < |y.arrivals|
    && x.arrivals[i].timestamp + MATCH_NS <= y.arrivals[j].timestamp
  }

  ghost predicate DropsOf(x: Side, y: Side) {
    && x.Valid()
    && forall i :: 0 <= i < |x.fates| && x.fates[i].Mismatch? ==> TooOld(x, i, y, x.fates[i].against)
  }

  ghost predicate DropsJustified(s: State) {
    DropsOf(s.a, s.b) && DropsOf(s.b, s.a)
  }

  /** Every drop was against the other lidar's head of its time: that lidar's frames before
      the head were settled already, and the dropped ones among them against no later head. */
  ghost predicate DropsInTurn(x: Side, y: Side) {
    && (forall i :: 0 <= i < |x.fates| && x.fates[i].Mismatch? ==> x.fates[i].against <= |y.fates|)
    && (forall i, j ::
          0 <= i < |x.fates| && x.fates[i].Mismatch? && 0 <= j < |y.fates| && y.fates[j].Mismatch? ==>
            j < x.fates[i].against ==> y.fates[j].against <= i)
  }

  ghost predicate InTurn(s: State) {
    DropsInTurn(s.a, s.b) && DropsInTurn(s.b, s.a)
  }

  ghost predicate AllEmitted(s: State) {
    forall p :: 0 <= p < |s.out| ==> Emitted(s, s.out[p])
  }

  /** Outputs come from settled frames, and if each lidar's arrivals are sorted then the
      timestamps in emission order never decrease. */
  ghost predicate Ordered(s: State) {
    && AllEmitted(s)
    && (Sorted(s) ==> forall p, q :: 0 <= p <= q < |s.out| ==> Stamp(s, s.out[p]) <= Stamp(s, s.out[q]))
  }

  ghost predicate Sound(s: State) {
    Logged(s) && DropsJustified(s) && InTurn(s) && Ordered(s)
  }

  ghost predicate Bounded(s: State) {
    && s.Valid()
    && s.a.Size() <= MAX_CACHE_FRAME && s.b.Size() <= MAX_CACHE_FRAME
    && (s.a.Size() <= FRAME_CACHE || s.b.Size() <= FRAME_CACHE)
  }

  // ----- Steps that emit nothing -----

  ghost predicate Extends(x: Side, y: Side) {
    x.arrivals <= y.arrivals && x.fates <= y.fates && y.Valid()
  }

  /** Later histories change nothing about what was emitted or dropped before. */
  lemma EmittedStays(s: State, t: State, o: Output)
    requires Emitted(s, o) && Extends(s.a, t.a) && Extends(s.b, t.b)
    ensures Emitted(t, o) && Stamp(t, o) == Stamp(s, o)
  {
  }

  lemma SortedBefore(s: State, t: State)
    requires s.Valid() && Extends(s.a, t.a) && Extends(s.b, t.b) && Sorted(t)
    ensures Sorted(s)
  {
    assert forall i :: 0 <= i < |s.a.arrivals| ==> s.a.arrivals[i] == t.a.arrivals[i];
    assert forall j :: 0 <= j < |s.b.arrivals| ==> s.b.arrivals[j] == t.b.arrivals[j];
  }

  lemma OrderStays(s: State, t: State)
    requires s.Valid() && Ordered(s) && Extends(s.a, t.a) && Extends(s.b, t.b) && t.out == s.out
    ensures Ordered(t)
  {
    if Sorted(t) { SortedBefore(s, t); }
    forall p | 0 <= p < |s.out| ensures Emitted(t, s.out[p]) && Stamp(t, s.out[p]) == Stamp(s, s.out[p]) {
      EmittedStays(s, t, s.out[p]);
    }
  }

  lemma InTurnA(s: State, f: Fate)
    requires InTurn(s) && (f.Mismatch? ==> f.against == |s.b.fates|)
    ensures InTurn(s.(a := s.a.Settle(f)))
  {
  }

  lemma InTurnB(s: State, f: Fate)
    requires InTurn(s) && (f.Mismatch? ==> f.against == |s.a.fates|)
    ensures InTurn(s.(b := s.b.Settle(f)))
  {
  }

  lemma ArriveKeeps(s: State, fa: seq<Frame>, fb: seq<Frame>)
    requires Sound(s)
    ensures Sound(State(Side(s.a.arrivals + fa, s.a.fates), Side(s.b.arrivals + fb, s.b.fates), s.out))
  {
    OrderStays(s, State(Side(s.a.arrivals + fa, s.a.fates), Side(s.b.arrivals + fb, s.b.fates), s.out));
  }

  lemma SettleKeepsA(s: State, f: Fate)
    requires Sound(s) && s.a.Size() > 0 && (f.Overflow? || f.Mismatch?)
    requires f.Mismatch? ==> f.against == |s.b.fates| && TooOld(s.a, |s.a.fates|, s.b, f.against)
    ensures Sound(s.(a := s.a.Settle(f)))
  {
    var t := s.(a := s.a.Settle(f));
    OrderStays(s, t);
    InTurnA(s, f);
    forall i | 0 <= i < |t.a.fates| && t.a.fates[i].Mismatch?
      ensures TooOld(t.a, i, t.b, t.a.fates[i].against)
    {
      assert i < |s.a.fates| ==> TooOld(s.a, i, s.b, s.a.fates[i].against);
    }
    forall j | 0 <= j < |t.b.fates| && t.b.fates[j].Mismatch?
      ensures TooOld(t.b, j, t.a, t.b.fates[j].against)
    {
      assert TooOld(s.b, j, s.a, s.b.fates[j].against);
    }
  }

  lemma SettleKeepsB(s: State, f: Fate)
    requires Sound(s) && s.b.Size() > 0 && (f.Overflow? || f.Mismatch?)
    requires f.Mismatch? ==> f.against == |s.a.fates| && TooOld(s.b, |s.b.fates|, s.a, f.against)
    ensures Sound(s.(b := s.b.Settle(f)))
  {
    var t := s.(b := s.b.Settle(f));
    OrderStays(s, t);
    InTurnB(s, f);
    forall j | 0 <= j < |t.b.fates| && t.b.fates[j].Mismatch?
      ensures TooOld(t.b, j, t.a, t.b.fates[j].against)
    {
      assert j < |s.b.fates| ==> TooOld(s.b, j, s.a, s.b.fates[j].against);
    }
    forall i | 0 <= i < |t.a.fates| && t.a.fates[i].Mismatch?
      ensures TooOld(t.a, i, t.b, t.a.fates[i].against)
    {
      assert TooOld(s.a, i, s.b, s.a.fates[i].against);
    }
  }

  lemma {:induction false} TrimKeepsA(s: State)
    requires Sound(s)
    ensures Sound(s.(a := Trim(s.a)))
    decreases s.a.Size()
  {
    if s.a.Size() > MAX_CACHE_FRAME {
      SettleKeepsA(s, Overflow);
      TrimKeepsA(s.(a := s.a.Settle(Overflow)));
    } else {
      assert s.(a := Trim(s.a)) == s;
    }
  }

  lemma {:induction false} TrimKeepsB(s: State)
    requires Sound(s)
    ensures Sound(s.(b := Trim(s.b)))
    decreases s.b.Size()
  {
    if s.b.Size() > MAX_CACHE_FRAME {
      SettleKeepsB(s, Overflow);
      TrimKeepsB(s.(b := s.b.Settle(Overflow)));
    } else {
      assert s.(b := Trim(s.b)) == s;
    }
  }

  lemma TakeInKeeps(s: State, fa: Option<Frame>, fb: Option<Frame>)
    requires Sound(s)
    ensures Sound(TakeIn(s, fa, fb))
  {
    var ga := if fa.Some? then [fa.value] else [];
    var gb := if fb.Some? then [fb.value] else [];
    var t := State(Side(s.a.arrivals + ga, s.a.fates), Side(s.b.arrivals + gb, s.b.fates), s.out);
    ArriveKeeps(s, ga, gb);
    var u := if fa.Some? then t.(a := Trim(t.a)) else t;
    if fa.Some? { TrimKeepsA(t); }
    if fb.Some? { TrimKeepsB(u); }
    assert TakeIn(s, fa, fb) == if fb.Some? then u.(b := Trim(u.b)) else u;
  }

  // ----- Steps that emit -----

  /** Everything emitted so far comes from settled frames, so it is no later than a bound
      on the settled frames of both lidars. */
  lemma EmittedBelow(s: State, o: Output, bound: nat)
    requires Emitted(s, o)
    requires forall i :: 0 <= i < |s.a.fates| ==> s.a.arrivals[i].timestamp <= bound
    requires forall j :: 0 <= j < |s.b.fates| ==> s.b.arrivals[j].timestamp <= bound
    ensures Stamp(s, o) <= bound
  {
  }

  lemma EmitKeepsOrder(s: State, t: State, o: Output)
    requires s.Valid() && Ordered(s) && Extends(s.a, t.a) && Extends(s.b, t.b)
    requires t.out == s.out + [o] && Emitted(t, o)
    requires Sorted(t) ==> forall i :: 0 <= i < |s.a.fates| ==> s.a.arrivals[i].timestamp <= Stamp(t, o)
    requires Sorted(t) ==> forall j :: 0 <= j < |s.b.fates| ==> s.b.arrivals[j].timestamp <= Stamp(t, o)
    ensures Ordered(t)
  {
    forall p | 0 <= p < |s.out|
      ensures Emitted(t, s.out[p]) && Stamp(t, s.out[p]) == Stamp(s, s.out[p])
      ensures Sorted(t) ==> Stamp(s, s.out[p]) <= Stamp(t, o)
    {
      EmittedStays(s, t, s.out[p]);
      if Sorted(t) { EmittedBelow(s, s.out[p], Stamp(t, o)); }
    }
    if Sorted(t) { SortedBefore(s, t); }
    assert forall p :: 0 <= p < |t.out| ==> t.out[p] == if p < |s.out| then s.out[p] else o;
  }

  lemma DropsStay(x: Side, y: Side, f: Fate, fs: seq<Fate>)
    requires DropsOf(x, y) && x.Size() > 0 && !f.Mismatch?
    ensures DropsOf(x.Settle(f), y.(fates := fs))
  {
    var x', y' := x.Settle(f), y.(fates := fs);
    forall i | 0 <= i < |x'.fates| && x'.fates[i].Mismatch?
      ensures TooOld(x', i, y', x'.fates[i].against)
    {
      assert TooOld(x, i, y, x.fates[i].against);
    }
  }

  lemma FuseKeepsLog(s: State)
    requires Logged(s) && s.a.Size() > 0 && s.b.Size() > 0 && Close(s.a.Head(), s.b.Head())
    ensures Logged(MatchStep(s))
  {
    var t := MatchStep(s);
    var o := Fused(|s.a.fates|, |s.b.fates|);
    assert o !in s.out;
    assert forall x :: x in t.out <==> x in s.out || x == o;
  }

  lemma MatchStepKeeps(s: State)
    requires Sound(s) && s.a.Size() > 0 && s.b.Size() > 0
    ensures Sound(MatchStep(s))
  {
    var t := MatchStep(s);
    var i, j := |s.a.fates|, |s.b.fates|;
    if Close(s.a.Head(), s.b.Head()) {
      FuseKeepsLog(s);
      DropsStay(s.a, s.b, Paired(j), t.b.fates);
      DropsStay(s.b, s.a, Paired(i), t.a.fates);
      InTurnA(s, Paired(j));
      InTurnB(s.(a := t.a), Paired(i));
      EmitKeepsOrder(s, t, Fused(i, j));
    } else if s.a.Head().timestamp < s.b.Head().timestamp {
      SettleKeepsA(s, Mismatch(j));
    } else {
      SettleKeepsB(s, Mismatch(i));
    }
  }

  /** When the inner loop ends without a match and one lidar's cache is empty, that
      lidar's newest frame was dropped as too old for the other's head. */
  ghost predicate Stranded(x: Side, y: Side) {
    && x.Valid() && y.Valid() && y.Size() > 0
    && |x.fates| > 0 && TooOld(x, |x.fates| - 1, y, |y.fates|)
  }

  lemma {:induction false} MatchAllKeeps(s: State)
    requires Sound(s)
    ensures Sound(MatchAll(s))
    decreases s.a.Size() + s.b.Size()
  {
    if s.a.Size() > 0 && s.b.Size() > 0 {
      MatchStepKeeps(s);
      MatchAllKeeps(MatchStep(s));
    }
  }

  /** The inner loop empties one cache; both only if it fused; and a frame left over
      without a match outlived everything the other lidar had. */
  lemma {:induction false} MatchAllEnds(s: State)
    requires s.Valid() && s.a.Size() > 0 && s.b.Size() > 0
    ensures var r := MatchAll(s);
            && (r.a.Size() == 0 || r.b.Size() == 0)
            && (r.out == s.out ==> Stranded(r.a, r.b) || Stranded(r.b, r.a))
    decreases s.a.Size() + s.b.Size()
  {
    var t := MatchStep(s);
    if t.a.Size() > 0 && t.b.Size() > 0 {
      MatchAllEnds(t);
    }
  }

  lemma SoloKeepsA(s: State)
    requires Sound(s) && Stranded(s.b, s.a)
    ensures Sound(State(s.a.Settle(Alone), s.b, s.out + [SoloA(|s.a.fates|)]))
  {
    var t := State(s.a.Settle(Alone), s.b, s.out + [SoloA(|s.a.fates|)]);
    var o := SoloA(|s.a.fates|);
    assert o !in s.out;
    assert forall x :: x in t.out <==> x in s.out || x == o;
    DropsStay(s.a, s.b, Alone, s.b.fates);
    InTurnA(s, Alone);
    assert DropsOf(t.b, t.a) by {
      forall j | 0 <= j < |t.b.fates| && t.b.fates[j].Mismatch?
        ensures TooOld(t.b, j, t.a, t.b.fates[j].against)
      {
        assert TooOld(s.b, j, s.a, s.b.fates[j].against);
      }
    }
    EmitKeepsOrder(s, t, o);
  }

  lemma SoloKeepsB(s: State)
    requires Sound(s) && Stranded(s.a, s.b)
    ensures Sound(State(s.a, s.b.Settle(Alone), s.out + [SoloB(|s.b.fates|)]))
  {
    var t := State(s.a, s.b.Settle(Alone), s.out + [SoloB(|s.b.fates|)]);
    var o := SoloB(|s.b.fates|);
    assert o !in s.out;
    assert forall x :: x in t.out <==> x in s.out || x == o;
    DropsStay(s.b, s.a, Alone, s.a.fates);
    InTurnB(s, Alone);
    assert DropsOf(t.a, t.b) by {
      forall i | 0 <= i < |t.a.fates| && t.a.fates[i].Mismatch?
        ensures TooOld(t.a, i, t.b, t.a.fates[i].against)
      {
        assert TooOld(s.a, i, s.b, s.a.fates[i].against);
      }
    }
    EmitKeepsOrder(s, t, o);
  }

  // ----- One pass -----

  lemma {:induction false} PassKeepsSound(s: State, fa: Option<Frame>, fb: Option<Frame>)
    requires Sound(s)
    ensures Sound(Pass(s, fa, fb))
  {
    var t := TakeIn(s, fa, fb);
    TakeInKeeps(s, fa, fb);
    if Ready(t) {
      var m := MatchAll(t);
      MatchAllKeeps(t);
      MatchAllEnds(t);
      if m.out == t.out {
        if Stranded(m.a, m.b) { SoloKeepsB(m); } else { SoloKeepsA(m); }
      }
    }
  }

  lemma {:induction false} TrimSize(x: Side)
    requires x.Valid()
    ensures Trim(x).Size() == if x.Size() > MAX_CACHE_FRAME then MAX_CACHE_FRAME else x.Size()
    decreases x.Size()
  {
    if x.Size() > MAX_CACHE_FRAME { TrimSize(x.Settle(Overflow)); }
  }

  lemma {:induction false} MatchAllShrinks(s: State)
    requires s.Valid()
    ensures MatchAll(s).a.Size() <= s.a.Size() && MatchAll(s).b.Size() <= s.b.Size()
    decreases s.a.Size() + s.b.Size()
  {
    if s.a.Size() > 0 && s.b.Size() > 0 { MatchAllShrinks(MatchStep(s)); }
  }

  lemma PassKeepsBounds(s: State, fa: Option<Frame>, fb: Option<Frame>)
    requires Bounded(s)
    ensures Bounded(Pass(s, fa, fb))
  {
    var t := TakeIn(s, fa, fb);
    if fa.Some? { TrimSize(s.a.(arrivals := s.a.arrivals + [fa.value])); }
    if fb.Some? { TrimSize(s.b.(arrivals := s.b.arrivals + [fb.value])); }
    if Ready(t) {
      MatchAllShrinks(t);
      MatchAllEnds(t);
    }
  }

  /** A pass emits something exactly when, after intake, both lidars have more than
      FRAME_CACHE frames waiting. */
  lemma PassEmitsIff(s: State, fa: Option<Frame>, fb: Option<Frame>)
    requires s.Valid()
    ensures s.out < Pass(s, fa, fb).out <==> Ready(TakeIn(s, fa, fb))
    ensures !Ready(TakeIn(s, fa, fb)) ==> Pass(s, fa, fb).out == s.out
  {
    var t := TakeIn(s, fa, fb);
    if Ready(t) {
      MatchAllEnds(t);
    }
  }

  /** A frame is lost to overflow only while the other lidar has at most FRAME_CACHE
      frames waiting. */
  lemma OverflowMeansOtherStarved(s: State, fa: Option<Frame>, fb: Option<Frame>)
    requires Bounded(s)
    ensures Intake(s.a, fa).fates != s.a.fates ==> s.b.Size() <= FRAME_CACHE
    ensures Intake(s.b, fb).fates != s.b.fates ==> s.a.Size() <= FRAME_CACHE
  {
  }

  /** A frame is lost to overflow exactly when one arrives at a cache of 30, and it is the
      oldest one only. */
  lemma OverflowIff(x: Side, f: Option<Frame>)
    requires x.Valid() && x.Size() <= MAX_CACHE_FRAME
    ensures Intake(x, f).fates == if f.Some? && x.Size() == 30 then x.fates + [Overflow] else x.fates
  {
    if f.Some? {
      var grown := x.(arrivals := x.arrivals + [f.value]);
      if grown.Size() > MAX_CACHE_FRAME { assert Trim(grown) == Trim(grown.Settle(Overflow)); }
    }
  }

  // ----- Whole runs -----

  ghost predicate Grows(s: State, t: State) {
    Extends(s.a, t.a) && Extends(s.b, t.b) && s.out <= t.out
  }

  lemma {:induction false} TrimGrows(x: Side)
    requires x.Valid()
    ensures Extends(x, Trim(x))
    decreases x.Size()
  {
    if x.Size() > MAX_CACHE_FRAME { TrimGrows(x.Settle(Overflow)); }
  }

  lemma {:induction false} MatchAllGrows(s: State)
    requires s.Valid()
    ensures Grows(s, MatchAll(s))
    decreases s.a.Size() + s.b.Size()
  {
    if s.a.Size() > 0 && s.b.Size() > 0 { MatchAllGrows(MatchStep(s)); }
  }

  lemma PassGrows(s: State, fa: Option<Frame>, fb: Option<Frame>)
    requires s.Valid()
    ensures Grows(s, Pass(s, fa, fb))
  {
    var t := TakeIn(s, fa, fb);
    if fa.Some? { TrimGrows(s.a.(arrivals := s.a.arrivals + [fa.value])); }
    if fb.Some? { TrimGrows(s.b.(arrivals := s.b.arrivals + [fb.value])); }
    assert Grows(s, t);
    if Ready(t) {
      MatchAllGrows(t);
    }
  }

  /** A fate or an output, once given, is never taken back by the rest of a run. */
  lemma {:induction false} HistoryIsPermanent(inputs: Inputs, n: nat)
    requires n <= |inputs|
    ensures Grows(Run(inputs[..n]), Run(inputs))
  {
    if n == |inputs| {
      assert inputs[..n] == inputs;
    } else {
      var k := |inputs| - 1;
      assert inputs[..k][..n] == inputs[..n];
      HistoryIsPermanent(inputs[..k], n);
      PassGrows(Run(inputs[..k]), inputs[k].0, inputs[k].1);
    }
  }

  /** Every run is sound: its fates and outputs agree and its drops are justified whatever the
      timestamps, and its outputs are in order if each lidar's arrivals are. */
  lemma {:induction false} RunIsSound(inputs: Inputs)
    ensures Sound(Run(inputs))
  {
    if inputs != [] {
      var n := |inputs| - 1;
      RunIsSound(inputs[..n]);
      PassKeepsSound(Run(inputs[..n]), inputs[n].0, inputs[n].1);
    }
  }

  lemma {:induction false} RunIsBounded(inputs: Inputs)
    ensures Bounded(Run(inputs))
  {
    if inputs != [] {
      var n := |inputs| - 1;
      RunIsBounded(inputs[..n]);
      PassKeepsBounds(Run(inputs[..n]), inputs[n].0, inputs[n].1);
    }
  }

  /** What a pass of a run emits: as many clouds as any one-to-one pairing of the cached frames
      within the threshold could give, or one single frame if there is no such pair. */
  lemma PassFusesMaximum(inputs: Inputs, m: Pairing)
    requires inputs != [] && Sorted(Run(inputs))
    ensures var n := |inputs| - 1;
            var before := Run(inputs[..n]);
            var t := TakeIn(before, inputs[n].0, inputs[n].1);
            Ready(t) ==>
              && |Run(inputs).out| - |before.out| == (if FusedCount(t) == 0 then 1 else FusedCount(t))
              && (IsMatching(t, m) ==> |m| <= FusedCount(t))
  {
    var n := |inputs| - 1;
    var t := TakeIn(Run(inputs[..n]), inputs[n].0, inputs[n].1);
    if Ready(t) {
      MatchAllEnds(t);
      if IsMatching(t, m) { GreedyIsMaximum(t, m); }
    }
  }

  /** Every pair fused so far is less than 500 nanoseconds apart. */
  ghost predicate PairsClose(s: State) {
    forall p :: 0 <= p < |s.out| && s.out[p].Fused? ==> PairClose(s.a, s.b, s.out[p].a, s.out[p].b)
  }

  ghost predicate PairClose(a: Side, b: Side, i: nat, j: nat) {
    && i < |a.arrivals| && j < |b.arrivals|
    && a.arrivals[i].timestamp < b.arrivals[j].timestamp + 500
    && b.arrivals[j].timestamp < a.arrivals[i].timestamp + 500
  }

  lemma PairsStay(s: State, t: State)
    requires PairsClose(s) && Extends(s.a, t.a) && Extends(s.b, t.b) && t.out == s.out
    ensures PairsClose(t)
  {
    forall p | 0 <= p < |t.out| && t.out[p].Fused? ensures PairClose(t.a, t.b, t.out[p].a, t.out[p].b) {
      assert PairClose(s.a, s.b, s.out[p].a, s.out[p].b);
    }
  }

  lemma {:induction false} MatchAllFusesClose(s: State)
    requires s.Valid() && PairsClose(s)
    ensures PairsClose(MatchAll(s))
    decreases s.a.Size() + s.b.Size()
  {
    if s.a.Size() > 0 && s.b.Size() > 0 {
      CloseMeans(s.a.Head(), s.b.Head());
      MatchAllFusesClose(MatchStep(s));
    }
  }

  lemma PassFusesClose(s: State, fa: Option<Frame>, fb: Option<Frame>)
    requires s.Valid() && PairsClose(s)
    ensures PairsClose(Pass(s, fa, fb))
  {
    var t := TakeIn(s, fa, fb);
    if fa.Some? { TrimGrows(s.a.(arrivals := s.a.arrivals + [fa.value])); }
    if fb.Some? { TrimGrows(s.b.(arrivals := s.b.arrivals + [fb.value])); }
    PairsStay(s, t);
    if Ready(t) {
      MatchAllFusesClose(t);
      assert PairsClose(Fallback(MatchAll(t), |MatchAll(t).out| > |t.out|));
    }
  }

  /** Over every run, whatever its timestamps, only frames less than 500 nanoseconds apart are
      fused. */
  lemma {:induction false} RunFusesClose(inputs: Inputs)
    ensures PairsClose(Run(inputs))
  {
    if inputs != [] {
      var n := |inputs| - 1;
      RunFusesClose(inputs[..n]);
      PassFusesClose(Run(inputs[..n]), inputs[n].0, inputs[n].1);
    }
  }

  /** Emitted timestamps never go back over a whole run. */
  lemma OutputsNeverGoBack(inputs: Inputs, p: nat, q: nat)
    requires Sorted(Run(inputs)) && p <= q < |Run(inputs).out|
    ensures var r := Run(inputs);
            && Emitted(r, r.out[p]) && Emitted(r, r.out[q])
            && Stamp(r, r.out[p]) <= Stamp(r, r.out[q])
  {
    RunIsSound(inputs);
  }

  /** Frame `j` of `y` found another use: a cloud of its own, or room was made for newer ones. */
  ghost predicate OtherwiseUsed(y: Side, j: nat) {
    j < |y.fates| && !y.fates[j].Mismatch?
  }

  lemma DroppedHadNone(x: Side, y: Side, i: nat, j: nat)
    requires x.Valid() && y.Valid() && x.Sorted() && y.Sorted()
    requires DropsOf(x, y) && DropsOf(y, x) && DropsInTurn(x, y)
    requires i < |x.fates| && x.fates[i].Mismatch? && j < |y.arrivals|
    ensures Close(x.arrivals[i], y.arrivals[j]) ==> j < x.fates[i].against && OtherwiseUsed(y, j)
  {
    var k := x.fates[i].against;
    assert TooOld(x, i, y, k);
    if j < k && y.fates[j].Mismatch? {
      assert TooOld(y, j, x, y.fates[j].against);
    }
  }

  /** A mismatch drop loses nothing: a frame of the other lidar within the threshold, cached,
      settled or still to come, comes before the head it was compared with, and was itself
      fused, passed alone or lost to overflow. */
  lemma DroppedFrameHadNoPartner(inputs: Inputs, i: nat, j: nat)
    requires Sorted(Run(inputs))
    ensures var r := Run(inputs);
            && (i < |r.a.fates| && r.a.fates[i].Mismatch? && j < |r.b.arrivals|
                && Close(r.a.arrivals[i], r.b.arrivals[j]) ==>
                  j < r.a.fates[i].against && OtherwiseUsed(r.b, j))
            && (j < |r.b.fates| && r.b.fates[j].Mismatch? && i < |r.a.arrivals|
                && Close(r.a.arrivals[i], r.b.arrivals[j]) ==>
                  i < r.b.fates[j].against && OtherwiseUsed(r.a, i))
  {
    RunIsSound(inputs);
    var r := Run(inputs);
    if i < |r.a.fates| && r.a.fates[i].Mismatch? && j < |r.b.arrivals| {
      DroppedHadNone(r.a, r.b, i, j);
    }
    if j < |r.b.fates| && r.b.fates[j].Mismatch? && i < |r.a.arrivals| {
      DroppedHadNone(r.b, r.a, j, i);
    }
  }

  /** While nothing has been emitted, a cache is what arrived, cut to its limit. */
  ghost predicate Untouched(x: Side) {
    x.Valid() && x.Size() == if |x.arrivals| > MAX_CACHE_FRAME then MAX_CACHE_FRAME else |x.arrivals|
  }

  lemma IntakeUntouched(x: Side, f: Option<Frame>)
    requires Untouched(x)
    ensures Untouched(Intake(x, f))
  {
    if f.Some? { TrimSize(x.(arrivals := x.arrivals + [f.value])); }
  }

  lemma {:induction false} SilentRunOnlyTrims(inputs: Inputs)
    requires Run(inputs).out == []
    ensures Untouched(Run(inputs).a) && Untouched(Run(inputs).b)
  {
    if inputs != [] {
      var n := |inputs| - 1;
      var s, fa, fb := Run(inputs[..n]), inputs[n].0, inputs[n].1;
      PassGrows(s, fa, fb);
      assert s.out == [];
      SilentRunOnlyTrims(inputs[..n]);
      PassEmitsIff(s, fa, fb);
      IntakeUntouched(s.a, fa);
      IntakeUntouched(s.b, fb);
    }
  }

  /** A run emits something exactly when both lidars have delivered more than FRAME_CACHE
      frames: the single-lidar fallback never replaces a silent lidar, however much the other
      delivers. */
  lemma {:induction false} SilentLidarBlocksOutput(inputs: Inputs)
    ensures Run(inputs).out == [] <==>
            |Run(inputs).a.arrivals| <= 2 || |Run(inputs).b.arrivals| <= 2
  {
    if Run(inputs).out == [] {
      SilentRunOnlyTrims(inputs);
      RunIsBounded(inputs);
    }
    if |Run(inputs).a.arrivals| <= FRAME_CACHE || |Run(inputs).b.arrivals| <= FRAME_CACHE {
      FewArrivalsNoOutput(inputs);
    }
  }

  lemma {:induction false} FewArrivalsNoOutput(inputs: Inputs)
    requires |Run(inputs).a.arrivals| <= FRAME_CACHE || |Run(inputs).b.arrivals| <= FRAME_CACHE
    ensures Run(inputs).out == []
  {
    if inputs != [] {
      var n := |inputs| - 1;
      PassGrows(Run(inputs[..n]), inputs[n].0, inputs[n].1);
      FewArrivalsNoOutput(inputs[..n]);
      PassEmitsIff(Run(inputs[..n]), inputs[n].0, inputs[n].1);
    }
  }
}

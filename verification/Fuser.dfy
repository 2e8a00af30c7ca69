/** The fuse loop itself, on mutable caches, proved against the transition system. */
module Fuser {
  import opened Basics
  import opened FuserSpec
  import opened FuserMatching
  import opened FuserRuns

  /** An emitted cloud. */
  datatype FusedFrame = FusedFrame(
    lidarIp: string, lidarId: string, timestamp: nat, cloud: seq<Point>, validPoints: nat)

  /** A cloud moved into the other lidar's coordinates. */
  function Moved(cloud: seq<Point>, toA: Point -> Point): seq<Point> {
    seq(|cloud|, k requires 0 <= k < |cloud| => toA(cloud[k]))
  }

  /** One frame passed on as it is. */
  ghost function Single(f: Frame): FusedFrame {
    FusedFrame(f.lidarIp, f.lidarId, f.timestamp, f.cloud, |f.cloud|)
  }

  /** Two frames in one: A's points and then B's in A's coordinates, under A's identity and
      both addresses. */
  ghost function Joined(a: Frame, b: Frame, timestamp: nat, toA: Point -> Point): FusedFrame {
    FusedFrame(a.lidarIp + "," + b.lidarIp, a.lidarId, timestamp, a.cloud + Moved(b.cloud, toA),
               |a.cloud| + |b.cloud|)
  }

  ghost function Emission(s: State, o: Output, toA: Point -> Point): FusedFrame
    requires Emitted(s, o)
  {
    match o
    case Fused(i, j) => Joined(s.a.arrivals[i], s.b.arrivals[j], Stamp(s, o), toA)
    case SoloA(i) => Single(s.a.arrivals[i])
    case SoloB(j) => Single(s.b.arrivals[j])
  }

  /** The queue received exactly the logged outputs. */
  ghost predicate Queued(s: State, queue: seq<FusedFrame>, toA: Point -> Point) {
    && s.Valid() && AllEmitted(s) && |queue| == |s.out|
    && forall p :: 0 <= p < |queue| ==> queue[p] == Emission(s, s.out[p], toA)
  }

  lemma QueuedStays(s: State, t: State, queue: seq<FusedFrame>, toA: Point -> Point)
    requires Queued(s, queue, toA) && Extends(s.a, t.a) && Extends(s.b, t.b) && t.out == s.out
    ensures Queued(t, queue, toA)
  {
    forall p | 0 <= p < |queue| ensures Emitted(t, t.out[p]) && queue[p] == Emission(t, t.out[p], toA) {
      EmittedStays(s, t, s.out[p]);
    }
  }

  lemma QueuedAppend(s: State, t: State, queue: seq<FusedFrame>, o: Output, toA: Point -> Point)
    requires Queued(s, queue, toA) && Extends(s.a, t.a) && Extends(s.b, t.b)
    requires t.out == s.out + [o] && Emitted(t, o)
    ensures Queued(t, queue + [Emission(t, o, toA)], toA)
  {
    QueuedStays(s, t.(out := s.out), queue, toA);
    var longer := queue + [Emission(t, o, toA)];
    forall p | 0 <= p < |longer| ensures Emitted(t, t.out[p]) && longer[p] == Emission(t, t.out[p], toA) {
      if p < |queue| {
        EmittedStays(s, t, s.out[p]);
      }
    }
  }

  class PointCloudFuser {
    const toA: Point -> Point
    var cacheA: seq<Frame>
    var cacheB: seq<Frame>
    var queueOut: seq<FusedFrame>
    ghost var hist: State

    /** The caches are the unsettled suffixes of the two arrival sequences, and the output
        queue received exactly the logged outputs. */
    ghost predicate Valid()
      reads this
    {
      && Queued(hist, queueOut, toA)
      && cacheA == hist.a.Cache() && cacheB == hist.b.Cache()
    }

    /** `transform` takes B's coordinates to A's. */
    constructor (transform: Point -> Point)
      ensures Valid() && toA == transform && hist == INIT && cacheA == cacheB == [] && queueOut == []
    {
      toA := transform;
      cacheA, cacheB, queueOut, hist := [], [], [], INIT;
    }

    method Fuse(a: Frame, b: Frame) returns (r: FusedFrame)
      ensures r.timestamp >= a.timestamp && r.timestamp >= b.timestamp
      ensures r.timestamp == a.timestamp || r.timestamp == b.timestamp
      ensures r.lidarId == a.lidarId && r.lidarIp == a.lidarIp + "," + b.lidarIp
      ensures r.validPoints == |r.cloud| == |a.cloud| + |b.cloud|
      ensures r.cloud[..|a.cloud|] == a.cloud
      ensures forall k :: 0 <= k < |b.cloud| ==> r.cloud[|a.cloud| + k] == toA(b.cloud[k])
      ensures r == Joined(a, b, r.timestamp, toA)
    {
      var cloud := a.cloud + Moved(b.cloud, toA);
      r := FusedFrame(a.lidarIp + "," + b.lidarIp, a.lidarId,
                      if a.timestamp > b.timestamp then a.timestamp else b.timestamp, cloud, |cloud|);
    }

    method TakeFromQueueA(data: Frame)
      requires Valid()
      modifies this
      ensures Valid() && queueOut == old(queueOut)
      ensures hist == old(hist).(a := Intake(old(hist).a, Some(data)))
    {
      cacheA := cacheA + [data];
      QueuedStays(hist, hist.(a := hist.a.(arrivals := hist.a.arrivals + [data])), queueOut, toA);
      hist := hist.(a := hist.a.(arrivals := hist.a.arrivals + [data]));
      ghost var grown := hist.a;
      while |cacheA| > MAX_CACHE_FRAME
        invariant Valid() && queueOut == old(queueOut)
        invariant hist == old(hist).(a := hist.a) && Trim(hist.a) == Trim(grown)
        decreases |cacheA|
      {
        cacheA := cacheA[1..];
        QueuedStays(hist, hist.(a := hist.a.Settle(Overflow)), queueOut, toA);
        hist := hist.(a := hist.a.Settle(Overflow));
      }
    }

    method TakeFromQueueB(data: Frame)
      requires Valid()
      modifies this
      ensures Valid() && queueOut == old(queueOut)
      ensures hist == old(hist).(b := Intake(old(hist).b, Some(data)))
    {
      cacheB := cacheB + [data];
      QueuedStays(hist, hist.(b := hist.b.(arrivals := hist.b.arrivals + [data])), queueOut, toA);
      hist := hist.(b := hist.b.(arrivals := hist.b.arrivals + [data]));
      ghost var grown := hist.b;
      while |cacheB| > MAX_CACHE_FRAME
        invariant Valid() && queueOut == old(queueOut)
        invariant hist == old(hist).(b := hist.b) && Trim(hist.b) == Trim(grown)
        decreases |cacheB|
      {
        cacheB := cacheB[1..];
        QueuedStays(hist, hist.(b := hist.b.Settle(Overflow)), queueOut, toA);
        hist := hist.(b := hist.b.Settle(Overflow));
      }
    }

    /** One turn of the inner loop. */
    method MatchHeads() returns (fusedOne: bool)
      requires Valid() && |cacheA| > 0 && |cacheB| > 0
      modifies this
      ensures Valid() && hist == MatchStep(old(hist))
      ensures fusedOne <==> hist.out != old(hist).out
      ensures old(queueOut) <= queueOut
    {
      var a, b := cacheA[0], cacheB[0];
      assert a == hist.a.Head() && b == hist.b.Head();
      ghost var next := MatchStep(hist);
      var diff := if a.timestamp > b.timestamp then a.timestamp - b.timestamp else b.timestamp - a.timestamp;
      fusedOne := diff < MATCH_NS;
      if fusedOne {
        var fused := Fuse(a, b);
        QueuedAppend(hist, next, queueOut, Fused(|hist.a.fates|, |hist.b.fates|), toA);
        queueOut := queueOut + [fused];
        cacheA, cacheB := cacheA[1..], cacheB[1..];
      } else {
        QueuedStays(hist, next, queueOut, toA);
        if a.timestamp < b.timestamp {
          cacheA := cacheA[1..];
        } else {
          cacheB := cacheB[1..];
        }
      }
      hist := next;
    }

    /** The inner loop. */
    method MatchCaches() returns (matched: bool)
      requires Valid()
      modifies this
      ensures Valid() && hist == MatchAll(old(hist))
      ensures matched <==> |hist.out| > |old(hist).out|
      ensures old(queueOut) <= queueOut
    {
      matched := false;
      ghost var start := hist;
      while |cacheA| > 0 && |cacheB| > 0
        invariant Valid() && MatchAll(hist) == MatchAll(start)
        invariant start.out <= hist.out && (matched <==> |hist.out| > |start.out|)
        invariant old(queueOut) <= queueOut
        decreases |cacheA| + |cacheB|
      {
        var fusedOne := MatchHeads();
        matched := matched || fusedOne;
      }
    }

    /** The single-lidar fallback at the end of a pass. */
    method PassAlone(alreadyMatched: bool)
      requires Valid()
      modifies this
      ensures Valid() && hist == Fallback(old(hist), alreadyMatched)
      ensures old(queueOut) <= queueOut
      ensures !alreadyMatched && |old(cacheB)| == 0 && |old(cacheA)| > 0 ==>
                var a := old(cacheA)[0];
                && |queueOut| == |old(queueOut)| + 1 && cacheA == old(cacheA)[1..]
                && var e := queueOut[|old(queueOut)|];
                   && e.lidarIp == a.lidarIp && e.lidarId == a.lidarId && e.timestamp == a.timestamp
                   && e.cloud == a.cloud && e.validPoints == |a.cloud|
      ensures !alreadyMatched && |old(cacheA)| == 0 && |old(cacheB)| > 0 ==>
                var b := old(cacheB)[0];
                && |queueOut| == |old(queueOut)| + 1 && cacheB == old(cacheB)[1..]
                && var e := queueOut[|old(queueOut)|];
                   && e.lidarIp == b.lidarIp && e.lidarId == b.lidarId && e.timestamp == b.timestamp
                   && e.cloud == b.cloud && e.validPoints == |b.cloud|
      ensures alreadyMatched || |old(cacheA)| == |old(cacheB)| == 0 || (|old(cacheA)| > 0 && |old(cacheB)| > 0) ==>
                queueOut == old(queueOut) && cacheA == old(cacheA) && cacheB == old(cacheB)
    {
      var matched := alreadyMatched;
      ghost var next := Fallback(hist, matched);
      if !matched && |cacheB| == 0 && |cacheA| > 0 {
        matched := true;
        var a := cacheA[0];
        QueuedAppend(hist, next, queueOut, SoloA(|hist.a.fates|), toA);
        queueOut := queueOut + [FusedFrame(a.lidarIp, a.lidarId, a.timestamp, a.cloud, |a.cloud|)];
        cacheA := cacheA[1..];
        hist := next;
      }
      if !matched && |cacheA| == 0 && |cacheB| > 0 {
        matched := true;
        var b := cacheB[0];
        QueuedAppend(hist, next, queueOut, SoloB(|hist.b.fates|), toA);
        queueOut := queueOut + [FusedFrame(b.lidarIp, b.lidarId, b.timestamp, b.cloud, |b.cloud|)];
        cacheB := cacheB[1..];
        hist := next;
      }
    }

    /** What the two dequeues returned goes into the caches. */
    method TakeFromQueues(fromA: Option<Frame>, fromB: Option<Frame>)
      requires Valid()
      modifies this
      ensures Valid() && hist == TakeIn(old(hist), fromA, fromB) && queueOut == old(queueOut)
    {
      if fromA.Some? {
        TakeFromQueueA(fromA.value);
      }
      if fromB.Some? {
        TakeFromQueueB(fromB.value);
      }
    }

    /** One pass of the outer loop. */
    method FusePass(fromA: Option<Frame>, fromB: Option<Frame>)
      requires Valid()
      modifies this
      ensures Valid() && hist == Pass(old(hist), fromA, fromB)
      ensures old(queueOut) <= queueOut
    {
      TakeFromQueues(fromA, fromB);
      if |cacheA| > FRAME_CACHE && |cacheB| > FRAME_CACHE {
        var matched := MatchCaches();
        PassAlone(matched);
      }
    }
  }

  lemma QueueInOrder(inputs: Inputs, queue: seq<FusedFrame>, toA: Point -> Point)
    requires Queued(Run(inputs), queue, toA)
    ensures Sorted(Run(inputs)) ==>
              forall p, q :: 0 <= p <= q < |queue| ==> queue[p].timestamp <= queue[q].timestamp
  {
    var r := Run(inputs);
    RunIsSound(inputs);
    assert forall p :: 0 <= p < |queue| ==> queue[p].timestamp == Stamp(r, r.out[p]);
  }

  /** Drives the fuser through a whole run: the queue receives exactly the logged outputs, with
      sorted timestamps if each lidar's arrivals are sorted, and neither cache ever exceeds its
      limit. */
  method FuseLoop(inputs: Inputs, toA: Point -> Point) returns (emitted: seq<FusedFrame>)
    ensures |emitted| == |Run(inputs).out|
    ensures Queued(Run(inputs), emitted, toA)
    ensures forall p :: 0 <= p < |emitted| && Run(inputs).out[p].SoloA? ==>
              var a, e := Run(inputs).a.arrivals[Run(inputs).out[p].a], emitted[p];
              && e.lidarIp == a.lidarIp && e.lidarId == a.lidarId && e.timestamp == a.timestamp
              && e.cloud == a.cloud && e.validPoints == |a.cloud|
    ensures forall p :: 0 <= p < |emitted| && Run(inputs).out[p].SoloB? ==>
              var b, e := Run(inputs).b.arrivals[Run(inputs).out[p].b], emitted[p];
              && e.lidarIp == b.lidarIp && e.lidarId == b.lidarId && e.timestamp == b.timestamp
              && e.cloud == b.cloud && e.validPoints == |b.cloud|
    ensures forall p :: 0 <= p < |emitted| && Run(inputs).out[p].Fused? ==>
              var a, b := Run(inputs).a.arrivals[Run(inputs).out[p].a], Run(inputs).b.arrivals[Run(inputs).out[p].b];
              var e := emitted[p];
              && e.lidarIp == a.lidarIp + "," + b.lidarIp && e.lidarId == a.lidarId
              && e.timestamp == (if a.timestamp > b.timestamp then a.timestamp else b.timestamp)
              && e.validPoints == |e.cloud| == |a.cloud| + |b.cloud| && e.cloud[..|a.cloud|] == a.cloud
              && forall k :: 0 <= k < |b.cloud| ==> e.cloud[|a.cloud| + k] == toA(b.cloud[k])
    ensures Sorted(Run(inputs)) ==>
              forall p, q :: 0 <= p <= q < |emitted| ==> emitted[p].timestamp <= emitted[q].timestamp
  {
    var fuser := new PointCloudFuser(toA);
    assert inputs[..0] == [];
    for n := 0 to |inputs|
      invariant fuser.Valid() && fuser.hist == Run(inputs[..n])
      invariant |fuser.cacheA| <= MAX_CACHE_FRAME && |fuser.cacheB| <= MAX_CACHE_FRAME
    {
      assert inputs[..n + 1][..n] == inputs[..n];
      fuser.FusePass(inputs[n].0, inputs[n].1);
      RunIsBounded(inputs[..n + 1]);
    }
    assert inputs[..|inputs|] == inputs;
    emitted := fuser.queueOut;
    QueueInOrder(inputs, emitted, toA);
  }
}

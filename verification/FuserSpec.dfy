/**
 The two-lidar frame fuser as a transition system.

 Each lidar delivers frames in arrival order.  A lidar's history is the sequence of
 everything that arrived and the sequence of fates handed out so far; the fuser's cache
 is what has arrived and has no fate yet.  One outer pass of the fuse loop takes at most
 one frame from each queue, trims the caches, matches heads greedily and, when nothing
 matched, passes a single frame on.
 */
module FuserSpec {
  import opened Basics

  const MATCH_NS: nat := 500
  const MAX_CACHE_FRAME: nat := 30
  const FRAME_CACHE: nat := 2

  datatype Point = Point(x: real, y: real, z: real)

  /** A raw lidar frame. */
  datatype Frame = Frame(lidarIp: string, lidarId: string, timestamp: nat, cloud: seq<Point>)

  /** What became of an arrival.  The numbers are arrival indices on the other lidar. */
  datatype Fate =
    | Overflow
    | Mismatch(against: nat)
    | Paired(partner: nat)
    | Alone

  datatype Side = Side(arrivals: seq<Frame>, fates: seq<Fate>) {

    ghost predicate Valid() {
      |fates| <= |arrivals|
    }

    /** Frames that arrived and have no fate yet. */
    function Cache(): seq<Frame>
      requires Valid()
    {
      arrivals[|fates|..]
    }

    function Size(): nat
      requires Valid()
    {
      |arrivals| - |fates|
    }

    function Head(): Frame
      requires Valid() && Size() > 0
    {
      arrivals[|fates|]
    }

    function Settle(f: Fate): Side {
      this.(fates := fates + [f])
    }

    ghost predicate Sorted() {
      forall i, j :: 0 <= i <= j < |arrivals| ==> arrivals[i].timestamp <= arrivals[j].timestamp
    }
  }

  /** An emitted cloud, by the arrival indices of the frames it was made from. */
  datatype Output = Fused(a: nat, b: nat) | SoloA(a: nat) | SoloB(b: nat)

  datatype State = State(a: Side, b: Side, out: seq<Output>) {
    ghost predicate Valid() {
      a.Valid() && b.Valid()
    }
  }

  const INIT: State := State(Side([], []), Side([], []), [])

  predicate Close(x: Frame, y: Frame) {
    var diff := if x.timestamp > y.timestamp then x.timestamp - y.timestamp else y.timestamp - x.timestamp;
    diff < MATCH_NS
  }

  /** In numbers: less than 500 nanoseconds apart, either way. */
  lemma CloseMeans(x: Frame, y: Frame)
    ensures Close(x, y) <==> x.timestamp < y.timestamp + 500 && y.timestamp < x.timestamp + 500
  {
  }

  /** Delete oldest frames while the cache is over its limit. */
  function Trim(s: Side): (r: Side)
    requires s.Valid()
    ensures r.Valid() && r.arrivals == s.arrivals
    decreases |s.arrivals| - |s.fates|
  {
    if s.Size() > MAX_CACHE_FRAME then Trim(s.Settle(Overflow)) else s
  }

  /** One successful or failed dequeue from a lidar's queue. */
  function Intake(s: Side, f: Option<Frame>): (r: Side)
    requires s.Valid()
    ensures r.Valid()
    ensures r.arrivals == s.arrivals + (if f.Some? then [f.value] else [])
  {
    if f.Some? then Trim(s.(arrivals := s.arrivals + [f.value])) else s
  }

  /** One turn of the inner loop: fuse the two heads or drop the older one. */
  function MatchStep(s: State): (r: State)
    requires s.Valid() && s.a.Size() > 0 && s.b.Size() > 0
    ensures r.Valid() && r.a.arrivals == s.a.arrivals && r.b.arrivals == s.b.arrivals
    ensures r.a.Size() + r.b.Size() < s.a.Size() + s.b.Size()
  {
    var i, j := |s.a.fates|, |s.b.fates|;
    if Close(s.a.Head(), s.b.Head()) then
      State(s.a.Settle(Paired(j)), s.b.Settle(Paired(i)), s.out + [Fused(i, j)])
    else if s.a.Head().timestamp < s.b.Head().timestamp then
      s.(a := s.a.Settle(Mismatch(j)))
    else
      s.(b := s.b.Settle(Mismatch(i)))
  }

  /** The inner loop: until one cache is empty. */
  function MatchAll(s: State): (r: State)
    requires s.Valid()
    ensures r.Valid() && r.a.arrivals == s.a.arrivals && r.b.arrivals == s.b.arrivals
    ensures |s.out| <= |r.out| && r.out[..|s.out|] == s.out
    decreases s.a.Size() + s.b.Size()
  {
    if s.a.Size() > 0 && s.b.Size() > 0 then MatchAll(MatchStep(s)) else s
  }

  /** Pass the oldest remaining frame on alone when nothing matched. */
  function Fallback(s: State, matched: bool): (r: State)
    requires s.Valid()
    ensures r.Valid() && r.a.arrivals == s.a.arrivals && r.b.arrivals == s.b.arrivals
  {
    if !matched && s.b.Size() == 0 && s.a.Size() > 0 then
      State(s.a.Settle(Alone), s.b, s.out + [SoloA(|s.a.fates|)])
    else if !matched && s.a.Size() == 0 && s.b.Size() > 0 then
      State(s.a, s.b.Settle(Alone), s.out + [SoloB(|s.b.fates|)])
    else
      s
  }

  function TakeIn(s: State, fa: Option<Frame>, fb: Option<Frame>): (r: State)
    requires s.Valid()
    ensures r.Valid() && r.out == s.out
  {
    s.(a := Intake(s.a, fa), b := Intake(s.b, fb))
  }

  /** Both caches hold enough frames for the pass to go on to matching. */
  predicate Ready(s: State)
    requires s.Valid()
  {
    s.a.Size() > FRAME_CACHE && s.b.Size() > FRAME_CACHE
  }

  /** One pass of the outer loop. */
  function Pass(s: State, fa: Option<Frame>, fb: Option<Frame>): (r: State)
    requires s.Valid()
    ensures r.Valid()
    ensures r.a.arrivals == s.a.arrivals + (if fa.Some? then [fa.value] else [])
    ensures r.b.arrivals == s.b.arrivals + (if fb.Some? then [fb.value] else [])
  {
    var t := TakeIn(s, fa, fb);
    if Ready(t) then
      var m := MatchAll(t);
      Fallback(m, |m.out| > |t.out|)
    else
      t
  }

  type Inputs = seq<(Option<Frame>, Option<Frame>)>

  /** The state after a whole run: what each pass found in the two queues, in order. */
  function Run(inputs: Inputs): (r: State)
    ensures r.Valid()
  {
    if inputs == [] then INIT
    else
      var n := |inputs| - 1;
      Pass(Run(inputs[..n]), inputs[n].0, inputs[n].1)
  }

  /** The timestamp an emitted cloud carries: the later of its sources. */
  function Stamp(s: State, o: Output): nat
    requires Emitted(s, o)
  {
    match o
    case Fused(i, j) =>
      var (x, y) := (s.a.arrivals[i].timestamp, s.b.arrivals[j].timestamp);
      if x > y then x else y
    case SoloA(i) => s.a.arrivals[i].timestamp
    case SoloB(j) => s.b.arrivals[j].timestamp
  }

  /** The frames of an output already have their fate. */
  ghost predicate Emitted(s: State, o: Output) {
    && s.Valid()
    && match o
       case Fused(i, j) => i < |s.a.fates| && j < |s.b.fates|
       case SoloA(i) => i < |s.a.fates|
       case SoloB(j) => j < |s.b.fates|
  }
}

/**
 How decoded records become frames.  Records arrive one after another; a marker record
 closes the frame being built, which is handed over, optionally stacked on the previous
 one.  The frames are shown to be the marker-delimited segments of the record stream.
 */
module FrameAssembly {

  /** Records are dropped while the frame already holds more points than this. */
  const SIZE_CAP: nat := 3000000
  const MIN_NONZERO: nat := 20
  const COUNTER_LIMIT: nat := 31

  datatype Point = Point(channel: int, hAngle: int, vAngle: int, distance: nat, intensity: nat, stamp: int)

  /** One record of a data packet: a frame marker, a record without a return, or one with
      the points of its echoes.  `stacked` is the stacking mode when it was read. */
  datatype Record = Marker(stacked: bool) | Blank | Return(points: seq<Point>)

  /** A frame as handed to the callback. */
  datatype Sent = Sent(points: seq<Point>, ok: bool)

  datatype Assembler = Assembler(frame: seq<Point>, previous: seq<Point>, nonzero: nat, sent: seq<Sent>)

  const EMPTY := Assembler([], [], 0, [])

  function Feed(a: Assembler, r: Record): Assembler {
    match r
    case Marker(stacked) =>
      Assembler([], if stacked then a.frame else a.previous, 0,
                a.sent + [Sent(if stacked then a.previous + a.frame else a.frame, a.nonzero >= MIN_NONZERO)])
    case Blank => a
    case Return(points) =>
      if |a.frame| > SIZE_CAP then a
      else a.(frame := a.frame + points, nonzero := if a.nonzero > 30 then a.nonzero else a.nonzero + 1)
  }

  function FeedAll(a: Assembler, rs: seq<Record>): Assembler {
    if rs == [] then a else Feed(FeedAll(a, rs[..|rs| - 1]), rs[|rs| - 1])
  }

  lemma {:induction false} FeedConcat(a: Assembler, x: seq<Record>, y: seq<Record>)
    ensures FeedAll(a, x + y) == FeedAll(FeedAll(a, x), y)
  {
    if y == [] {
      assert x + y == x;
    } else {
      var n := |y| - 1;
      assert (x + y)[..|x| + n] == x + y[..n];
      FeedConcat(a, x, y[..n]);
    }
  }

  // ----- The stream cut at its markers -----

  /** A closed segment: the records before a marker, and the mode that marker was read in. */
  datatype Segment = Segment(records: seq<Record>, stacked: bool)

  function FirstMarker(rs: seq<Record>): (k: nat)
    ensures k <= |rs|
    ensures k < |rs| ==> rs[k].Marker?
    ensures forall i :: 0 <= i < k ==> !rs[i].Marker?
  {
    if rs == [] || rs[0].Marker? then 0 else 1 + FirstMarker(rs[1..])
  }

  /** The closed segments of a stream, cutting at the first marker and going on after it. */
  function Split(rs: seq<Record>): seq<Segment>
    decreases |rs|
  {
    var k := FirstMarker(rs);
    if k == |rs| then [] else [Segment(rs[..k], rs[k].stacked)] + Split(rs[k + 1..])
  }

  /** The records after the last marker. */
  function Rest(rs: seq<Record>): seq<Record>
    decreases |rs|
  {
    var k := FirstMarker(rs);
    if k == |rs| then rs else Rest(rs[k + 1..])
  }

  /** The points of a segment, up to the size cap. */
  function Cut(rs: seq<Record>): seq<Point> {
    if rs == [] then []
    else
      var c, r := Cut(rs[..|rs| - 1]), rs[|rs| - 1];
      if |c| <= SIZE_CAP && r.Return? then c + r.points else c
  }

  /** How many records of a segment had a return. */
  function Returns(rs: seq<Record>): nat {
    if rs == [] then 0
    else Returns(rs[..|rs| - 1]) + if rs[|rs| - 1].Return? then 1 else 0
  }

  /** The segment stacked under the ones to come: the newest one closed in stacking mode. */
  function Kept(segs: seq<Segment>): seq<Point> {
    if segs == [] then []
    else
      var s := segs[|segs| - 1];
      if s.stacked then Cut(s.records) else Kept(segs[..|segs| - 1])
  }

  /** The frames a list of closed segments gives rise to. */
  function Frames(segs: seq<Segment>): (f: seq<Sent>)
    ensures |f| == |segs|
  {
    if segs == [] then []
    else
      var n := |segs| - 1;
      var s := segs[n];
      Frames(segs[..n]) +
      [Sent((if s.stacked then Kept(segs[..n]) else []) + Cut(s.records), Returns(s.records) >= MIN_NONZERO)]
  }

  // ----- Adding one record to a stream -----

  lemma CutAt(rs: seq<Record>, r: Record, k: nat)
    requires k < |rs|
    ensures (rs + [r])[..k] == rs[..k] && (rs + [r])[k] == rs[k] && (rs + [r])[k + 1..] == rs[k + 1..] + [r]
  {
  }

  lemma {:induction false} SplitPlain(rs: seq<Record>, r: Record)
    requires !r.Marker?
    ensures Split(rs + [r]) == Split(rs) && Rest(rs + [r]) == Rest(rs) + [r]
    decreases |rs|
  {
    var k, m := FirstMarker(rs), rs + [r];
    FirstMarkerAppend(rs, r);
    if k < |rs| {
      var tail := rs[k + 1..];
      SplitPlain(tail, r);
      CutAt(rs, r, k);
      assert FirstMarker(m) == k;
      assert Rest(m) == Rest(tail + [r]);
      assert Split(m) == [Segment(rs[..k], rs[k].stacked)] + Split(tail + [r]);
    } else {
      assert FirstMarker(m) == |m|;
    }
  }

  /** Split and Rest at the first marker, spelled out. */
  lemma {:induction false} SplitAt(rs: seq<Record>, k: nat)
    requires k == FirstMarker(rs) && k < |rs|
    ensures Split(rs) == [Segment(rs[..k], rs[k].stacked)] + Split(rs[k + 1..])
    ensures Rest(rs) == Rest(rs[k + 1..])
  {
    var tail := rs[k + 1..];
    assert Split(rs) == [Segment(rs[..k], rs[k].stacked)] + Split(tail);
    assert Rest(rs) == Rest(tail);
  }

  lemma {:induction false} SplitMarker(rs: seq<Record>, stacked: bool)
    ensures Split(rs + [Marker(stacked)]) == Split(rs) + [Segment(Rest(rs), stacked)]
    ensures Rest(rs + [Marker(stacked)]) == []
    decreases |rs|
  {
    var k, m := FirstMarker(rs), rs + [Marker(stacked)];
    FirstMarkerAppend(rs, Marker(stacked));
    assert k == FirstMarker(m);
    SplitAt(m, k);
    if k < |rs| {
      var tail := rs[k + 1..];
      SplitAt(rs, k);
      SplitMarker(tail, stacked);
      CutAt(rs, Marker(stacked), k);
      ConcatAssoc([Segment(rs[..k], rs[k].stacked)], Split(tail), [Segment(Rest(tail), stacked)]);
    } else {
      assert m[..k] == rs && m[k + 1..] == [];
      assert Split([]) == [] && Rest([]) == [];
    }
  }

  lemma ConcatAssoc<T>(x: seq<T>, y: seq<T>, z: seq<T>)
    ensures x + (y + z) == (x + y) + z
  {
  }

  lemma {:induction false} FirstMarkerAppend(rs: seq<Record>, r: Record)
    ensures FirstMarker(rs + [r]) ==
            if FirstMarker(rs) < |rs| then FirstMarker(rs) else if r.Marker? then |rs| else |rs| + 1
  {
    if rs == [] {
      assert rs + [r] == [r];
    } else if !rs[0].Marker? {
      FirstMarkerAppend(rs[1..], r);
      assert (rs + [r])[1..] == rs[1..] + [r];
    }
  }

  // ----- The cut loses nothing -----

  /** Segments and their markers put together again. */
  function Joined(segs: seq<Segment>): seq<Record> {
    if segs == [] then []
    else
      var n := |segs| - 1;
      Joined(segs[..n]) + segs[n].records + [Marker(segs[n].stacked)]
  }

  ghost predicate NoMarkers(rs: seq<Record>) {
    forall i :: 0 <= i < |rs| ==> !rs[i].Marker?
  }

  lemma JoinedMore(segs: seq<Segment>, s: Segment)
    ensures Joined(segs + [s]) == Joined(segs) + s.records + [Marker(s.stacked)]
  {
    assert (segs + [s])[..|segs|] == segs;
  }

  /** The segments are what lies between the markers: put together again with the rest they
      are the stream. */
  lemma {:induction false} SplitJoins(rs: seq<Record>)
    ensures Joined(Split(rs)) + Rest(rs) == rs
  {
    if rs != [] {
      var n := |rs| - 1;
      var before, r := rs[..n], rs[n];
      assert rs == before + [r];
      SplitJoins(before);
      if r.Marker? {
        SplitMarker(before, r.stacked);
        JoinedMore(Split(before), Segment(Rest(before), r.stacked));
        assert Joined(Split(rs)) == before + [r];
      } else {
        SplitPlain(before, r);
        ConcatAssoc(Joined(Split(before)), Rest(before), [r]);
      }
    }
  }

  /** And none of them holds a marker. */
  lemma {:induction false} SplitHasNoMarkers(rs: seq<Record>)
    ensures NoMarkers(Rest(rs)) && forall i :: 0 <= i < |Split(rs)| ==> NoMarkers(Split(rs)[i].records)
    decreases |rs|
  {
    var k := FirstMarker(rs);
    if k < |rs| {
      SplitAt(rs, k);
      SplitHasNoMarkers(rs[k + 1..]);
      assert NoMarkers(rs[..k]);
    }
  }

  function MarkerCount(rs: seq<Record>): nat {
    if rs == [] then 0 else MarkerCount(rs[..|rs| - 1]) + if rs[|rs| - 1].Marker? then 1 else 0
  }

  /** One segment is closed for each marker. */
  lemma {:induction false} SplitCount(rs: seq<Record>)
    ensures |Split(rs)| == MarkerCount(rs)
  {
    if rs != [] {
      var n := |rs| - 1;
      assert rs == rs[..n] + [rs[n]];
      SplitCount(rs[..n]);
      if rs[n].Marker? { SplitMarker(rs[..n], rs[n].stacked); } else { SplitPlain(rs[..n], rs[n]); }
    }
  }

  lemma {:induction false} MarkerCountConcat(x: seq<Record>, y: seq<Record>)
    ensures MarkerCount(x + y) == MarkerCount(x) + MarkerCount(y)
  {
    if y == [] {
      assert x + y == x;
    } else {
      var n := |y| - 1;
      assert (x + y)[..|x| + n] == x + y[..n];
      MarkerCountConcat(x, y[..n]);
    }
  }

  // ----- The assembler computes them -----

  /** A record with a return carries one point per echo. */
  ghost predicate Echoes(rs: seq<Record>) {
    forall i :: 0 <= i < |rs| && rs[i].Return? ==> 1 <= |rs[i].points| <= 2
  }

  lemma {:induction false} CutIsSmall(rs: seq<Record>)
    requires Echoes(rs)
    ensures |Cut(rs)| <= 2 * Returns(rs)
  {
    if rs != [] { CutIsSmall(rs[..|rs| - 1]); }
  }

  ghost predicate Matches(a: Assembler, rs: seq<Record>) {
    && a.frame == Cut(Rest(rs))
    && a.previous == Kept(Split(rs))
    && a.nonzero == (if Returns(Rest(rs)) > COUNTER_LIMIT then COUNTER_LIMIT else Returns(Rest(rs)))
    && a.sent == Frames(Split(rs))
  }

  lemma {:induction false} RestEchoes(rs: seq<Record>)
    requires Echoes(rs)
    ensures Echoes(Rest(rs))
    decreases |rs|
  {
    var k := FirstMarker(rs);
    if k < |rs| { RestEchoes(rs[k + 1..]); }
  }

  lemma {:induction false} MarkerMatches(a: Assembler, rs: seq<Record>, stacked: bool)
    requires Matches(a, rs)
    ensures Matches(Feed(a, Marker(stacked)), rs + [Marker(stacked)])
  {
    var before, segs := Split(rs), Split(rs + [Marker(stacked)]);
    SplitMarker(rs, stacked);
    assert segs[..|segs| - 1] == before;
    FrameAt(segs, |before|);
    assert Frames(segs) == Frames(before) + [Frames(segs)[|before|]];
    assert [] + a.frame == a.frame;
  }

  lemma {:induction false} PlainMatches(a: Assembler, rs: seq<Record>, r: Record)
    requires Matches(a, rs) && Echoes(rs) && !r.Marker?
    ensures Matches(Feed(a, r), rs + [r])
  {
    var open := Rest(rs);
    SplitPlain(rs, r);
    assert (open + [r])[..|open|] == open;
    RestEchoes(rs);
    CutIsSmall(open);
  }

  /** Whatever the stream, the frames handed over are its marker-delimited segments. */
  lemma {:induction false} AssemblesSegments(rs: seq<Record>)
    requires Echoes(rs)
    ensures Matches(FeedAll(EMPTY, rs), rs)
  {
    if rs != [] {
      var n := |rs| - 1;
      AssemblesSegments(rs[..n]);
      var a := FeedAll(EMPTY, rs[..n]);
      if rs[n].Marker? { MarkerMatches(a, rs[..n], rs[n].stacked); } else { PlainMatches(a, rs[..n], rs[n]); }
      assert rs[..n] + [rs[n]] == rs;
    }
  }

  // ----- Reading the definition of Frames -----

  lemma {:induction false} FrameAt(segs: seq<Segment>, n: nat)
    requires n < |segs|
    ensures Frames(segs)[n] ==
            Sent((if segs[n].stacked then Kept(segs[..n]) else []) + Cut(segs[n].records),
                 Returns(segs[n].records) >= MIN_NONZERO)
  {
    var m := |segs| - 1;
    if n < m {
      FrameAt(segs[..m], n);
      assert segs[..m][..n] == segs[..n];
    }
  }

  /** With stacking on throughout, frame n is segment n-1 followed by segment n. */
  lemma {:induction false} StackedFrames(segs: seq<Segment>, n: nat)
    requires n < |segs| && forall i :: 0 <= i < |segs| ==> segs[i].stacked
    ensures Frames(segs)[n].points == (if n == 0 then [] else Cut(segs[n - 1].records)) + Cut(segs[n].records)
  {
    FrameAt(segs, n);
    if n > 0 {
      assert segs[..n][n - 1] == segs[n - 1];
      assert Kept(segs[..n]) == Cut(segs[n - 1].records);
    }
  }

  /** Whatever the modes, a frame closed in stacking mode is stacked on the newest segment before
      it that was closed in that mode, and any other frame is its own segment alone. */
  lemma {:induction false} MixedFrames(segs: seq<Segment>, m: nat, n: nat)
    requires m <= n < |segs| && forall i :: m < i < n ==> !segs[i].stacked
    ensures !segs[n].stacked ==> Frames(segs)[n].points == Cut(segs[n].records)
    ensures segs[n].stacked && m < n && segs[m].stacked ==>
              Frames(segs)[n].points == Cut(segs[m].records) + Cut(segs[n].records)
    ensures segs[n].stacked && m == 0 && (m == n || !segs[m].stacked) ==> Frames(segs)[n].points == Cut(segs[n].records)
    ensures Frames(segs)[n].ok <==> Returns(segs[n].records) >= 20
  {
    FrameAt(segs, n);
    KeptNewest(segs[..n], m);
  }

  lemma {:induction false} KeptNewest(segs: seq<Segment>, m: nat)
    requires forall i :: m < i < |segs| ==> !segs[i].stacked
    ensures m < |segs| && segs[m].stacked ==> Kept(segs) == Cut(segs[m].records)
    ensures m == 0 && (segs == [] || !segs[0].stacked) ==> Kept(segs) == []
  {
    if m + 1 < |segs| || (|segs| == 1 && !segs[0].stacked) {
      KeptNewest(segs[..|segs| - 1], m);
    }
  }

  /** With stacking off throughout, frame n is segment n alone. */
  lemma {:induction false} PlainFrames(segs: seq<Segment>, n: nat)
    requires n < |segs| && forall i :: 0 <= i < |segs| ==> !segs[i].stacked
    ensures Frames(segs)[n].points == Cut(segs[n].records)
  {
    FrameAt(segs, n);
  }

  function AllPoints(rs: seq<Record>): seq<Point> {
    if rs == [] then []
    else AllPoints(rs[..|rs| - 1]) + if rs[|rs| - 1].Return? then rs[|rs| - 1].points else []
  }

  /** With one echo mode throughout (`e` points per return) the cap keeps the first points of
      the segment: all of them, or the least multiple of `e` above the cap. */
  lemma {:induction false} CutIsPrefix(rs: seq<Record>, e: nat)
    requires e == 1 || e == 2
    requires forall i :: 0 <= i < |rs| && rs[i].Return? ==> |rs[i].points| == e
    ensures var p := AllPoints(rs);
            && Cut(rs) == (if |p| <= 3000000 + e then p else p[..3000000 + e])
            && |p| % e == 0
  {
    if rs != [] {
      var n := |rs| - 1;
      CutIsPrefix(rs[..n], e);
      var p, q := AllPoints(rs[..n]), AllPoints(rs);
      if |p| > SIZE_CAP {
        assert |p| >= SIZE_CAP + e;
        assert q[..|p|] == p;
        assert q[..SIZE_CAP + e] == p[..SIZE_CAP + e];
      }
    }
  }

  // ----- Time stamps -----

  ghost predicate InOrder(p: seq<Point>) {
    forall i, j :: 0 <= i < j < |p| ==> p[i].stamp <= p[j].stamp
  }

  ghost predicate Before(x: seq<Point>, y: seq<Point>) {
    forall i, j :: 0 <= i < |x| && 0 <= j < |y| ==> x[i].stamp <= y[j].stamp
  }

  lemma InOrderConcat(x: seq<Point>, y: seq<Point>)
    ensures InOrder(x + y) <==> InOrder(x) && InOrder(y) && Before(x, y)
  {
    if InOrder(x + y) {
      assert forall i :: 0 <= i < |x| ==> x[i] == (x + y)[i];
      assert forall j :: 0 <= j < |y| ==> y[j] == (x + y)[|x| + j];
    }
  }

  /** Points kept for stacking and points of the open frame, in that order, are points of the
      stream so far and in time order; so is every frame handed over. */
  ghost predicate Timed(a: Assembler, rs: seq<Record>) {
    && InOrder(a.previous + a.frame)
    && (forall p :: p in a.previous + a.frame ==> p in AllPoints(rs))
    && (forall i :: 0 <= i < |a.sent| ==> InOrder(a.sent[i].points))
  }

  lemma MemberBefore(x: seq<Point>, all: seq<Point>, y: seq<Point>)
    requires (forall p :: p in x ==> p in all) && Before(all, y)
    ensures Before(x, y)
  {
    forall i, j | 0 <= i < |x| && 0 <= j < |y| ensures x[i].stamp <= y[j].stamp {
      assert x[i] in x;
    }
  }

  lemma {:induction false} FeedTimed(a: Assembler, rs: seq<Record>, r: Record)
    requires Timed(a, rs) && InOrder(AllPoints(rs + [r]))
    ensures Timed(Feed(a, r), rs + [r])
  {
    assert (rs + [r])[..|rs|] == rs;
    match r {
      case Marker(stacked) =>
        InOrderConcat(a.previous, a.frame);
        assert a.frame + [] == a.frame && a.previous + [] == a.previous;
      case Blank =>
      case Return(points) =>
        if |a.frame| <= SIZE_CAP {
          InOrderConcat(AllPoints(rs), points);
          MemberBefore(a.previous + a.frame, AllPoints(rs), points);
          InOrderConcat(a.previous + a.frame, points);
          assert a.previous + (a.frame + points) == (a.previous + a.frame) + points;
        }
    }
  }

  /** If the stream's points come in time order, so do the points of every frame handed over,
      stacked or not. */
  lemma {:induction false} FramesInOrder(rs: seq<Record>)
    requires InOrder(AllPoints(rs))
    ensures Timed(FeedAll(EMPTY, rs), rs)
  {
    if rs != [] {
      var n := |rs| - 1;
      assert rs == rs[..n] + [rs[n]];
      InOrderConcat(AllPoints(rs[..n]), if rs[n].Return? then rs[n].points else []);
      FramesInOrder(rs[..n]);
      FeedTimed(FeedAll(EMPTY, rs[..n]), rs[..n], rs[n]);
    }
  }
}

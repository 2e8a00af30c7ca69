/**
 The packet decoder: dispatches device and data packets, walks the records of each data
 packet and hands frames over.  What it hands over depends only on the stream of records.
 */
module PacketDecoder {
  import opened Basics
  import opened FrameAssembly
  import opened PacketFormat

  /** A received packet; `utc` is the second count its calendar fields stand for. */
  datatype Packet = Packet(data: Bytes, utc: nat)

  /** Settings carried from packet to packet. */
  datatype Settings = Settings(stackFrame: nat, horizontalPoints: nat, last: nat)

  const START := Settings(1, 0, 0)

  predicate IsDevice(d: Bytes) {
    (d[0] == 0x00 || d[0] == 0xa5) && d[1] == 0xff && d[2] == 0x00 && d[3] == 0x5a
  }

  /** Nanoseconds since the epoch, in the 64 bits the code keeps. */
  function PacketTime(p: Packet): (t: nat)
    ensures t < TWO64
  {
    var d := p.data;
    var nanos := d[1200] as nat * 0x1000000 + d[1201] as nat * 0x10000 + d[1202] as nat * 0x100 + d[1203] as nat;
    var ptp := d[1195] as nat * 0x1_0000_0000 + d[1196] as nat * 0x1000000 + d[1197] as nat * 0x10000
               + d[1198] as nat * 0x100 + d[1199] as nat;
    ((if d[1194] == 0xff then ptp else p.utc) * 1000000000 + nanos) % TWO64
  }

  /** The stacking setting a packet is read with, or leaves behind. */
  function StackAfter(s: Settings, d: Bytes): nat {
    if IsDevice(d) then if d[231] == 64 || d[231] == 65 then 2 else 1
    else if d[1204] == 192 && s.horizontalPoints != 0 then 1
    else s.stackFrame
  }

  function SettingsAfter(s: Settings, p: Packet): Settings {
    if IsDevice(p.data) then Settings(StackAfter(s, p.data), Word(p.data[184], p.data[185]), s.last)
    else Settings(StackAfter(s, p.data), s.horizontalPoints, PacketTime(p))
  }

  function ContextFor(s: Settings, p: Packet): Context {
    Context(s.last, PacketTime(p), StackAfter(s, p.data) > 1)
  }

  predicate IsDouble(d: Bytes) {
    d[1205] == 2
  }

  function PacketRecords(s: Settings, p: Packet): seq<Record> {
    if IsDevice(p.data) then []
    else Records(p.data, ContextFor(s, p), IsDouble(p.data), RecordCount(IsDouble(p.data)))
  }

  function Configured(packets: seq<Packet>): Settings {
    if packets == [] then START
    else SettingsAfter(Configured(packets[..|packets| - 1]), packets[|packets| - 1])
  }

  /** All records received, packet boundaries forgotten. */
  function Stream(packets: seq<Packet>): seq<Record> {
    if packets == [] then []
    else
      var n := |packets| - 1;
      Stream(packets[..n]) + PacketRecords(Configured(packets[..n]), packets[n])
  }

  lemma RecordEchoes(d: Bytes, c: Context, double: bool, k: nat)
    requires k < RecordCount(double)
    ensures var r := RecordAt(d, c, double, k);
            r.Return? ==> |r.points| == if double then 2 else 1
  {
  }

  lemma PacketEchoes(s: Settings, p: Packet)
    ensures Echoes(PacketRecords(s, p))
  {
    if !IsDevice(p.data) {
      var c, double := ContextFor(s, p), IsDouble(p.data);
      forall k | 0 <= k < RecordCount(double)
        ensures var r := PacketRecords(s, p)[k]; r.Return? ==> 1 <= |r.points| <= 2
      {
        RecordEchoes(p.data, c, double, k);
      }
    }
  }

  lemma EchoesConcat(x: seq<Record>, y: seq<Record>)
    requires Echoes(x) && Echoes(y)
    ensures Echoes(x + y)
  {
  }

  lemma {:induction false} StreamEchoes(packets: seq<Packet>)
    ensures Echoes(Stream(packets))
  {
    if packets != [] {
      var n := |packets| - 1;
      StreamEchoes(packets[..n]);
      PacketEchoes(Configured(packets[..n]), packets[n]);
      EchoesConcat(Stream(packets[..n]), PacketRecords(Configured(packets[..n]), packets[n]));
    }
  }

  // ----- What the bytes of a packet say -----

  /** Big-endian. */
  function Packed(v: nat, n: nat): (r: seq<byte>)
    ensures |r| == n
  {
    if n == 0 then [] else Packed(v / 256, n - 1) + [(v % 256) as byte]
  }

  lemma PackedFour(v: nat, a: byte, b: byte, c: byte, d: byte)
    requires v < 0x1_0000_0000 && Packed(v, 4) == [a, b, c, d]
    ensures v == a as nat * 0x1000000 + b as nat * 0x10000 + c as nat * 0x100 + d as nat
  {
    var x, y, z := v / 256, v / 256 / 256, v / 256 / 256 / 256;
    var p1, p2, p3 := Packed(z, 1), Packed(y, 2), Packed(x, 3);
    assert p1 == [(z % 256) as byte];
    assert p2 == p1 + [(y % 256) as byte] && p3 == p2 + [(x % 256) as byte];
    assert Packed(v, 4) == p3 + [(v % 256) as byte];
    var all := Packed(v, 4);
    assert all[0] == (z % 256) as byte && all[1] == (y % 256) as byte && all[2] == (x % 256) as byte;
    assert all[3] == (v % 256) as byte;
  }

  lemma PackedFive(v: nat, e: byte, a: byte, b: byte, c: byte, d: byte)
    requires v < 0x100_0000_0000 && Packed(v, 5) == [e, a, b, c, d]
    ensures v == e as nat * 0x1_0000_0000 + a as nat * 0x1000000 + b as nat * 0x10000 + c as nat * 0x100 + d as nat
  {
    assert Packed(v / 256, 4) == Packed(v, 5)[..4] == [e, a, b, c];
    assert Packed(v, 5)[4] == (v % 256) as byte;
    PackedFour(v / 256, e, a, b, c);
  }

  /** A packet whose time fields hold `seconds` and `nanos`, most significant byte first, is
      given that time: the seconds of the PTP field if it is marked FF, or else those of the
      calendar fields. */
  lemma PacketTimeRoundTrip(p: Packet, seconds: nat, nanos: nat)
    requires seconds < 0x100_0000_0000 && nanos < 0x1_0000_0000
    requires p.data[1200..1204] == Packed(nanos, 4)
    requires if p.data[1194] == 0xff then p.data[1195..1200] == Packed(seconds, 5) else p.utc == seconds
    ensures PacketTime(p) == (seconds * 1000000000 + nanos) % TWO64
  {
    var d := p.data;
    assert d[1200..1204] == [d[1200], d[1201], d[1202], d[1203]];
    PackedFour(nanos, d[1200], d[1201], d[1202], d[1203]);
    if d[1194] == 0xff {
      assert d[1195..1200] == [d[1195], d[1196], d[1197], d[1198], d[1199]];
      PackedFive(seconds, d[1195], d[1196], d[1197], d[1198], d[1199]);
    }
  }

  // ----- How many markers there are -----

  /** How many of the first `n` records of `size` bytes start with the marker bytes. */
  function MarkersIn(d: Bytes, size: nat, n: nat): nat
    requires size * n <= |d| && size >= 5
  {
    if n == 0 then 0
    else
      var i := size * (n - 1);
      assert i + size == size * n;
      MarkersIn(d, size, n - 1) + if d[i..i + 5] == MARKER then 1 else 0
  }

  /** How many records of data packets start with the marker bytes.  A packet starting with
      A5 FF 00 5A or 00 FF 00 5A is no data packet; byte 1205 is 2 for two echoes. */
  function MarkersReceived(packets: seq<Packet>): nat {
    if packets == [] then 0
    else
      var d := packets[|packets| - 1].data;
      MarkersReceived(packets[..|packets| - 1]) +
      if d[..4] == [0xa5, 0xff, 0x00, 0x5a] || d[..4] == [0x00, 0xff, 0x00, 0x5a] then 0
      else if d[1205] == 2 then MarkersIn(d, 12, 99) else MarkersIn(d, 8, 149)
  }

  lemma DeviceBytes(d: Bytes)
    ensures IsDevice(d) <==> d[..4] == [0xa5, 0xff, 0x00, 0x5a] || d[..4] == [0x00, 0xff, 0x00, 0x5a]
  {
    var b := d[..4];
    assert b[0] == d[0] && b[1] == d[1] && b[2] == d[2] && b[3] == d[3];
  }

  lemma {:induction false} MarkersOfRecords(d: Bytes, c: Context, double: bool, n: nat)
    requires n <= RecordCount(double)
    ensures MarkerCount(Records(d, c, double, n)) == MarkersIn(d, if double then 12 else 8, n)
  {
    if n > 0 {
      var k := n - 1;
      MarkersOfRecords(d, c, double, k);
      var rs := Records(d, c, double, n);
      assert rs[..k] == Records(d, c, double, k) && rs[k] == RecordAt(d, c, double, k);
      if double { DoubleRecordKind(d, c, k); } else { SingleRecordKind(d, c, k); }
    } else {
      assert Records(d, c, double, 0) == [];
    }
  }

  lemma {:induction false} MarkersOfStream(packets: seq<Packet>)
    ensures MarkerCount(Stream(packets)) == MarkersReceived(packets)
  {
    if packets != [] {
      var n := |packets| - 1;
      var s, p := Configured(packets[..n]), packets[n];
      MarkersOfStream(packets[..n]);
      MarkerCountConcat(Stream(packets[..n]), PacketRecords(s, p));
      DeviceBytes(p.data);
      if !IsDevice(p.data) {
        MarkersOfRecords(p.data, ContextFor(s, p), IsDouble(p.data), RecordCount(IsDouble(p.data)));
      }
    }
  }

  // ----- The object -----

  class LidarDecoder {
    var stackFrame: nat
    var horizontalPoints: nat
    var lastAllTimestamp: nat
    var count: nat
    var distanceIsNotZero: nat
    var frame: seq<Point>
    var pointCloudLastData: seq<Point>
    var sent: seq<Sent>

    ghost function Assembly(): Assembler
      reads this
    {
      Assembler(frame, pointCloudLastData, distanceIsNotZero, sent)
    }

    ghost function Current(): Settings
      reads this
    {
      Settings(stackFrame, horizontalPoints, lastAllTimestamp)
    }

    constructor ()
      ensures Assembly() == EMPTY && Current() == START && count == 0
    {
      stackFrame, horizontalPoints, lastAllTimestamp, count := 1, 0, 0, 0;
      distanceIsNotZero, frame, pointCloudLastData, sent := 0, [], [], [];
    }

    /** Hand the frame over and start a new one. */
    method SendLidarData()
      modifies this`sent, this`frame, this`distanceIsNotZero
      ensures sent == old(sent) + [Sent(old(frame), old(distanceIsNotZero) >= MIN_NONZERO)]
      ensures frame == [] && distanceIsNotZero == 0
    {
      var isSuccessful := true;
      if distanceIsNotZero < 20 {
        isSuccessful := false;
      }
      distanceIsNotZero := 0;
      sent := sent + [Sent(frame, isSuccessful)];
      frame := [];
    }

    /** A marker record: stack if configured, then send. */
    method CloseFrame()
      modifies this`count, this`distanceIsNotZero, this`frame, this`pointCloudLastData, this`sent
      ensures Assembly() == Feed(old(Assembly()), Marker(stackFrame > 1)) && count == 0
      ensures |sent| == |old(sent)| + 1 && sent[..|old(sent)|] == old(sent) && frame == []
      ensures stackFrame > 1 ==>
                sent[|old(sent)|].points == old(pointCloudLastData) + old(frame) && pointCloudLastData == old(frame)
      ensures stackFrame <= 1 ==>
                sent[|old(sent)|].points == old(frame) && pointCloudLastData == old(pointCloudLastData)
    {
      if stackFrame > 1 {
        var temp := frame;
        frame := pointCloudLastData + frame;
        pointCloudLastData := temp;
      }
      SendLidarData();
      count := 0;
    }

    /** Count a return towards the frame's validity. */
    method CountDistance(distance: nat)
      modifies this`distanceIsNotZero
      ensures distanceIsNotZero ==
              old(distanceIsNotZero) + if distance > 0 && old(distanceIsNotZero) <= 30 then 1 else 0
    {
      if distanceIsNotZero <= 30 && distance > 0 {
        distanceIsNotZero := distanceIsNotZero + 1;
      }
    }

    /** The body of the single-echo loop at byte `i`. */
    method SingleStep(data: Bytes, i: nat, all: nat, ghost r: Record)
      requires count == 0 && i % 8 == 0 && i < 1192
      requires r == SingleRecord(data, Context(lastAllTimestamp, all, stackFrame > 1), i / 8)
      modifies this`count, this`distanceIsNotZero, this`frame, this`pointCloudLastData, this`sent
      ensures count == 0
      ensures Assembly() == Feed(old(Assembly()), r)
    {
      if IsMarker(data, i) {
        count := count + 1;
      }
      if count == 1 {
        CloseFrame();
        return;
      }
      if |frame| > SIZE_CAP {
        return;
      }
      var distance := Distance(data[i + 4], data[i + 5], data[i + 6]);
      CountDistance(distance);
      if distance <= 0 {
        return;
      }
      var stamp := Stamp(lastAllTimestamp, all, SINGLE_RECORDS, i / 8);
      frame := frame + [EchoPoint(data, i, i + 4, stamp)];
    }

    method HandleSingleEcho(data: Bytes, all: nat, ghost rs: seq<Record>)
      requires count == 0 && |rs| == SINGLE_RECORDS
      requires forall k :: 0 <= k < |rs| ==>
                 rs[k] == SingleRecord(data, Context(lastAllTimestamp, all, stackFrame > 1), k)
      modifies this`count, this`distanceIsNotZero, this`frame, this`pointCloudLastData, this`sent
      ensures count == 0
      ensures Assembly() == FeedAll(old(Assembly()), rs)
    {
      ghost var a, k := Assembly(), 0;
      var i := 0;
      while i < 1192
        invariant i == 8 * k && k <= SINGLE_RECORDS && count == 0
        invariant Assembly() == FeedAll(a, rs[..k])
      {
        FeedNext(a, rs, k);
        assert i / 8 == k;
        SingleStep(data, i, all, rs[k]);
        k, i := k + 1, i + 8;
      }
      assert rs[..k] == rs;
    }

    /** The body of the double-echo loop at byte `i`. */
    method DoubleStep(data: Bytes, i: nat, all: nat, ghost r: Record)
      requires count == 0 && i % 12 == 0 && i < 1188
      requires r == DoubleRecord(data, Context(lastAllTimestamp, all, stackFrame > 1), i / 12)
      modifies this`count, this`distanceIsNotZero, this`frame, this`pointCloudLastData, this`sent
      ensures count == 0
      ensures Assembly() == Feed(old(Assembly()), r)
    {
      if IsMarker(data, i) {
        count := count + 1;
      }
      if count == 1 {
        CloseFrame();
        return;
      }
      if |frame| > SIZE_CAP {
        return;
      }
      var distance := Distance(data[i + 4], data[i + 5], data[i + 6]);
      CountDistance(distance);
      if distance <= 0 {
        return;
      }
      var stamp := Stamp(lastAllTimestamp, all, DOUBLE_RECORDS, i / 12);
      ghost var start := frame;
      frame := frame + [EchoPoint(data, i, i + 4, stamp)];
      frame := frame + [EchoPoint(data, i, i + 8, stamp)];
      assert frame == start + [EchoPoint(data, i, i + 4, stamp), EchoPoint(data, i, i + 8, stamp)];
    }

    method HandleDoubleEcho(data: Bytes, all: nat, ghost rs: seq<Record>)
      requires count == 0 && |rs| == DOUBLE_RECORDS
      requires forall k :: 0 <= k < |rs| ==>
                 rs[k] == DoubleRecord(data, Context(lastAllTimestamp, all, stackFrame > 1), k)
      modifies this`count, this`distanceIsNotZero, this`frame, this`pointCloudLastData, this`sent
      ensures count == 0
      ensures Assembly() == FeedAll(old(Assembly()), rs)
    {
      ghost var a, k := Assembly(), 0;
      var i := 0;
      while i < 1188
        invariant i == 12 * k && k <= DOUBLE_RECORDS && count == 0
        invariant Assembly() == FeedAll(a, rs[..k])
      {
        FeedNext(a, rs, k);
        assert i / 12 == k;
        DoubleStep(data, i, all, rs[k]);
        k, i := k + 1, i + 12;
      }
      assert rs[..k] == rs;
    }

    /** One packet taken from the receive queue. */
    method HandlePacket(p: Packet)
      requires count == 0
      modifies this
      ensures count == 0 && Current() == SettingsAfter(old(Current()), p)
      ensures IsDevice(p.data) ==>
                && horizontalPoints == p.data[184] as nat * 256 + p.data[185] as nat
                && stackFrame == (if p.data[231] == 64 || p.data[231] == 65 then 2 else 1)
                && lastAllTimestamp == old(lastAllTimestamp) && Assembly() == old(Assembly())
      ensures !IsDevice(p.data) ==>
                && horizontalPoints == old(horizontalPoints) && lastAllTimestamp == PacketTime(p)
                && stackFrame == (if p.data[1204] == 192 && horizontalPoints != 0 then 1 else old(stackFrame))
      ensures Assembly() == FeedAll(old(Assembly()), PacketRecords(old(Current()), p))
    {
      var data := p.data;
      if IsDevice(data) {
        horizontalPoints := Word(data[184], data[185]);
        stackFrame := if data[231] == 64 || data[231] == 65 then 2 else 1;
        return;
      }
      var allTimestamp := PacketTime(p);
      if data[1204] == 192 && horizontalPoints != 0 {
        stackFrame := 1;
      }
      ghost var rs := PacketRecords(old(Current()), p);
      if data[1205] == 2 {
        HandleDoubleEcho(data, allTimestamp, rs);
      } else {
        HandleSingleEcho(data, allTimestamp, rs);
      }
      lastAllTimestamp := allTimestamp;
    }
  }

  lemma FeedNext(a: Assembler, rs: seq<Record>, k: nat)
    requires k < |rs|
    ensures FeedAll(a, rs[..k + 1]) == Feed(FeedAll(a, rs[..k]), rs[k])
  {
    assert rs[..k + 1][..k] == rs[..k];
  }

  /** The frames handed over in any run of packets are the marker-delimited segments of the
      record stream, so they do not depend on how records were grouped into packets. */
  method LidarRun(packets: seq<Packet>) returns (sent: seq<Sent>)
    ensures sent == Frames(Split(Stream(packets)))
    ensures |sent| == MarkersReceived(packets)
  {
    var decoder := new LidarDecoder();
    assert packets[..0] == [];
    for n := 0 to |packets|
      invariant decoder.count == 0 && decoder.Current() == Configured(packets[..n])
      invariant decoder.Assembly() == FeedAll(EMPTY, Stream(packets[..n]))
    {
      assert packets[..n + 1][..n] == packets[..n];
      FeedConcat(EMPTY, Stream(packets[..n]), PacketRecords(Configured(packets[..n]), packets[n]));
      decoder.HandlePacket(packets[n]);
    }
    assert packets[..|packets|] == packets;
    StreamEchoes(packets);
    AssemblesSegments(Stream(packets));
    SplitCount(Stream(packets));
    MarkersOfStream(packets);
    sent := decoder.sent;
  }

  // ----- Time stamps over a run -----

  /** Data packets carry times that never go back. */
  ghost predicate ClockRuns(packets: seq<Packet>) {
    forall n :: 0 <= n < |packets| && !IsDevice(packets[n].data) ==>
      Configured(packets[..n]).last <= PacketTime(packets[n])
  }

  ghost predicate Within(p: seq<Point>, lo: int, hi: int) {
    forall i :: 0 <= i < |p| ==> lo <= p[i].stamp <= hi
  }

  lemma RecordStamps(d: Bytes, c: Context, double: bool, k: nat)
    requires k < RecordCount(double)
    ensures var r := RecordAt(d, c, double, k);
            r.Return? ==>
              forall i :: 0 <= i < |r.points| ==> r.points[i].stamp == Stamp(c.last, c.all, RecordCount(double), k)
  {
  }

  /** Appending points that all carry one stamp, no earlier than what is there. */
  lemma AppendInOrder(p: seq<Point>, q: seq<Point>, lo: int, hi: int, stamp: int)
    requires InOrder(p) && Within(p, lo, hi) && lo <= stamp && hi <= stamp
    requires forall i :: 0 <= i < |q| ==> q[i].stamp == stamp
    ensures InOrder(p + q) && Within(p + q, lo, stamp)
  {
  }

  /** The points of the first `n` records of a packet ascend within its time span. */
  lemma {:induction false} RecordsInOrder(d: Bytes, c: Context, double: bool, n: nat)
    requires n <= RecordCount(double) && c.last <= c.all < TWO64
    ensures var p := AllPoints(Records(d, c, double, n));
            InOrder(p) && Within(p, c.last, if n == 0 then c.last else Stamp(c.last, c.all, RecordCount(double), n - 1))
  {
    if n > 0 {
      var k, total := n - 1, RecordCount(double);
      RecordsInOrder(d, c, double, k);
      var rs, r := Records(d, c, double, n), RecordAt(d, c, double, k);
      assert rs[..k] == Records(d, c, double, k) && rs[k] == r;
      StampsAscend(c.last, c.all, total, if k == 0 then 0 else k - 1, k);
      RecordStamps(d, c, double, k);
      AppendInOrder(AllPoints(rs[..k]), if r.Return? then r.points else [], c.last,
                    if k == 0 then c.last else Stamp(c.last, c.all, total, k - 1), Stamp(c.last, c.all, total, k));
    }
  }

  lemma {:induction false} AllPointsConcat(x: seq<Record>, y: seq<Record>)
    ensures AllPoints(x + y) == AllPoints(x) + AllPoints(y)
  {
    if y == [] {
      assert x + y == x;
    } else {
      var n := |y| - 1;
      assert (x + y)[..|x| + n] == x + y[..n];
      AllPointsConcat(x, y[..n]);
    }
  }

  /** The points of one packet ascend from the previous packet's time to its own. */
  lemma PacketInOrder(s: Settings, p: Packet)
    requires !IsDevice(p.data) ==> s.last <= PacketTime(p)
    ensures var fresh' := AllPoints(PacketRecords(s, p));
            InOrder(fresh') && Within(fresh', s.last, SettingsAfter(s, p).last) && s.last <= SettingsAfter(s, p).last
  {
    if !IsDevice(p.data) {
      var n := RecordCount(IsDouble(p.data));
      RecordsInOrder(p.data, ContextFor(s, p), IsDouble(p.data), n);
      StampsAscend(s.last, PacketTime(p), n, 0, n - 1);
    }
  }

  /** Over a whole run the points of the stream are in time order, none later than the newest
      packet. */
  lemma {:induction false} StreamInOrder(packets: seq<Packet>)
    requires ClockRuns(packets)
    ensures InOrder(AllPoints(Stream(packets)))
    ensures Within(AllPoints(Stream(packets)), 0, Configured(packets).last)
  {
    if packets != [] {
      var n := |packets| - 1;
      var before, p := packets[..n], packets[n];
      assert ClockRuns(before) by {
        assert forall i :: 0 <= i < n ==> before[..i] == packets[..i];
      }
      StreamInOrder(before);
      var s := Configured(before);
      PacketInOrder(s, p);
      AllPointsConcat(Stream(before), PacketRecords(s, p));
      InOrderConcat(AllPoints(Stream(before)), AllPoints(PacketRecords(s, p)));
    }
  }

  /** Hence the points of every frame handed over are in time order, stacked or not. */
  lemma SentFramesInOrder(packets: seq<Packet>)
    requires ClockRuns(packets)
    ensures forall i :: 0 <= i < |Frames(Split(Stream(packets)))| ==> InOrder(Frames(Split(Stream(packets)))[i].points)
  {
    StreamInOrder(packets);
    FramesInOrder(Stream(packets));
    StreamEchoes(packets);
    AssemblesSegments(Stream(packets));
  }
}

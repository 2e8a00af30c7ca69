/** From the bytes of a lidar packet to records: markers, angles, distances, time stamps. */
module PacketFormat {
  import opened Basics
  import opened FrameAssembly

  const PACKET_SIZE: nat := 1206
  const SINGLE_RECORDS: nat := 149
  const DOUBLE_RECORDS: nat := 99

  // ----- Fields -----

  function Word(hi: byte, lo: byte): (w: nat)
    ensures w < 65536
  {
    hi as nat * 256 + lo as nat
  }

  function Distance(a: byte, b: byte, c: byte): nat {
    a as nat * 65536 + b as nat * 256 + c as nat
  }

  /** The horizontal angle word, as the code converts it to a signed number. */
  function Horizontal(hi: byte, lo: byte): int {
    if Word(hi, lo) > 32767 then Word(hi, lo) - 65536 else Word(hi, lo)
  }

  function Channel(hi: byte): nat {
    hi as nat / 64
  }

  /** The vertical angle: the high byte's top two bits are the channel; the next is the sign,
      for which the code fills the top bits with ones before converting. */
  function Vertical(hi: byte, lo: byte): int {
    if hi as nat / 32 % 2 == 1 then
      var filled := 0xc000 + Word(hi, lo) % 0x4000;
      if filled > 32767 then filled - 65536 else filled
    else
      hi as nat % 64 * 256 + lo as nat
  }

  /** Channel and vertical angle packed as the device sends them: a 14-bit two's complement
      number under a 2-bit channel. */
  function PackVertical(channel: nat, v: int): (b: (byte, byte))
    requires channel < 4 && -8192 <= v < 8192
  {
    var low := if v < 0 then v + 16384 else v;
    ((channel * 64 + low / 256) as byte, (low % 256) as byte)
  }

  lemma VerticalRoundTrip(channel: nat, v: int)
    requires channel < 4 && -8192 <= v < 8192
    ensures var b := PackVertical(channel, v);
            Channel(b.0) == channel && Vertical(b.0, b.1) == v
  {
  }

  lemma VerticalIsOnto(hi: byte, lo: byte)
    ensures Channel(hi) < 4 && -8192 <= Vertical(hi, lo) < 8192
    ensures PackVertical(Channel(hi), Vertical(hi, lo)) == (hi, lo)
  {
    var low := hi as nat % 64 * 256 + lo as nat;
    assert Word(hi, lo) % 0x4000 == low by {
      assert Word(hi, lo) == hi as nat / 64 * 0x4000 + low;
    }
    assert Vertical(hi, lo) == if hi as nat / 32 % 2 == 1 then low - 0x4000 else low;
    assert low / 256 == hi as nat % 64 && low % 256 == lo as nat;
  }

  /** Two's complement, in the opposite direction, for the horizontal angle. */
  lemma HorizontalRoundTrip(h: int)
    requires -32768 <= h < 32768
    ensures var w := if h < 0 then h + 65536 else h;
            Horizontal((w / 256) as byte, (w % 256) as byte) == h
  {
  }

  /** The index of an angle, given in thousandths of a degree, in the cosine and sine tables.
      The remainder is C's, which truncates toward zero. */
  function TableIndex(milli: int): int {
    if milli >= 0 then
      if milli > 360000 then milli % 360000 else milli
    else
      if milli < -360000 then -((-milli) % 360000) + 360000 else milli + 360000
  }

  const TABLE_SIZE: nat := 360000

  /** The index always names the right angle, but it can be one past the end of the tables:
      exactly for a full turn, and for two or more full turns backwards. */
  lemma TableIndexInRange(milli: int)
    ensures (TableIndex(milli) - milli) % 360000 == 0
    ensures 0 <= TableIndex(milli) <= TABLE_SIZE
    ensures TableIndex(milli) < TABLE_SIZE <==>
            !(milli == 360000 || (milli <= -720000 && milli % 360000 == 0))
  {
    if milli < -360000 {
      var r := (-milli) % 360000;
      assert -milli == (-milli) / 360000 * 360000 + r;
      assert TableIndex(milli) - milli == ((-milli) / 360000 + 1) * 360000;
      if milli % 360000 == 0 {
        assert milli == milli / 360000 * 360000;
        assert -milli == -(milli / 360000) * 360000;
      }
      if r == 0 {
        assert milli == -((-milli) / 360000) * 360000;
      }
    } else if milli > 360000 {
      assert milli == milli / 360000 * 360000 + milli % 360000;
      assert TableIndex(milli) - milli == -(milli / 360000) * 360000;
    }
  }

  /** Twice a number of thousandths to whole thousandths, as a cast to int cuts it. */
  function Halved(twice: int): int {
    if twice >= 0 then twice / 2 else -(-twice / 2)
  }

  /** What the coordinates of a return are computed with, in thousandths of a degree: whether
      vertical words are in hundredths or in four-hundredths of a degree, the dead-zone offset,
      and the mirror angles of the channels. */
  datatype Optics = Optics(coarse: bool, deadZone: int, mirrors: seq<int>)

  const PLAIN_MIRRORS := [1500, -500, 500, -1500]
  const WIDE_MIRRORS := [1500, 500, -500, -1500]

  /** The optics a decoder can come to have: the offset goes with the mirrors, the vertical
      unit is set by the firmware version as well. */
  predicate Possible(o: Optics) {
    (o.deadZone == 6370 && o.mirrors == PLAIN_MIRRORS) || (o.deadZone == 10820 && o.mirrors == WIDE_MIRRORS)
  }

  /** Every angle looked up for the coordinates of a return, in thousandths of a degree. */
  function LookedUp(o: Optics, d: (byte, byte, byte, byte)): seq<int>
    requires Possible(o)
  {
    var v := Vertical(d.2, d.3);
    [30000, 60000, o.mirrors[Channel(d.2)],
     if o.coarse then v * 10 + o.deadZone else Halved(v * 5 + 2 * o.deadZone),
     Horizontal(d.0, d.1) * 10]
  }

  /** All of them stay inside the tables, for every return and all optics, and name the right
      angle. */
  lemma DecodedAnglesIndexTables(o: Optics, d: (byte, byte, byte, byte), k: nat)
    requires Possible(o) && k < |LookedUp(o, d)|
    ensures var angle := LookedUp(o, d)[k];
            0 <= TableIndex(angle) < TABLE_SIZE && (TableIndex(angle) - angle) % 360000 == 0
  {
    VerticalIsOnto(d.2, d.3);
    TableIndexInRange(LookedUp(o, d)[k]);
  }

  // ----- Time stamps -----

  lemma Products(i: real, x: real, y: real, n: real)
    requires i >= 0.0 && 0.0 <= x <= y <= n
    ensures 0.0 <= i * x <= i * y <= i * n
  {
  }

  /** The packet's time less so many point intervals, the interval being the time since the
      previous packet, in 64 bits, over the number of records. */
  function Exact(last: nat, all: nat, n: nat, k: nat): real
    requires k < n
  {
    all as real - ((all - last) % TWO64) as real / n as real * (n - 1 - k) as real
  }

  /** The stamp of record `k` of `n`: spread evenly from the previous packet's time, exclusive,
      to this packet's, inclusive, and truncated to whole nanoseconds. */
  function Stamp(last: nat, all: nat, n: nat, k: nat): int
    requires k < n
  {
    Exact(last, all, n, k).Floor
  }

  lemma RealProduct(x: int, y: int)
    ensures (x * y) as real == x as real * y as real
  {
  }

  lemma Spread(d: real, n: real, m: real, u: real)
    requires n > 0.0 && u == d / n * m
    ensures n * u == d * m
  {
    assert n * (d / n) == d;
    assert n * (d / n * m) == n * (d / n) * m;
  }

  lemma Scaled(n: real, u: real, v: real)
    requires n > 0.0
    ensures u <= v ==> n * u <= n * v
    ensures u < v ==> n * u < n * v
  {
    if u <= v { assert n * (v - u) >= 0.0; }
    if u < v { assert n * (v - u) > 0.0; }
  }

  lemma OneMore(n: real, u: real)
    ensures n * (u + 1.0) == n * u + n
  {
  }

  /** Stamps are spread evenly: record `k` lies `n - 1 - k` equal parts of the time since the
      previous packet before this packet, rounded down to a whole nanosecond. */
  lemma StampsEven(last: nat, all: nat, n: nat, k: nat)
    requires k < n
    ensures var since := (all - last) % TWO64;
            since * (n - 1 - k) <= n * (all - Stamp(last, all, n, k)) < since * (n - 1 - k) + n
  {
    var d, m, s := (all - last) % TWO64, n - 1 - k, Stamp(last, all, n, k);
    var u, x := d as real / n as real * m as real, all - s;
    assert Exact(last, all, n, k) == all as real - u && x as real == all as real - s as real;
    Spread(d as real, n as real, m as real, u);
    EvenLow(d as real * m as real, n as real, u, x as real);
    EvenHigh(d as real * m as real, n as real, u, x as real);
    EvenWhole(d, n, m, x);
  }

  lemma EvenLow(dm: real, n: real, u: real, v: real)
    requires n > 0.0 && n * u == dm && u <= v
    ensures dm <= n * v
  {
    Scaled(n, u, v);
  }

  lemma EvenHigh(dm: real, n: real, u: real, v: real)
    requires n > 0.0 && n * u == dm && v < u + 1.0
    ensures n * v < dm + n
  {
    Scaled(n, v, u + 1.0);
    OneMore(n, u);
  }

  lemma EvenWhole(d: int, n: int, m: int, x: int)
    requires d as real * m as real <= n as real * x as real < d as real * m as real + n as real
    ensures d * m <= n * x < d * m + n
  {
    RealProduct(d, m);
    RealProduct(n, x);
    WholeBounds(d * m, n * x, n);
  }

  lemma WholeBounds(lo: int, x: int, n: int)
    requires lo as real <= x as real < lo as real + n as real
    ensures lo <= x < lo + n
  {
  }

  lemma OnlyZero(n: int, x: int)
    requires 0 <= n * x < n
    ensures x == 0
  {
  }

  /** So the last record carries the packet's own time. */
  lemma LastStamp(last: nat, all: nat, n: nat)
    requires n > 0
    ensures Stamp(last, all, n, n - 1) == all
  {
    StampsEven(last, all, n, n - 1);
    var x := all - Stamp(last, all, n, n - 1);
    assert 0 <= n * x < n;
    OnlyZero(n, x);
  }

  /** And neighbouring records lie one interval apart, up to the rounding. */
  lemma StampSteps(last: nat, all: nat, n: nat, k: nat)
    requires k + 1 < n
    ensures var since := (all - last) % TWO64;
            since - n < n * (Stamp(last, all, n, k + 1) - Stamp(last, all, n, k)) < since + n
  {
    StampsEven(last, all, n, k);
    StampsEven(last, all, n, k + 1);
    var x, y := all - Stamp(last, all, n, k), all - Stamp(last, all, n, k + 1);
    StepBetween((all - last) % TWO64, n, n - 1 - k, x, y);
    assert x - y == Stamp(last, all, n, k + 1) - Stamp(last, all, n, k);
  }

  lemma StepBetween(d: int, n: int, m: int, x: int, y: int)
    requires d * m <= n * x < d * m + n && d * (m - 1) <= n * y < d * (m - 1) + n
    ensures d - n < n * (x - y) < d + n
  {
    assert d * m - d * (m - 1) == d;
    assert n * (x - y) == n * x - n * y;
  }

  lemma ExactAscend(last: nat, all: nat, n: nat, j: nat, k: nat)
    requires j <= k < n && last <= all < TWO64
    ensures last as real <= Exact(last, all, n, j) <= Exact(last, all, n, k) <= all as real
  {
    var d, m := (all - last) as real, n as real;
    assert (all - last) % TWO64 == all - last;
    var i := d / m;
    assert i >= 0.0 && i * m == d;
    Products(i, (n - 1 - k) as real, (n - 1 - j) as real, m);
  }

  lemma FloorMonotone(x: real, y: real)
    requires x <= y
    ensures x.Floor <= y.Floor
  {
  }

  /** Stamps of one packet ascend from the previous packet's time to its own. */
  lemma StampsAscend(last: nat, all: nat, n: nat, j: nat, k: nat)
    requires j <= k < n && last <= all < TWO64
    ensures last <= Stamp(last, all, n, j) <= Stamp(last, all, n, k) <= all
  {
    ExactAscend(last, all, n, j, k);
    FloorMonotone(last as real, Exact(last, all, n, j));
    FloorMonotone(Exact(last, all, n, j), Exact(last, all, n, k));
    FloorMonotone(Exact(last, all, n, k), all as real);
  }

  // ----- Records -----

  type Bytes = s: seq<byte> | |s| == PACKET_SIZE witness seq(PACKET_SIZE, _ => 0 as byte)

  /** What a data packet is read with. */
  datatype Context = Context(last: nat, all: nat, stacked: bool)

  predicate IsMarker(d: Bytes, i: nat)
    requires i + 5 <= |d|
  {
    d[i] == 0xff && d[i + 1] == 0xaa && d[i + 2] == 0xbb && d[i + 3] == 0xcc && d[i + 4] == 0xdd
  }

  function EchoPoint(d: Bytes, i: nat, at: nat, stamp: int): Point
    requires i + 8 <= |d| && at + 4 <= |d|
  {
    Point(Channel(d[i + 2]), Horizontal(d[i], d[i + 1]), Vertical(d[i + 2], d[i + 3]),
          Distance(d[at], d[at + 1], d[at + 2]), d[at + 3] as nat, stamp)
  }

  /** Record `k` of a single-echo packet: eight bytes. */
  function SingleRecord(d: Bytes, c: Context, k: nat): Record
    requires k < SINGLE_RECORDS
  {
    var i := k * 8;
    if IsMarker(d, i) then Marker(c.stacked)
    else if Distance(d[i + 4], d[i + 5], d[i + 6]) == 0 then Blank
    else Return([EchoPoint(d, i, i + 4, Stamp(c.last, c.all, SINGLE_RECORDS, k))])
  }

  /** Record `k` of a double-echo packet: twelve bytes, the second echo after the first. */
  function DoubleRecord(d: Bytes, c: Context, k: nat): Record
    requires k < DOUBLE_RECORDS
  {
    var i := k * 12;
    var stamp := Stamp(c.last, c.all, DOUBLE_RECORDS, k);
    if IsMarker(d, i) then Marker(c.stacked)
    else if Distance(d[i + 4], d[i + 5], d[i + 6]) == 0 then Blank
    else Return([EchoPoint(d, i, i + 4, stamp), EchoPoint(d, i, i + 8, stamp)])
  }

  // ----- Which records are markers and which are blank -----

  const MARKER: seq<byte> := [0xff, 0xaa, 0xbb, 0xcc, 0xdd]

  lemma FiveBytes(d: Bytes, i: nat)
    requires i + 5 <= |d|
    ensures IsMarker(d, i) <==> d[i..i + 5] == MARKER
  {
    var b := d[i..i + 5];
    assert b[0] == d[i] && b[1] == d[i + 1] && b[2] == d[i + 2] && b[3] == d[i + 3] && b[4] == d[i + 4];
  }

  /** A record of a single-echo packet is a marker exactly if it starts with the five marker
      bytes, and blank exactly if it does not and its three distance bytes are zero. */
  lemma SingleRecordKind(d: Bytes, c: Context, k: nat)
    requires k < SINGLE_RECORDS
    ensures d[k * 8..k * 8 + 5] == MARKER <==> SingleRecord(d, c, k) == Marker(c.stacked)
    ensures d[k * 8..k * 8 + 5] == MARKER <==> SingleRecord(d, c, k).Marker?
    ensures d[k * 8..k * 8 + 5] != MARKER && d[k * 8 + 4..k * 8 + 7] == [0, 0, 0] <==> SingleRecord(d, c, k) == Blank
  {
    FiveBytes(d, k * 8);
    ThreeZeros(d, k * 8 + 4);
  }

  lemma ThreeZeros(d: Bytes, i: nat)
    requires i + 3 <= |d|
    ensures Distance(d[i], d[i + 1], d[i + 2]) == 0 <==> d[i..i + 3] == [0, 0, 0]
  {
    assert d[i..i + 3] == [d[i], d[i + 1], d[i + 2]];
    ZeroDistance(d[i], d[i + 1], d[i + 2]);
  }

  lemma ZeroDistance(a: byte, b: byte, c: byte)
    ensures Distance(a, b, c) == 0 <==> a == 0 && b == 0 && c == 0
    ensures [a, b, c] == [0, 0, 0] <==> a == 0 && b == 0 && c == 0
  {
    var x: seq<byte> := [a, b, c];
    assert x[0] == a && x[1] == b && x[2] == c;
  }

  /** The same in a double-echo packet; the blank test looks at the first echo only. */
  lemma DoubleRecordKind(d: Bytes, c: Context, k: nat)
    requires k < DOUBLE_RECORDS
    ensures d[k * 12..k * 12 + 5] == MARKER <==> DoubleRecord(d, c, k) == Marker(c.stacked)
    ensures d[k * 12..k * 12 + 5] == MARKER <==> DoubleRecord(d, c, k).Marker?
    ensures d[k * 12..k * 12 + 5] != MARKER && d[k * 12 + 4..k * 12 + 7] == [0, 0, 0]
            <==> DoubleRecord(d, c, k) == Blank
  {
    FiveBytes(d, k * 12);
    ThreeZeros(d, k * 12 + 4);
  }

  // ----- Points as the device packs them -----

  predicate IsPackable(p: Point) {
    && 0 <= p.channel < 4 && -32768 <= p.hAngle < 32768 && -8192 <= p.vAngle < 8192
    && p.distance < 0x1000000 && p.intensity < 256
  }

  /** The eight bytes of a single-echo record holding `p`. */
  function PackPoint(p: Point): (r: seq<byte>)
    requires IsPackable(p)
    ensures |r| == 8
  {
    var h := if p.hAngle < 0 then p.hAngle + 65536 else p.hAngle;
    var (v0, v1) := PackVertical(p.channel, p.vAngle);
    [(h / 256) as byte, (h % 256) as byte, v0, v1,
     (p.distance / 65536) as byte, (p.distance / 256 % 256) as byte, (p.distance % 256) as byte, p.intensity as byte]
  }

  /** The one family of points whose bytes read as a frame marker. */
  predicate LooksLikeMarker(p: Point) {
    p.channel == 2 && p.hAngle == -86 && p.vAngle == -1076 && p.distance / 65536 == 0xdd
  }

  lemma PackedBytes(p: Point)
    requires IsPackable(p)
    ensures var b := PackPoint(p);
            && Channel(b[2]) == p.channel && Vertical(b[2], b[3]) == p.vAngle && Horizontal(b[0], b[1]) == p.hAngle
            && Distance(b[4], b[5], b[6]) == p.distance && b[7] as nat == p.intensity
  {
    VerticalRoundTrip(p.channel, p.vAngle);
    HorizontalRoundTrip(p.hAngle);
    assert p.distance == p.distance / 65536 * 65536 + p.distance / 256 % 256 * 256 + p.distance % 256;
  }

  lemma MarkerBytes(p: Point)
    requires IsPackable(p)
    ensures var b := PackPoint(p);
            LooksLikeMarker(p) <==> b[0] == 0xff && b[1] == 0xaa && b[2] == 0xbb && b[3] == 0xcc && b[4] == 0xdd
  {
    var b := PackPoint(p);
    PackedBytes(p);
    if b[0] == 0xff && b[1] == 0xaa && b[2] == 0xbb && b[3] == 0xcc {
      assert Horizontal(0xff, 0xaa) == -86 && Vertical(0xbb, 0xcc) == -1076 && Channel(0xbb) == 2;
    }
  }

  lemma FourBytes(d: seq<byte>, i: nat, n: nat, j: nat)
    requires i + n <= |d| && j + 4 <= n
    ensures d[i..i + n][j] == d[i + j] && d[i..i + n][j + 1] == d[i + j + 1]
    ensures d[i..i + n][j + 2] == d[i + j + 2] && d[i..i + n][j + 3] == d[i + j + 3]
  {
  }

  /** Decoding a single-echo record gives back the point packed in it, with its stamp, exactly
      when there was a return and the bytes do not happen to be a marker. */
  lemma PointRoundTrip(d: Bytes, c: Context, k: nat, p: Point)
    requires k < SINGLE_RECORDS && IsPackable(p) && d[k * 8..k * 8 + 8] == PackPoint(p)
    ensures SingleRecord(d, c, k) == Return([p.(stamp := Stamp(c.last, c.all, SINGLE_RECORDS, k))])
            <==> p.distance > 0 && !LooksLikeMarker(p)
  {
    var i := k * 8;
    FourBytes(d, i, 8, 0);
    FourBytes(d, i, 8, 4);
    PackedBytes(p);
    MarkerBytes(p);
  }

  /** The same for a double-echo record: both echoes come back, in order. */
  lemma EchoesRoundTrip(d: Bytes, c: Context, k: nat, p: Point, q: Point)
    requires k < DOUBLE_RECORDS && IsPackable(p) && IsPackable(q)
    requires q.channel == p.channel && q.hAngle == p.hAngle && q.vAngle == p.vAngle
    requires d[k * 12..k * 12 + 8] == PackPoint(p) && d[k * 12 + 8..k * 12 + 12] == PackPoint(q)[4..]
    ensures var stamp := Stamp(c.last, c.all, DOUBLE_RECORDS, k);
            DoubleRecord(d, c, k) == Return([p.(stamp := stamp), q.(stamp := stamp)])
            <==> p.distance > 0 && !LooksLikeMarker(p)
  {
    var i := k * 12;
    FourBytes(d, i, 8, 0);
    FourBytes(d, i, 8, 4);
    FourBytes(d, i + 8, 4, 0);
    FourBytes(PackPoint(q), 4, 4, 0);
    PackedBytes(p);
    PackedBytes(q);
    MarkerBytes(p);
  }

  function RecordCount(double: bool): nat {
    if double then DOUBLE_RECORDS else SINGLE_RECORDS
  }

  function RecordAt(d: Bytes, c: Context, double: bool, k: nat): Record
    requires k < RecordCount(double)
  {
    if double then DoubleRecord(d, c, k) else SingleRecord(d, c, k)
  }

  /** The first `n` records of a packet. */
  function Records(d: Bytes, c: Context, double: bool, n: nat): (r: seq<Record>)
    requires n <= RecordCount(double)
    ensures |r| == n && forall k :: 0 <= k < n ==> r[k] == RecordAt(d, c, double, k)
  {
    seq(n, k requires 0 <= k < n => RecordAt(d, c, double, k))
  }
}

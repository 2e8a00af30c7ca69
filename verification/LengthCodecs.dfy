/**
 The two length codecs: the little-endian base-128 variable-length integer, and the ASN.1
 definite length.  Shifts and masks are written as division and remainder; a C shift of a
 negative number rounds down, as Dafny's division by a positive number does.
 */
module LengthCodecs {
  import opened Basics

  const TWO63: int := 0x8000_0000_0000_0000
  const TWO32: int := 0x1_0000_0000

  // ----- Variable-length integers -----

  function Varint(v: nat): (r: seq<byte>)
    ensures |r| > 0
  {
    if v < 128 then [v as byte] else [(v % 128 + 128) as byte] + Varint(v / 128)
  }

  /** The loop of `varint_encode`.  It ends only for values that are not negative. */
  method VarintEncode(value: int) returns (buf: seq<byte>)
    requires value >= 0
    ensures buf == Varint(value)
  {
    buf := [];
    var v := value;
    var more := true;
    while more
      invariant v >= 0 && (if more then buf + Varint(v) else buf) == Varint(value)
      decreases v, more
    {
      VarintGrows(buf, v);
      var ch := v % 128;
      v := v / 128;
      buf := buf + [(if v == 0 then ch else ch + 128) as byte];
      more := v != 0;
    }
  }

  /** One turn of the loop. */
  lemma {:induction false} VarintGrows(buf: seq<byte>, v: nat)
    ensures v < 128 ==> buf + Varint(v) == buf + [v as byte]
    ensures v >= 128 ==> buf + Varint(v) == buf + [(v % 128 + 128) as byte] + Varint(v / 128)
  {
  }

  /** Byte `i` of an encoding holds the `i`-th group of seven bits from below, and under its top
      bit whether more follow. */
  lemma {:induction false} VarintGroup(v: nat, i: nat)
    requires i < |Varint(v)|
    ensures Varint(v)[i] as nat % 128 == Shifted(v, i) % 128
    ensures Varint(v)[i] >= 128 <==> i < |Varint(v)| - 1
  {
    ContinuationBytes(v, i);
    if v >= 128 && i > 0 {
      VarintGroup(v / 128, i - 1);
      ShiftedFirst(v, i);
    }
  }

  /** What is left of a value after `n` turns of the loop. */
  function Shifted(v: int, n: nat): int {
    if n == 0 then v else Shifted(v, n - 1) / 128
  }

  lemma {:induction false} ShiftedFirst(v: int, n: nat)
    requires n > 0
    ensures Shifted(v, n) == Shifted(v / 128, n - 1)
  {
    if n > 1 { ShiftedFirst(v, n - 1); }
  }

  lemma {:induction false} NegativeStays(v: int, n: nat)
    requires v < 0
    ensures Shifted(v, n) < 0
  {
    if n > 0 { NegativeStays(v, n - 1); }
  }

  lemma {:induction false} ZeroAtLength(v: nat, n: nat)
    requires n > 0
    ensures Shifted(v, n) == 0 <==> n >= |Varint(v)|
  {
    ShiftedFirst(v, n);
    if v < 128 {
      ZeroStays(n - 1);
    } else if n > 1 {
      ZeroAtLength(v / 128, n - 1);
    }
  }

  lemma {:induction false} ZeroStays(n: nat)
    ensures Shifted(0, n) == 0
  {
    if n > 0 { ZeroStays(n - 1); }
  }

  /** The loop runs at least once and ends when nothing is left: for a value that is not
      negative after as many turns as it has bytes, for a negative one never. */
  lemma EncoderEndsIff(v: int)
    ensures (exists n: nat :: n > 0 && Shifted(v, n) == 0) <==> v >= 0
    ensures v >= 0 ==> forall n: nat :: n > 0 ==> (Shifted(v, n) == 0 <==> n >= |Varint(v)|)
  {
    if v >= 0 {
      forall n: nat | n > 0 ensures Shifted(v, n) == 0 <==> n >= |Varint(v)| {
        ZeroAtLength(v, n);
      }
      assert Shifted(v, |Varint(v)|) == 0;
    } else {
      forall n: nat ensures Shifted(v, n) < 0 {
        NegativeStays(v, n);
      }
    }
  }

  /** The weight of byte `k`. */
  function Weight(k: nat): (w: nat)
    ensures w > 0
  {
    if k == 0 then 1 else 128 * Weight(k - 1)
  }

  /** What byte `k` adds to the result; a tenth byte can only reach the sign bit. */
  function Term(b: byte, k: nat): int {
    if k < 9 then b as int % 128 * Weight(k)
    else if b as int % 2 == 1 then -TWO63 else 0
  }

  /** Reading never runs off the buffer: the given length, the ten-byte limit or an end byte
      stops it. */
  ghost predicate Readable(buf: seq<byte>, limit: nat) {
    0 < limit <= |buf| || |buf| >= 10 || exists i :: 0 <= i < |buf| && buf[i] < 128
  }

  /** The decoder from byte `k` on, with the value gathered so far: result and new length. */
  function VarintFrom(buf: seq<byte>, limit: nat, k: nat, sofar: int): (int, int)
    decreases 10 - k, |buf|
  {
    if k >= 10 then (sofar, -1)
    else if limit != 0 && k == limit then (0, 0)
    else if k >= |buf| then (sofar, -1)
    else
      var ret := sofar + Term(buf[k], k);
      if buf[k] < 128 then (ret, k + 1) else VarintFrom(buf, limit, k + 1, ret)
  }

  function VarintValue(buf: seq<byte>, limit: nat): (int, int) {
    VarintFrom(buf, limit, 0, 0)
  }

  /** One turn of the loop. */
  lemma VarintTurn(buf: seq<byte>, limit: nat, k: nat, sofar: int)
    requires k < 10 && k < |buf| && (limit == 0 || k != limit)
    ensures var ret := sofar + Term(buf[k], k);
            VarintFrom(buf, limit, k, sofar) ==
            if buf[k] < 128 then (ret, k + 1) else VarintFrom(buf, limit, k + 1, ret)
  {
  }

  /** The loop of `varint_decode`; `limit` is the length passed in, zero meaning none. */
  method VarintDecode(buf: seq<byte>, limit: nat) returns (ret: int, len: int)
    requires Readable(buf, limit)
    ensures (ret, len) == VarintValue(buf, limit)
  {
    ret := 0;
    var bytes := 0;
    while bytes < 10
      invariant 0 <= bytes <= 10 && (limit != 0 ==> bytes <= limit)
      invariant VarintFrom(buf, limit, bytes, ret) == VarintValue(buf, limit)
      invariant forall i :: 0 <= i < bytes && i < |buf| ==> buf[i] >= 128
      invariant bytes <= |buf|
    {
      if limit != 0 && bytes == limit {
        return 0, 0;
      }
      VarintTurn(buf, limit, bytes, ret);
      ret := ret + Term(buf[bytes], bytes);
      if buf[bytes] < 128 {
        return ret, bytes + 1;
      }
      bytes := bytes + 1;
    }
    len := -1;
  }

  /** `v` needs at most `k` bytes exactly when it is below 128 to the `k`. */
  lemma {:induction false} VarintLength(v: nat, k: nat)
    requires k >= 1
    ensures |Varint(v)| <= k <==> v < Weight(k)
  {
    assert Weight(0) == 1;
    if v >= 128 {
      if k == 1 {
        assert Weight(1) == 128;
      } else {
        VarintLength(v / 128, k - 1);
        assert v < 128 * Weight(k - 1) <==> v / 128 < Weight(k - 1);
      }
    } else {
      WeightGrows(1, k);
    }
  }

  lemma {:induction false} WeightGrows(j: nat, k: nat)
    requires j <= k
    ensures Weight(j) <= Weight(k)
  {
    if j < k { WeightGrows(j, k - 1); }
  }

  lemma WeightValues()
    ensures Weight(4) == 0x1000_0000 && Weight(9) == TWO63
  {
    assert Weight(3) == 128 * Weight(2) && Weight(2) == 128 * Weight(1) && Weight(1) == 128 * Weight(0);
    assert Weight(6) == 128 * Weight(5) && Weight(5) == 128 * Weight(4);
    assert Weight(8) == 128 * Weight(7) && Weight(7) == 128 * Weight(6);
  }

  /** Any 63-bit value fits in nine bytes, and one below 2 to the 28 in four. */
  lemma VarintIsShort(v: nat)
    requires v < TWO63
    ensures |Varint(v)| <= 9 && (v < 0x1000_0000 <==> |Varint(v)| <= 4)
  {
    WeightValues();
    VarintLength(v, 9);
    VarintLength(v, 4);
  }

  lemma Distribute(x: int, y: int, w: int)
    ensures x * w + y * (128 * w) == (x + y * 128) * w
  {
  }

  lemma {:induction false} ContinuationBytes(v: nat, i: nat)
    requires i < |Varint(v)|
    ensures Varint(v)[i] < 128 <==> i == |Varint(v)| - 1
  {
    if v >= 128 && i > 0 { ContinuationBytes(v / 128, i - 1); }
  }

  lemma {:induction false} DecodeCutShort(buf: seq<byte>, limit: nat, k: nat, sofar: int)
    requires k <= limit < 10 && limit <= |buf| && 0 < limit
    requires forall i :: k <= i < limit ==> buf[i] >= 128
    ensures VarintFrom(buf, limit, k, sofar) == (0, 0)
    decreases limit - k
  {
    if k < limit { DecodeCutShort(buf, limit, k + 1, sofar + Term(buf[k], k)); }
  }

  /** Given only a proper, non-empty prefix of an encoding, the decoder asks for more. */
  lemma VarintPrefix(v: nat, n: nat)
    requires v < TWO63 && 0 < n < |Varint(v)|
    ensures VarintValue(Varint(v)[..n], n) == (0, 0)
  {
    VarintIsShort(v);
    forall i | 0 <= i < n ensures Varint(v)[..n][i] >= 128 {
      ContinuationBytes(v, i);
    }
    DecodeCutShort(Varint(v)[..n], n, 0, 0);
  }

  // ----- Code words -----

  /** A complete code word: continuation bytes and one end byte. */
  ghost predicate CodeWord(w: seq<byte>) {
    w != [] && forall i :: 0 <= i < |w| ==> (w[i] < 128 <==> i == |w| - 1)
  }

  function WordValue(w: seq<byte>): nat {
    if w == [] then 0 else w[0] as nat % 128 + 128 * WordValue(w[1..])
  }

  lemma {:induction false} VarintIsWord(v: nat)
    ensures CodeWord(Varint(v)) && WordValue(Varint(v)) == v
  {
    forall i | 0 <= i < |Varint(v)| ensures Varint(v)[i] < 128 <==> i == |Varint(v)| - 1 {
      ContinuationBytes(v, i);
    }
    if v < 128 {
      assert Varint(v)[1..] == [];
    } else {
      VarintIsWord(v / 128);
      assert Varint(v)[1..] == Varint(v / 128);
    }
  }

  lemma WordTail(w: seq<byte>)
    requires CodeWord(w) && |w| > 1
    ensures CodeWord(w[1..])
  {
    var t := w[1..];
    assert forall i :: 0 <= i < |t| ==> t[i] == w[i + 1];
  }

  lemma {:induction false} DecodeWord(buf: seq<byte>, limit: nat, k: nat, sofar: int, w: seq<byte>)
    requires CodeWord(w) && k + |w| <= 9 && (limit == 0 || k + |w| <= limit)
    requires k + |w| <= |buf| && buf[k..k + |w|] == w
    ensures VarintFrom(buf, limit, k, sofar) == (sofar + WordValue(w) * Weight(k), k + |w|)
    decreases |w|
  {
    assert buf[k] == buf[k..k + |w|][0] == w[0];
    if |w| == 1 {
      assert w[1..] == [];
    } else {
      var t := w[1..];
      WordTail(w);
      assert buf[k + 1..k + |w|] == buf[k..k + |w|][1..] == t;
      DecodeWord(buf, limit, k + 1, sofar + w[0] as nat % 128 * Weight(k), t);
      Distribute(w[0] as int % 128, WordValue(t), Weight(k));
    }
  }

  /** The decoder accepts every code word of up to nine bytes, whatever follows it. */
  lemma {:induction false} VarintAccepts(w: seq<byte>, rest: seq<byte>, limit: nat)
    requires CodeWord(w) && |w| <= 9 && (limit == 0 || limit >= |w|)
    ensures VarintValue(w + rest, limit) == (WordValue(w), |w|)
  {
    assert (w + rest)[0..0 + |w|] == w;
    DecodeWord(w + rest, limit, 0, 0, w);
    assert WordValue(w) * Weight(0) == WordValue(w);
  }

  /** The value gathered from `n` continuation bytes. */
  lemma {:induction false} Gathered(buf: seq<byte>, limit: nat, k: nat, n: nat, sofar: int)
    requires k + n <= 9 && k + n <= |buf| && (limit == 0 || k + n <= limit)
    requires forall i :: k <= i < k + n ==> buf[i] >= 128
    ensures VarintFrom(buf, limit, k, sofar) ==
            VarintFrom(buf, limit, k + n, sofar + WordValue(buf[k..k + n]) * Weight(k))
    decreases n
  {
    if n == 0 {
      assert buf[k..k] == [] && WordValue([]) * Weight(k) == 0;
    } else {
      var t := buf[k + 1..k + n];
      Gathered(buf, limit, k + 1, n - 1, sofar + Term(buf[k], k));
      assert buf[k..k + n][1..] == t;
      Distribute(buf[k] as int % 128, WordValue(t), Weight(k));
    }
  }

  lemma {:induction false} WordValueSplit(w: seq<byte>, n: nat)
    requires n <= |w|
    ensures WordValue(w) == WordValue(w[..n]) + Weight(n) * WordValue(w[n..])
    ensures WordValue(w[..n]) < Weight(n)
  {
    if n == 0 {
      assert w[..0] == [] && w[0..] == w;
    } else {
      var t := w[1..];
      WordValueSplit(t, n - 1);
      assert w[..n][1..] == t[..n - 1] && w[n..] == t[n - 1..];
      var a, b, c, d := w[0] as int % 128, WordValue(t[..n - 1]), Weight(n - 1), WordValue(w[n..]);
      SplitSum(a, b, c, d);
    }
  }

  lemma SplitSum(a: int, b: int, c: int, d: int)
    ensures a + 128 * (b + c * d) == (a + 128 * b) + (128 * c) * d
  {
  }

  /** The low 64 bits of nine groups of seven bits and a tenth one. */
  lemma TenthGroup(low: nat, last: nat)
    requires low < TWO63
    ensures Signed(low + TWO63 * last) == low + if last % 2 == 1 then -TWO63 else 0
  {
    var half, odd := last / 2, last % 2;
    assert low + TWO63 * last == (low + TWO63 * odd) + TWO64 * half;
    WholeTurns(low + TWO63 * odd, half);
  }

  lemma WholeTurns(x: nat, turns: nat)
    requires x < TWO64
    ensures (x + TWO64 * turns) % TWO64 == x
  {
  }

  lemma TenBytes(w: seq<byte>)
    requires |w| == 10 && w[9] < 128
    ensures WordValue(w) == WordValue(w[..9]) + TWO63 * w[9] as nat && WordValue(w[..9]) < TWO63
  {
    WordValueSplit(w, 9);
    WeightValues();
    var t := w[9..];
    assert t[0] == w[9] && t[1..] == [];
  }

  lemma DecodeTen(buf: seq<byte>, limit: nat)
    requires |buf| >= 10 && (limit == 0 || limit >= 10)
    requires buf[9] < 128 && forall i :: 0 <= i < 9 ==> buf[i] >= 128
    ensures VarintValue(buf, limit) == (WordValue(buf[..9]) + Term(buf[9], 9), 10)
  {
    Gathered(buf, limit, 0, 9, 0);
    assert buf[0..9] == buf[..9] && Weight(0) == 1;
  }

  /** A code word of ten bytes is accepted too, but only the lowest bit of the tenth byte is
      kept: the result is the value in 64-bit two's complement, and what lies above is lost
      without notice. */
  lemma VarintAcceptsTen(w: seq<byte>, rest: seq<byte>, limit: nat)
    requires CodeWord(w) && |w| == 10 && (limit == 0 || limit >= 10)
    ensures VarintValue(w + rest, limit) == (Signed(WordValue(w)), 10)
  {
    var buf := w + rest;
    assert forall i :: 0 <= i < 10 ==> buf[i] == w[i];
    DecodeTen(buf, limit);
    assert buf[..9] == w[..9];
    TenBytes(w);
    TenthGroup(WordValue(w[..9]), w[9] as nat);
  }

  /** Ten continuation bytes are no code word: the decoder says so. */
  lemma VarintTooLong(buf: seq<byte>, limit: nat)
    requires |buf| >= 10 && (limit == 0 || limit >= 10) && forall i :: 0 <= i < 10 ==> buf[i] >= 128
    ensures VarintValue(buf, limit).1 == -1
  {
    Gathered(buf, limit, 0, 9, 0);
  }

  /** Decoding recovers every value from 0 up to 2 to the 63, and its byte count, with any
      bytes after it and with or without a length given. */
  lemma {:induction false} VarintRoundTrip(v: nat, rest: seq<byte>, limit: nat)
    requires v < TWO63 && (limit == 0 || limit >= |Varint(v)|)
    ensures VarintValue(Varint(v) + rest, limit) == (v, |Varint(v)|)
  {
    VarintIsShort(v);
    VarintIsWord(v);
    VarintAccepts(Varint(v), rest, limit);
  }

  /** The accepted code words are not all encodings: one padded with zero groups decodes to a
      value that has a shorter encoding.  Exactly the unpadded ones are the encoder's output. */
  lemma {:induction false} EncodingIffUnpadded(w: seq<byte>)
    requires CodeWord(w)
    ensures Varint(WordValue(w)) == w <==> |w| == 1 || w[|w| - 1] != 0
    ensures |w| > 1 && w[|w| - 1] != 0 ==> WordValue(w) >= 128
  {
    if |w| == 1 {
      assert w[1..] == [] && WordValue(w) == w[0] as nat;
    } else {
      var t := w[1..];
      WordTail(w);
      EncodingIffUnpadded(t);
      assert t[|t| - 1] == w[|w| - 1];
      var x := WordValue(t);
      assert WordValue(w) == w[0] as nat % 128 + 128 * x;
      assert w == [w[0]] + t;
      if x > 0 {
        assert WordValue(w) / 128 == x && WordValue(w) % 128 == w[0] as nat % 128;
        assert Varint(WordValue(w)) == [w[0]] + Varint(x);
      }
      if |t| == 1 {
        assert x == t[0] as nat;
      }
    }
  }

  lemma PaddedWordIsAccepted()
    ensures VarintValue([0x80, 0x00], 0) == (0, 2) && Varint(0) == [0x00]
  {
  }

  // ----- ASN.1 definite lengths -----

  /** The low byte of a number, as a cast to unsigned char keeps it. */
  function Low(v: int): byte {
    (v % 256) as byte
  }

  function Asn1(v: int): (r: seq<byte>)
    ensures 1 <= |r| <= 5
  {
    if v < 128 then [Low(v)]
    else if v < 256 then [0x81, Low(v)]
    else if v < 65536 then [0x82, Low(v / 256), Low(v)]
    else if v < 16777216 then [0x83, Low(v / 65536), Low(v / 256), Low(v)]
    else [0x84, Low(v / 16777216), Low(v / 65536), Low(v / 256), Low(v)]
  }

  /** A 64-bit two's complement number. */
  function Signed(x: int): int {
    var m := x % TWO64;
    if m >= TWO63 then m - TWO64 else m
  }

  /** The remaining `n` value bytes, from byte `k` on. */
  function Asn1From(buf: seq<byte>, limit: nat, k: nat, n: nat, sofar: int): (int, int)
    decreases n
  {
    if n == 0 then (sofar, k)
    else if (limit != 0 && k == limit) || k >= |buf| then (0, 0)
    else Asn1From(buf, limit, k + 1, n - 1, Signed(sofar * 256 + buf[k] as int))
  }

  function Asn1Value(buf: seq<byte>, limit: nat): (int, int)
    requires buf != []
  {
    if buf[0] < 128 then (buf[0] as int, 1)
    else if buf[0] == 0x80 then (0, -1)
    else Asn1From(buf, limit, 1, buf[0] as nat - 128, 0)
  }

  /** The loop of `asn1_decode`. */
  method Asn1Decode(buf: seq<byte>, limit: nat) returns (ret: int, len: int)
    requires buf != []
    requires buf[0] <= 128 || 0 < limit <= |buf| || |buf| > buf[0] as int - 128
    ensures (ret, len) == Asn1Value(buf, limit)
  {
    var tag := buf[0];
    if tag < 128 {
      return tag as int, 1;
    } else if tag == 0x80 {
      return 0, -1;
    }
    var bytes := 1;
    var lenBytes := tag as nat - 128;
    ret := 0;
    while lenBytes > 0
      invariant 1 <= bytes <= |buf| && bytes + lenBytes == 1 + (tag as nat - 128)
      invariant limit != 0 ==> bytes <= limit
      invariant Asn1From(buf, limit, bytes, lenBytes, ret) == Asn1Value(buf, limit)
    {
      if limit != 0 && bytes == limit {
        return 0, 0;
      }
      ret := Signed(ret * 256 + buf[bytes] as int);
      bytes := bytes + 1;
      lenBytes := lenBytes - 1;
    }
    len := bytes;
  }

  function Pow256(n: nat): nat {
    if n == 0 then 1 else 256 * Pow256(n - 1)
  }

  /** A number followed by big-endian digits. */
  function Append(sofar: nat, digits: seq<byte>): nat
    decreases |digits|
  {
    if digits == [] then sofar else Append(sofar * 256 + digits[0] as nat, digits[1..])
  }

  lemma {:induction false} Asn1Bytes(buf: seq<byte>, limit: nat, k: nat, n: nat, sofar: nat, done: nat)
    requires done + n <= 4 && k + n <= |buf| && (limit == 0 || k + n <= limit)
    requires sofar < Pow256(done)
    ensures Asn1From(buf, limit, k, n, sofar) == (Append(sofar, buf[k..k + n]), k + n)
    decreases n
  {
    if n > 0 {
      var next := sofar * 256 + buf[k] as nat;
      assert next < Pow256(done + 1);
      SmallPowers(done + 1);
      assert Signed(next) == next;
      Asn1Bytes(buf, limit, k + 1, n - 1, next, done + 1);
      assert buf[k..k + n][1..] == buf[k + 1..k + n];
    }
  }

  lemma SmallPowers(n: nat)
    requires n <= 4
    ensures Pow256(n) <= TWO32
  {
    assert Pow256(1) == 256 && Pow256(2) == 65536 && Pow256(3) == 16777216 && Pow256(4) == TWO32;
  }

  lemma AppendFirst(x: nat, a: byte, rest: seq<byte>)
    ensures Append(x, [a] + rest) == Append(x * 256 + a as nat, rest)
  {
    assert ([a] + rest)[1..] == rest;
  }

  lemma AppendDigits(x: nat, a: byte, b: byte, c: byte)
    ensures Append(x, [a]) == x * 256 + a as nat
    ensures Append(x, [a, b]) == (x * 256 + a as nat) * 256 + b as nat
    ensures Append(x, [a, b, c]) == ((x * 256 + a as nat) * 256 + b as nat) * 256 + c as nat
  {
    var x1 := x * 256 + a as nat;
    var x2 := x1 * 256 + b as nat;
    assert [a] == [a] + [] && [b] == [b] + [] && [c] == [c] + [];
    assert [a, b] == [a] + [b] && [b, c] == [b] + [c] && [a, b, c] == [a] + [b, c];
    AppendFirst(x, a, []);
    AppendFirst(x, a, [b]);
    AppendFirst(x, a, [b, c]);
    AppendFirst(x1, b, []);
    AppendFirst(x1, b, [c]);
    AppendFirst(x2, c, []);
  }

  lemma AppendFour(a: byte, b: byte, c: byte, d: byte)
    ensures Append(0, [a, b, c, d]) == ((a as nat * 256 + b as nat) * 256 + c as nat) * 256 + d as nat
  {
    assert [a, b, c, d] == [a] + [b, c, d];
    AppendFirst(0, a, [b, c, d]);
    AppendDigits(a as nat, b, c, d);
  }

  /** What the bytes of an encoding stand for: the value's low 32 bits. */
  lemma Asn1Digits(v: int)
    requires 128 <= v
    ensures var e := Asn1(v); e[0] as int == 128 + |e| - 1 && Append(0, e[1..]) == v % TWO32
  {
    if v < 65536 {
      TwoDigits(v);
    } else {
      FourDigits(v);
    }
  }

  lemma TwoDigits(v: int)
    requires 128 <= v < 65536
    ensures Append(0, Asn1(v)[1..]) == v
  {
    var d := Asn1(v)[1..];
    if v < 256 {
      assert d == [Low(v)];
      AppendDigits(0, Low(v), 0, 0);
    } else {
      assert d == [Low(v / 256), Low(v)];
      AppendDigits(0, Low(v / 256), Low(v), 0);
    }
  }

  lemma FourDigits(v: int)
    requires 65536 <= v
    ensures Append(0, Asn1(v)[1..]) == v % TWO32
  {
    var d := Asn1(v)[1..];
    var x := Low(v / 65536);
    Digits(v);
    if v < 16777216 {
      assert d == [x, Low(v / 256), Low(v)];
      AppendDigits(0, x, Low(v / 256), Low(v));
    } else {
      assert d == [Low(v / 16777216), x, Low(v / 256), Low(v)];
      AppendFour(Low(v / 16777216), x, Low(v / 256), Low(v));
    }
  }

  lemma QuotientOfQuotient(v: int)
    requires v >= 0
    ensures v / 65536 == v / 256 / 256 && v / 16777216 == v / 256 / 256 / 256
  {
  }

  lemma LowBits(high: int, low: int)
    requires 0 <= low < TWO32
    ensures (high * TWO32 + low) % TWO32 == low
  {
  }

  lemma Digits(v: int)
    requires v >= 0
    ensures v % TWO32 == ((v / 16777216 % 256 * 256 + v / 65536 % 256) * 256 + v / 256 % 256) * 256 + v % 256
  {
    var a := v / 256;
    var b := a / 256;
    var c := b / 256;
    QuotientOfQuotient(v);
    var low := ((c % 256 * 256 + b % 256) * 256 + a % 256) * 256 + v % 256;
    assert v == c / 256 * TWO32 + low;
    LowBits(c / 256, low);
  }

  /** A multi-byte encoding is read back as the value's low 32 bits, with or without a limit. */
  lemma Asn1LongForm(v: int, rest: seq<byte>, limit: nat)
    requires v >= 128 && (limit == 0 || limit >= |Asn1(v)|)
    ensures Asn1Value(Asn1(v) + rest, limit) == (v % TWO32, |Asn1(v)|)
  {
    var e := Asn1(v);
    var buf := e + rest;
    Asn1Digits(v);
    assert buf[0] == e[0] && e[0] as nat == 128 + |e| - 1;
    Asn1Bytes(buf, limit, 1, |e| - 1, 0, 0);
    assert buf[1..|e|] == e[1..];
  }

  lemma {:induction false} Asn1FromLength(buf: seq<byte>, limit: nat, k: nat, n: nat, sofar: int)
    ensures Asn1From(buf, limit, k, n, sofar).1 == 0 || Asn1From(buf, limit, k, n, sofar).1 == k + n
    decreases n
  {
    if n > 0 && k < |buf| {
      Asn1FromLength(buf, limit, k + 1, n - 1, Signed(sofar * 256 + buf[k] as int));
    }
  }

  /** A number below 128 takes one byte; a negative one is read as another number or a tag. */
  lemma Asn1ShortForm(v: int, rest: seq<byte>, limit: nat)
    requires v < 128
    ensures Asn1Value(Asn1(v) + rest, limit) == (v, 1) <==> v >= 0
  {
    var buf := Asn1(v) + rest;
    assert buf[0] == Low(v);
    if buf[0] > 0x80 {
      Asn1FromLength(buf, limit, 1, buf[0] as nat - 128, 0);
    }
  }

  /** The length codec recovers a value and its byte count, with any bytes after it and with or
      without a length given, exactly for values that fit in 32 bits and are not negative. */
  lemma Asn1RoundTripIff(v: int, rest: seq<byte>, limit: nat)
    requires limit == 0 || limit >= |Asn1(v)|
    ensures Asn1Value(Asn1(v) + rest, limit) == (v, |Asn1(v)|) <==> 0 <= v < TWO32
  {
    if v >= 128 {
      Asn1LongForm(v, rest, limit);
      assert v % TWO32 == v <==> v < TWO32;
    } else {
      Asn1ShortForm(v, rest, limit);
    }
  }

  // ----- What the length codec writes and refuses -----

  /** A tag may announce up to 127 bytes: what they say is kept in 64 bits. */
  lemma {:induction false} Asn1Wraps(buf: seq<byte>, limit: nat, k: nat, n: nat, x: nat)
    requires k + n <= |buf| && (limit == 0 || k + n <= limit)
    ensures Asn1From(buf, limit, k, n, Signed(x)) == (Signed(Append(x, buf[k..k + n])), k + n)
    decreases n
  {
    if n > 0 {
      SignedShift(x, buf[k] as nat);
      Asn1Wraps(buf, limit, k + 1, n - 1, x * 256 + buf[k] as nat);
      assert buf[k..k + n][1..] == buf[k + 1..k + n];
    }
  }

  lemma SignedShift(x: nat, b: nat)
    ensures Signed(Signed(x) * 256 + b) == Signed(x * 256 + b)
  {
    var t := x / TWO64 + if x % TWO64 >= TWO63 then 1 else 0;
    assert x == x / TWO64 * TWO64 + x % TWO64;
    assert Signed(x) == x - t * TWO64;
    assert x * 256 + b == (Signed(x) * 256 + b) + (t * 256) * TWO64;
    SameRemainder(Signed(x) * 256 + b, t * 256);
  }

  lemma SameRemainder(y: int, turns: int)
    ensures (y + turns * TWO64) % TWO64 == y % TWO64
  {
  }

  /** A value without its lowest `k` bytes. */
  function Upper(v: int, k: nat): int {
    if k == 0 then v else Upper(v, k - 1) / 256
  }

  /** Every byte of the long form: the count of bytes under the top bit, and then the value,
      most significant byte first. */
  lemma Asn1Layout(v: int, i: nat)
    requires 128 <= v < TWO32 && 1 <= i < |Asn1(v)|
    ensures Asn1(v)[0] as int == 128 + |Asn1(v)| - 1
    ensures Asn1(v)[i] as int == Upper(v, |Asn1(v)| - 1 - i) % 256
  {
    assert Upper(v, 0) == v;
    assert Upper(v, 1) == v / 256;
    assert Upper(v, 2) == v / 256 / 256;
    assert Upper(v, 3) == v / 256 / 256 / 256;
    QuotientOfQuotient(v);
  }

  lemma {:induction false} AppendBound(sofar: nat, digits: seq<byte>, done: nat)
    requires sofar < Pow256(done)
    ensures Append(sofar, digits) < Pow256(done + |digits|)
    decreases |digits|
  {
    if digits != [] {
      assert Pow256(done + 1) == 256 * Pow256(done);
      AppendBound(sofar * 256 + digits[0] as nat, digits[1..], done + 1);
    }
  }

  /** Whatever the decoder accepts in `n` bytes is small enough for `n` bytes. */
  lemma AcceptedIsSmall(buf: seq<byte>, limit: nat, v: int, n: nat)
    requires buf != [] && 1 <= n <= 5 && Asn1Value(buf, limit) == (v, n) && n <= |buf|
    requires limit == 0 || limit >= n
    ensures n == 1 ==> 0 <= v < 128
    ensures n > 1 ==> 0 <= v < Pow256(n - 1)
  {
    if buf[0] > 0x80 {
      var m := buf[0] as nat - 128;
      Asn1FromLength(buf, limit, 1, m, 0);
      assert n == 1 + m;
      Asn1Bytes(buf, limit, 1, m, 0, 0);
      AppendBound(0, buf[1..1 + m], 0);
    }
  }

  /** No other bytes that the decoder takes for a value are fewer than its encoding. */
  lemma Asn1IsShortest(v: int, buf: seq<byte>, limit: nat, n: nat)
    requires 0 <= v < TWO32 && buf != [] && 1 <= n <= |buf| && (limit == 0 || limit >= n)
    requires Asn1Value(buf, limit) == (v, n)
    ensures n >= |Asn1(v)|
  {
    if n <= 5 {
      AcceptedIsSmall(buf, limit, v, n);
      assert Pow256(0) == 1 && Pow256(1) == 256 && Pow256(2) == 65536 && Pow256(3) == 16777216;
    }
  }

  /** The tag 80 is refused, whatever follows. */
  lemma InvalidTag(rest: seq<byte>, limit: nat)
    ensures Asn1Value([0x80] + rest, limit) == (0, -1)
  {
  }

  lemma {:induction false} Asn1Short(buf: seq<byte>, limit: nat, k: nat, n: nat, sofar: int)
    requires 0 < limit <= |buf| && k <= limit < k + n
    ensures Asn1From(buf, limit, k, n, sofar) == (0, 0)
    decreases n
  {
    if k < limit { Asn1Short(buf, limit, k + 1, n - 1, Signed(sofar * 256 + buf[k] as int)); }
  }

  /** Given only a proper, non-empty prefix of an encoding, the decoder asks for more. */
  lemma Asn1Prefix(v: int, n: nat)
    requires 128 <= v && 0 < n < |Asn1(v)|
    ensures Asn1Value(Asn1(v)[..n], n) == (0, 0)
  {
    Asn1Digits(v);
    Asn1Short(Asn1(v)[..n], n, 1, |Asn1(v)| - 1, 0);
  }
}

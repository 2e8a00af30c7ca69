/**
 The ring allocator: blocks are carved off at the tail and given back at the head, in
 allocation order.  A block that does not fit before the end of the buffer is placed at
 its start, leaving a gap behind.
 */
module RingAllocator {
  import opened Basics

  datatype Block = Block(off: nat, len: nat)

  /** The allocator's counters and, oldest first, the blocks handed out and not yet freed. */
  datatype Ring = Ring(cap: nat, head: nat, tail: nat, size: int, live: seq<Block>)

  function Fresh(cap: nat): Ring {
    Ring(cap, 0, 0, 0, [])
  }

  /** Where `alloc` would place a block. */
  function Place(r: Ring, len: nat): Option<nat> {
    if r.head < r.tail || r.size == 0 then
      if r.cap - r.tail >= len then Some(r.tail)
      else if r.head >= len then Some(0)
      else None
    else if r.head - r.tail >= len then Some(r.tail)
    else None
  }

  function Alloc(r: Ring, len: nat): Ring {
    var at := Place(r, len);
    if at.None? then r
    else
      var end := at.value + len;
      var toEnd := (r.head < r.tail || r.size == 0) && r.cap - r.tail >= len && end == r.cap;
      Ring(r.cap, r.head, if toEnd then 0 else end, r.size + len, r.live + [Block(at.value, len)])
  }

  /** `free` called with the length of the oldest live block. */
  function Free(r: Ring): Ring
    requires r.live != []
  {
    var len := r.live[0].len;
    var moved := if len <= r.cap - r.head then r.head + len else len;
    var wraps := len <= r.cap - r.head && moved == r.cap;
    Ring(r.cap, if wraps then 0 else moved, r.tail, r.size - len, r.live[1..])
  }

  // ----- What must never break -----

  ghost predicate Apart(x: Block, y: Block) {
    x.off + x.len <= y.off || y.off + y.len <= x.off
  }

  function Total(live: seq<Block>): nat {
    if live == [] then 0 else live[0].len + Total(live[1..])
  }

  ghost predicate Safe(r: Ring) {
    && (forall i :: 0 <= i < |r.live| ==> r.live[i].off + r.live[i].len <= r.cap)
    && (forall i, j :: 0 <= i < j < |r.live| ==> Apart(r.live[i], r.live[j]))
    && r.size == Total(r.live)
    && (r.size == 0 ==> r.head == r.tail)
  }

  // ----- Why it does not -----

  /** The blocks lie end to end from `p` to `q`. */
  ghost predicate Chain(blocks: seq<Block>, p: nat, q: nat) {
    if blocks == [] then p == q
    else blocks[0].off == p && Chain(blocks[1..], p + blocks[0].len, q)
  }

  /** How the live blocks lie: in one run from head to tail, or in an upper run from head to
      `top` followed by a lower run from 0 to tail. */
  datatype Shape = Flat | Wrapped(upper: nat, top: nat)

  ghost predicate Laid(r: Ring, s: Shape) {
    match s
    case Flat =>
      && r.head <= r.tail <= r.cap && (r.tail == r.cap ==> r.cap == 0)
      && r.size == r.tail - r.head
      && Chain(r.live, r.head, r.tail)
    case Wrapped(u, top) =>
      && u <= |r.live| && r.tail <= r.head <= top <= r.cap && r.head < r.cap
      && r.size == top - r.head + r.tail
      && Chain(r.live[..u], r.head, top) && Chain(r.live[u..], 0, r.tail)
      && (if top == r.cap then u > 0 && r.live[u - 1].len > 0
          else u < |r.live| && r.live[u].len > r.cap - top)
  }

  lemma {:induction false} ChainSpan(blocks: seq<Block>, p: nat, q: nat)
    requires Chain(blocks, p, q)
    ensures p <= q && Total(blocks) == q - p
    ensures forall i :: 0 <= i < |blocks| ==> p <= blocks[i].off && blocks[i].off + blocks[i].len <= q
    ensures forall i, j :: 0 <= i < j < |blocks| ==> Apart(blocks[i], blocks[j])
  {
    if blocks != [] {
      ChainSpan(blocks[1..], p + blocks[0].len, q);
      assert forall i :: 0 < i < |blocks| ==> blocks[i] == blocks[1..][i - 1];
    }
  }

  lemma {:induction false} ChainAppend(blocks: seq<Block>, p: nat, q: nat, len: nat)
    requires Chain(blocks, p, q)
    ensures Chain(blocks + [Block(q, len)], p, q + len)
  {
    if blocks == [] {
      assert Chain([Block(q, len)][1..], q + len, q + len);
    } else {
      ChainAppend(blocks[1..], p + blocks[0].len, q, len);
      assert (blocks + [Block(q, len)])[1..] == blocks[1..] + [Block(q, len)];
    }
  }

  lemma {:induction false} TotalConcat(x: seq<Block>, y: seq<Block>)
    ensures Total(x + y) == Total(x) + Total(y)
  {
    if x == [] {
      assert x + y == y;
    } else {
      TotalConcat(x[1..], y);
      assert (x + y)[1..] == x[1..] + y;
    }
  }

  /** Two runs that do not overlap are together as good as one. */
  lemma TwoRuns(hi: seq<Block>, lo: seq<Block>, p: nat, q: nat, m: nat, cap: nat)
    requires Chain(hi, p, q) && Chain(lo, 0, m) && m <= p && q <= cap
    ensures var all := hi + lo;
            && (forall i :: 0 <= i < |all| ==> all[i].off + all[i].len <= cap)
            && (forall i, j :: 0 <= i < j < |all| ==> Apart(all[i], all[j]))
            && Total(all) == q - p + m
  {
    ChainSpan(hi, p, q);
    ChainSpan(lo, 0, m);
    TotalConcat(hi, lo);
    var all := hi + lo;
    forall i, j | 0 <= i < j < |all| ensures Apart(all[i], all[j]) {
      if j < |hi| {
        assert Apart(hi[i], hi[j]);
      } else if i >= |hi| {
        assert Apart(lo[i - |hi|], lo[j - |hi|]);
      } else {
        assert hi[i].off >= p && lo[j - |hi|].off + lo[j - |hi|].len <= m;
      }
    }
  }

  /** Either layout is safe. */
  lemma LaidIsSafe(r: Ring, s: Shape)
    requires Laid(r, s)
    ensures Safe(r)
  {
    match s {
      case Flat => ChainSpan(r.live, r.head, r.tail);
      case Wrapped(u, top) =>
        TwoRuns(r.live[..u], r.live[u..], r.head, top, r.tail, r.cap);
        assert r.live == r.live[..u] + r.live[u..];
        WrappedIsNotEmpty(r, s);
    }
  }

  lemma WrappedIsNotEmpty(r: Ring, s: Shape)
    requires Laid(r, s) && s.Wrapped?
    ensures r.size > 0
  {
    if s.top != r.cap {
      ChainSpan(r.live[s.upper..], 0, r.tail);
      assert r.live[s.upper..][0].len > 0;
    }
  }

  lemma AllocFlat(r: Ring, len: nat) returns (s': Shape)
    requires Laid(r, Flat)
    ensures Laid(Alloc(r, len), s')
  {
    var at := Place(r, len);
    var r' := Alloc(r, len);
    if at.None? {
      s' := Flat;
    } else if r.cap - r.tail >= len {
      ChainAppend(r.live, r.head, r.tail, len);
      if r.tail + len == r.cap && r.cap > 0 {
        s' := Wrapped(|r'.live|, r.cap);
        assert r'.live[..|r'.live|] == r'.live;
      } else {
        s' := Flat;
      }
    } else {
      s' := Wrapped(|r.live|, r.tail);
      assert r'.live[..|r.live|] == r.live && r'.live[|r.live|..] == [Block(0, len)];
      assert Chain([Block(0, len)][1..], len, len);
    }
  }

  lemma AllocWrapped(r: Ring, s: Shape, len: nat)
    requires Laid(r, s) && s.Wrapped?
    ensures Laid(Alloc(r, len), s)
  {
    WrappedIsNotEmpty(r, s);
    if Place(r, len).Some? {
      var r' := Alloc(r, len);
      var u := s.upper;
      ChainAppend(r.live[u..], 0, r.tail, len);
      assert r'.live[..u] == r.live[..u] && r'.live[u..] == r.live[u..] + [Block(r.tail, len)];
    }
  }

  lemma AllocKeepsLayout(r: Ring, s: Shape, len: nat) returns (s': Shape)
    requires Laid(r, s)
    ensures Laid(Alloc(r, len), s')
  {
    if s.Flat? {
      s' := AllocFlat(r, len);
    } else {
      AllocWrapped(r, s, len);
      s' := s;
    }
  }

  lemma UpperTail(live: seq<Block>, u: nat)
    requires 0 < u <= |live|
    ensures live[..u][1..] == live[1..][..u - 1] && live[1..][u - 1..] == live[u..]
  {
  }

  /** Freeing from the upper run; when it ends exactly at the end of the buffer the head
      wraps to the start. */
  lemma FreeUpper(r: Ring, s: Shape) returns (s': Shape)
    requires Laid(r, s) && s.Wrapped? && s.upper > 0
    ensures Laid(Free(r), s')
  {
    var u, top := s.upper, s.top;
    var hi, rest := r.live[..u], r.live[1..];
    var next := r.head + r.live[0].len;
    UpperTail(r.live, u);
    assert Chain(rest[..u - 1], next, top) && Chain(rest[u - 1..], 0, r.tail);
    ChainSpan(rest[..u - 1], next, top);
    if u == 1 {
      assert next == top;
      s' := if top == r.cap then Flat else Wrapped(0, top);
      assert rest[0..] == rest;
    } else {
      var last := rest[..u - 1][u - 2];
      assert last == r.live[u - 1];
      s' := Wrapped(u - 1, top);
    }
  }

  lemma FreeKeepsLayout(r: Ring, s: Shape) returns (s': Shape)
    requires Laid(r, s) && r.live != []
    ensures Laid(Free(r), s')
  {
    if s.Flat? {
      ChainSpan(r.live, r.head, r.tail);
      ChainSpan(r.live[1..], r.head + r.live[0].len, r.tail);
      s' := Flat;
    } else if s.upper > 0 {
      s' := FreeUpper(r, s);
    } else {
      assert r.live[0..] == r.live && r.head == s.top;
      ChainSpan(r.live, 0, r.tail);
      ChainSpan(r.live[1..], r.live[0].len, r.tail);
      s' := Flat;
    }
  }

  // ----- Whole runs -----

  datatype Call = AllocCall(len: nat) | FreeCall

  function Step(r: Ring, call: Call): Ring {
    match call
    case AllocCall(len) => Alloc(r, len)
    case FreeCall => if r.live == [] then r else Free(r)
  }

  /** A run of `alloc` and `free` calls; a `free` with nothing live is not made. */
  function Run(cap: nat, calls: seq<Call>): Ring {
    if calls == [] then Fresh(cap)
    else Step(Run(cap, calls[..|calls| - 1]), calls[|calls| - 1])
  }

  lemma {:induction false} RunIsLaid(cap: nat, calls: seq<Call>) returns (s: Shape)
    ensures Laid(Run(cap, calls), s)
  {
    if calls == [] {
      s := Flat;
    } else {
      var n := |calls| - 1;
      var before := Run(cap, calls[..n]);
      s := RunIsLaid(cap, calls[..n]);
      match calls[n] {
        case AllocCall(len) => s := AllocKeepsLayout(before, s, len);
        case FreeCall => if before.live != [] { s := FreeKeepsLayout(before, s); }
      }
    }
  }

  /** In every reachable state all live blocks lie in the buffer, are pairwise disjoint, and
      add up to the recorded size. */
  lemma RunIsSafe(cap: nat, calls: seq<Call>)
    ensures Safe(Run(cap, calls))
  {
    var s := RunIsLaid(cap, calls);
    LaidIsSafe(Run(cap, calls), s);
  }

  /** An empty ring does not take every block that would fit in the buffer: its free space is
      split at the head.  Exactly which it takes: */
  lemma EmptyRingAccepts(cap: nat, calls: seq<Call>, len: nat)
    requires Run(cap, calls).live == []
    ensures var r := Run(cap, calls);
            Place(r, len).Some? <==> len <= r.cap - r.head || len <= r.head
  {
    RunIsSafe(cap, calls);
  }

  lemma {:induction false} ChainCovers(blocks: seq<Block>, p: nat, q: nat, x: nat) returns (i: nat)
    requires Chain(blocks, p, q) && p <= x < q
    ensures i < |blocks| && blocks[i].off <= x < blocks[i].off + blocks[i].len
  {
    if x < p + blocks[0].len {
      i := 0;
    } else {
      i := ChainCovers(blocks[1..], p + blocks[0].len, q, x);
      i := i + 1;
    }
  }

  // ----- What a refusal means -----

  ghost predicate Covers(b: Block, x: nat) {
    b.off <= x < b.off + b.len
  }

  /** Byte `x` belongs to a live block. */
  ghost predicate Used(r: Ring, x: nat) {
    exists i :: 0 <= i < |r.live| && Covers(r.live[i], x)
  }

  /** `len` bytes from `off` on are in the buffer and belong to no live block. */
  ghost predicate Room(r: Ring, off: nat, len: nat) {
    off + len <= r.cap && forall x :: off <= x < off + len ==> !Used(r, x)
  }

  ghost predicate HasRoom(r: Ring, len: nat) {
    exists off :: Room(r, off, len)
  }

  /** The longest stretch that `alloc` may leave unused, from the counters alone: the whole
      buffer when nothing is live, what lies above the upper run when the blocks have wrapped
      (above the tail, if the upper run has been freed), and nothing otherwise. */
  function Unseen(r: Ring): int {
    if r.size == 0 then r.cap
    else if r.head < r.tail then 0
    else if r.size == r.tail then r.cap - r.tail
    else r.cap - (r.head + r.size - r.tail)
  }

  lemma ChainUses(blocks: seq<Block>, p: nat, q: nat, x: nat)
    requires Chain(blocks, p, q)
    ensures (exists i :: 0 <= i < |blocks| && Covers(blocks[i], x)) <==> p <= x < q
  {
    ChainSpan(blocks, p, q);
    if p <= x < q {
      var i := ChainCovers(blocks, p, q, x);
      assert Covers(blocks[i], x);
    }
  }

  /** Which bytes are in use, from the layout. */
  lemma UsedIff(r: Ring, s: Shape, x: nat)
    requires Laid(r, s)
    ensures Used(r, x) <==> if s.Flat? then r.head <= x < r.tail else x < r.tail || r.head <= x < s.top
  {
    if s.Flat? {
      ChainUses(r.live, r.head, r.tail, x);
    } else {
      var hi, lo := r.live[..s.upper], r.live[s.upper..];
      ChainUses(hi, r.head, s.top, x);
      ChainUses(lo, 0, r.tail, x);
      assert forall i :: 0 <= i < |lo| ==> lo[i] == r.live[s.upper + i];
      assert forall i :: 0 <= i < |hi| ==> hi[i] == r.live[i];
      assert forall i :: s.upper <= i < |r.live| ==> r.live[i] == lo[i - s.upper];
    }
  }

  /** A stretch avoids the bytes in use when it lies in a free interval, and only then. */
  lemma RoomIff(r: Ring, s: Shape, off: nat, len: nat)
    requires Laid(r, s) && len > 0
    ensures Room(r, off, len) <==>
            && off + len <= r.cap
            && if s.Flat? then r.head == r.tail || off + len <= r.head || r.tail <= off
               else r.tail <= off && (s.top == r.head || off + len <= r.head || s.top <= off)
  {
    forall x: nat ensures Used(r, x) <==>
                          if s.Flat? then r.head <= x < r.tail else x < r.tail || r.head <= x < s.top
    {
      UsedIff(r, s, x);
    }
    if Room(r, off, len) {
      assert !Used(r, off) && !Used(r, off + len - 1);
      if off < r.head < off + len { assert !Used(r, r.head); }
    }
  }

  lemma LaidRefusal(r: Ring, s: Shape, len: nat)
    requires Laid(r, s) && Place(r, len) == None
    ensures HasRoom(r, len) <==> len <= Unseen(r)
  {
    assert len > 0;
    if s.Wrapped? { WrappedIsNotEmpty(r, s); }
    if len <= Unseen(r) {
      var off := r.cap - len;
      RoomIff(r, s, off, len);
      assert Room(r, off, len);
    }
    if off :| Room(r, off, len) {
      RoomIff(r, s, off, len);
    }
  }

  /** Over every run: what `alloc` places was room, and what it refuses had room exactly when
      it is no longer than the unseen stretch.  While the blocks lie in one run that is never:
      a refusal then means that there is no room anywhere. */
  lemma RefusalMeansNoRoomIff(cap: nat, calls: seq<Call>, len: nat)
    ensures var r := Run(cap, calls);
            && (Place(r, len).Some? ==> Room(r, Place(r, len).value, len))
            && (Place(r, len) == None ==> (HasRoom(r, len) <==> len <= Unseen(r)))
  {
    var r := Run(cap, calls);
    var s := RunIsLaid(cap, calls);
    if Place(r, len) == None {
      LaidRefusal(r, s, len);
    } else if len > 0 {
      if s.Wrapped? { WrappedIsNotEmpty(r, s); }
      RoomIff(r, s, Place(r, len).value, len);
    }
  }

  /** `len` unused bytes that end at the head or before it. */
  ghost predicate RoomBelow(r: Ring, len: nat) {
    exists off: nat :: Room(r, off, len) && off + len <= r.head
  }

  /** Exactly when a ring that is not empty takes a block: while the blocks lie in one run, when
      there is room anywhere; when they have wrapped, when there is room below the head.  It
      goes to the tail if there is room there, and to the start of the buffer otherwise. */
  lemma AcceptsIff(cap: nat, calls: seq<Call>, len: nat)
    requires Run(cap, calls).size > 0 && len > 0
    ensures var r := Run(cap, calls);
            && (r.head < r.tail ==> (Place(r, len).Some? <==> HasRoom(r, len)))
            && (r.head >= r.tail ==> (Place(r, len).Some? <==> RoomBelow(r, len)))
            && (Place(r, len).Some? ==> Place(r, len).value == r.tail || (Place(r, len).value == 0 && r.head < r.tail))
            && (r.head < r.tail && Room(r, r.tail, len) ==> Place(r, len) == Some(r.tail))
  {
    var r := Run(cap, calls);
    var s := RunIsLaid(cap, calls);
    RefusalMeansNoRoomIff(cap, calls, len);
    if s.Wrapped? { WrappedIsNotEmpty(r, s); }
    if r.head < r.tail {
      RoomIff(r, s, r.tail, len);
    } else {
      forall off: nat ensures Room(r, off, len) && off + len <= r.head ==> r.tail <= off {
        RoomIff(r, s, off, len);
      }
      if len <= r.head - r.tail {
        RoomIff(r, s, r.tail, len);
        assert Room(r, r.tail, len) && r.tail + len <= r.head;
      }
    }
  }

  lemma RunMore(cap: nat, calls: seq<Call>, call: Call)
    ensures Run(cap, calls + [call]) == Step(Run(cap, calls), call)
  {
    assert (calls + [call])[..|calls|] == calls;
  }

  lemma RunOfFour(cap: nat, a: Call, b: Call, c: Call, d: Call)
    ensures Run(cap, [a, b, c, d]) == Step(Step(Step(Step(Fresh(cap), a), b), c), d)
  {
    assert [] + [a] == [a] && [a] + [b] == [a, b] && [a, b] + [c] == [a, b, c];
    assert [a, b, c] + [d] == [a, b, c, d];
    RunMore(cap, [], a);
    RunMore(cap, [a], b);
    RunMore(cap, [a, b], c);
    RunMore(cap, [a, b, c], d);
  }

  lemma AllocTwo(r: Ring, a: nat, b: nat)
    requires r == Fresh(r.cap) && 0 < a && 0 < b && a + b < r.cap
    ensures var s := Alloc(Alloc(r, a), b);
            && s.cap == r.cap && s.head == 0 && s.tail == s.size == a + b
            && |s.live| == 2 && s.live[0] == Block(0, a) && s.live[1] == Block(a, b)
  {
  }

  lemma FreeAndAlloc(r: Ring, a: nat, b: nat)
    requires r.head == 0 && r.tail == r.size == a + b && 0 < a && 0 < b && a + b < r.cap < a + b + a
    requires |r.live| == 2 && r.live[0] == Block(0, a) && r.live[1] == Block(a, b)
    ensures var s := Alloc(Free(r), a);
            && s.cap == r.cap && s.head == s.tail == a && s.size == a + b
            && |s.live| == 2 && s.live[0] == Block(a, b) && s.live[1] == Block(0, a)
  {
  }

  /** A wrapped ring can refuse a block for which there is room at the end of the buffer: in a
      buffer of 10, say, after blocks of 4 and 3, a free and a block of 4, it refuses 3. */
  lemma WrappedRingCanRefuse(cap: nat, a: nat, b: nat)
    requires 0 < a && 0 < b && a + b < cap < a + b + a
    ensures var r := Run(cap, [AllocCall(a), AllocCall(b), FreeCall, AllocCall(a)]);
            var len := cap - (a + b);
            Place(r, len) == None && Room(r, a + b, len)
  {
    RunOfFour(cap, AllocCall(a), AllocCall(b), FreeCall, AllocCall(a));
    AllocTwo(Fresh(cap), a, b);
    FreeAndAlloc(Alloc(Alloc(Fresh(cap), a), b), a, b);
  }

  lemma EmptyRingCanRefuse()
    ensures var r := Run(10, [AllocCall(5), FreeCall]);
            r.live == [] && r.size == 0 && Place(r, 6) == None
  {
    var calls := [AllocCall(5), FreeCall];
    assert calls[..1] == [AllocCall(5)] && [AllocCall(5)][..0] == [];
    assert Run(10, [AllocCall(5)]) == Alloc(Fresh(10), 5);
    assert Run(10, calls) == Step(Run(10, calls[..1]), FreeCall);
  }

  // ----- The object -----

  class HRingBuf {
    const len: nat
    var head: nat
    var tail: nat
    var size: nat
    ghost var live: seq<Block>
    ghost var shape: Shape

    ghost function State(): Ring
      reads this
    {
      Ring(len, head, tail, size, live)
    }

    ghost predicate Valid()
      reads this
    {
      Laid(State(), shape)
    }

    constructor (cap: nat)
      ensures Valid() && State() == Fresh(cap)
    {
      len, head, tail, size, live, shape := cap, 0, 0, 0, [], Flat;
    }

    /** Returns the offset of the new block, or nothing when it does not fit. */
    method Allocate(n: nat) returns (ret: Option<nat>)
      requires Valid()
      modifies this
      ensures Valid() && State() == Alloc(old(State()), n)
      ensures ret == Place(old(State()), n)
      ensures ret.Some? ==>
                && ret.value + n <= len
                && forall i :: 0 <= i < |old(live)| ==> Apart(old(live)[i], Block(ret.value, n))
    {
      ghost var before := State();
      ghost var s' := AllocKeepsLayout(before, shape, n);
      NewBlockIsApart(before, Alloc(before, n), s', n);
      ret := Carve(n);
      live := Alloc(before, n).live;
      shape := s';
    }

    /** The pointer arithmetic of `alloc`. */
    method Carve(n: nat) returns (ret: Option<nat>)
      modifies this`tail, this`size
      ensures ret == Place(old(State()), n)
      ensures tail == Alloc(old(State()), n).tail && size == Alloc(old(State()), n).size
    {
      ret := None;
      if head < tail || size == 0 {
        // free: from the tail to the end, and below the head
        if len - tail >= n {
          ret := Some(tail);
          tail := tail + n;
          if tail == len { tail := 0; }
        } else if head >= n {
          ret := Some(0);
          tail := n;
        }
      } else if head - tail >= n {
        // free: between tail and head
        ret := Some(tail);
        tail := tail + n;
      }
      size := size + if ret.Some? then n else 0;
    }

    /** Give back the oldest live block. */
    method Release(n: nat)
      requires Valid() && live != [] && n == live[0].len
      modifies this
      ensures Valid() && State() == Free(old(State()))
    {
      ghost var before := State();
      OldestFits(before, shape);
      ghost var s' := FreeKeepsLayout(before, shape);
      GiveBack(n);
      live := live[1..];
      shape := s';
    }

    /** The pointer arithmetic of `free`. */
    method GiveBack(n: nat)
      requires n <= size
      modifies this`head, this`size
      ensures size == old(size) - n
      ensures n > len - old(head) ==> head == n
      ensures n <= len - old(head) ==> head == if old(head) + n == len then 0 else old(head) + n
    {
      size := size - n;
      if n <= len - head {
        head := head + n;
        if head == len { head := 0; }
      } else {
        head := n;
      }
    }
  }

  lemma OldestFits(r: Ring, s: Shape)
    requires Laid(r, s) && r.live != []
    ensures r.live[0].len <= r.size
  {
    LaidIsSafe(r, s);
  }

  lemma NewBlockIsApart(r: Ring, next: Ring, s: Shape, n: nat)
    requires next == Alloc(r, n) && Laid(next, s)
    ensures var at := Place(r, n);
            at.Some? ==>
              && at.value + n <= r.cap
              && forall i :: 0 <= i < |r.live| ==> Apart(r.live[i], Block(at.value, n))
  {
    LaidIsSafe(next, s);
    var at := Place(r, n);
    if at.Some? {
      var last := |r.live|;
      assert next.live[last] == Block(at.value, n);
      forall i | 0 <= i < |r.live| ensures Apart(r.live[i], Block(at.value, n)) {
        assert Apart(next.live[i], next.live[last]);
      }
    }
  }
}

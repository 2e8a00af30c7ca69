/**
 The variable-length buffer: a byte deque kept as a window of a growable block of memory,
 which slides to the end or to the start when a push finds no room on its side.
 */
module VarBuffer {
  import opened Basics

  // ----- The deque it stands for -----

  datatype Op = PushFront(data: seq<byte>) | PushBack(data: seq<byte>) | PopFront(n: nat) | PopBack(n: nat) | Clear

  /** Popping more than there is does nothing. */
  function After(s: seq<byte>, op: Op): seq<byte> {
    match op
    case PushFront(data) => data + s
    case PushBack(data) => s + data
    case PopFront(n) => if n <= |s| then s[n..] else s
    case PopBack(n) => if n <= |s| then s[..|s| - n] else s
    case Clear => []
  }

  /** The bytes an operation hands out. */
  function Handed(s: seq<byte>, op: Op): Option<seq<byte>> {
    match op
    case PopFront(n) => if n <= |s| then Some(s[..n]) else None
    case PopBack(n) => if n <= |s| then Some(s[|s| - n..]) else None
    case _ => None
  }

  function Replay(ops: seq<Op>): seq<byte> {
    if ops == [] then [] else After(Replay(ops[..|ops| - 1]), ops[|ops| - 1])
  }

  function HandedOut(ops: seq<Op>): (r: seq<Option<seq<byte>>>)
    ensures |r| == |ops|
  {
    if ops == [] then []
    else
      var before := ops[..|ops| - 1];
      HandedOut(before) + [Handed(Replay(before), ops[|ops| - 1])]
  }

  /** Bytes pushed at the front are what a pop of that many bytes there hands out, and the pop
      undoes the push, whatever happened before. */
  lemma PushedFrontComesBack(ops: seq<Op>, data: seq<byte>)
    ensures HandedOut(ops + [PushFront(data), PopFront(|data|)]) == HandedOut(ops) + [None, Some(data)]
    ensures Replay(ops + [PushFront(data), PopFront(|data|)]) == Replay(ops)
  {
    ReplayTwo(ops, PushFront(data), PopFront(|data|));
  }

  lemma PushedBackComesBack(ops: seq<Op>, data: seq<byte>)
    ensures HandedOut(ops + [PushBack(data), PopBack(|data|)]) == HandedOut(ops) + [None, Some(data)]
    ensures Replay(ops + [PushBack(data), PopBack(|data|)]) == Replay(ops)
  {
    ReplayTwo(ops, PushBack(data), PopBack(|data|));
  }

  /** A pop of more bytes than there are hands out nothing and changes nothing. */
  lemma PopTooMany(ops: seq<Op>, n: nat)
    requires n > |Replay(ops)|
    ensures Replay(ops + [PopFront(n)]) == Replay(ops) && HandedOut(ops + [PopFront(n)]) == HandedOut(ops) + [None]
    ensures Replay(ops + [PopBack(n)]) == Replay(ops) && HandedOut(ops + [PopBack(n)]) == HandedOut(ops) + [None]
  {
    ReplayLast(ops, PopFront(n));
    ReplayLast(ops, PopBack(n));
  }

  /** Bytes come out in order, whichever end they went in at and come out of. */
  lemma InOrder(ops: seq<Op>, x: seq<byte>, y: seq<byte>, pop: Op)
    requires Replay(ops) == [] && (pop == PopFront(|x| + |y|) || pop == PopBack(|x| + |y|))
    ensures HandedOut(ops + [PushBack(y), PushFront(x)] + [pop]) == HandedOut(ops) + [None, None] + [Some(x + y)]
  {
    ReplayTwo(ops, PushBack(y), PushFront(x));
    assert [] + y == y;
    var both := ops + [PushBack(y), PushFront(x)];
    assert Replay(both) == x + y;
    ReplayLast(both, pop);
    assert (x + y)[..|x| + |y|] == x + y && (x + y)[0..] == x + y;
  }

  lemma ReplayTwo(ops: seq<Op>, x: Op, y: Op)
    ensures Replay(ops + [x, y]) == After(After(Replay(ops), x), y)
    ensures HandedOut(ops + [x, y]) == HandedOut(ops) + [Handed(Replay(ops), x), Handed(After(Replay(ops), x), y)]
  {
    ReplayLast(ops, x);
    ReplayLast(ops + [x], y);
    assert ops + [x] + [y] == ops + [x, y];
  }

  lemma ReplayLast(ops: seq<Op>, op: Op)
    ensures Replay(ops + [op]) == After(Replay(ops), op)
    ensures HandedOut(ops + [op]) == HandedOut(ops) + [Handed(Replay(ops), op)]
  {
    assert (ops + [op])[..|ops|] == ops;
  }

  function Max(a: nat, b: nat): nat {
    if a > b then a else b
  }

  // ----- The buffer -----

  class HVLBuf {
    var base: array<byte>
    var offset: nat
    var size: nat

    ghost predicate Valid()
      reads this
    {
      offset + size <= base.Length
    }

    ghost function Contents(): seq<byte>
      requires Valid()
      reads this, base
    {
      base[offset..offset + size]
    }

    constructor (cap: nat)
      ensures Valid() && Contents() == [] && fresh(base) && base.Length == cap
    {
      base := new byte[cap];
      offset, size := 0, 0;
    }

    /** Enlarge the block; the bytes stay where they are. */
    method Grow(cap: nat)
      requires Valid() && cap >= base.Length
      modifies this`base
      ensures Valid() && fresh(base) && base.Length == cap
      ensures Contents() == old(Contents())
    {
      var oldBase := base;
      var bigger := new byte[cap];
      forall i | 0 <= i < oldBase.Length {
        bigger[i] := oldBase[i];
      }
      base := bigger;
    }

    /** The bytes of the window copied to `dst`, where they may overlap themselves. */
    method MoveBytes(dst: nat)
      requires Valid() && dst + size <= base.Length
      modifies base
      ensures forall j :: dst <= j < dst + size ==> base[j] == old(Contents())[j - dst]
    {
      forall i | 0 <= i < size {
        base[dst + i] := base[offset + i];
      }
    }

    /** Move the window so that it starts at `dst`. */
    method Slide(dst: nat)
      requires Valid() && dst + size <= base.Length
      modifies base, this`offset
      ensures Valid() && offset == dst && Contents() == old(Contents())
    {
      MoveBytes(dst);
      assert base[dst..dst + size] == old(Contents());
      offset := dst;
    }

    /** Copy bytes in just before the window. */
    method Prepend(data: seq<byte>)
      requires Valid() && |data| <= offset
      modifies base, this`offset, this`size
      ensures Valid() && Contents() == data + old(Contents())
    {
      var dst := offset - |data|;
      forall i | 0 <= i < |data| {
        base[dst + i] := data[i];
      }
      offset := dst;
      size := size + |data|;
    }

    /** Copy bytes in just after the window. */
    method Append(data: seq<byte>)
      requires Valid() && offset + size + |data| <= base.Length
      modifies base, this`size
      ensures Valid() && Contents() == old(Contents()) + data
    {
      var dst := offset + size;
      forall i | 0 <= i < |data| {
        base[dst + i] := data[i];
      }
      size := size + |data|;
    }

    method PushFront(data: seq<byte>)
      requires Valid()
      modifies this, base
      ensures Valid() && Contents() == data + old(Contents())
      ensures base == old(base) || fresh(base)
      ensures base.Length ==
              if |data| > old(base.Length - size) then 2 * Max(old(base.Length), |data|) else old(base.Length)
    {
      var len := |data|;
      if len > base.Length - size {
        Grow(2 * Max(base.Length, len));
      }
      if offset < len {
        // no room in front: to the far end
        Slide(base.Length - size);
      }
      Prepend(data);
    }

    method PushBack(data: seq<byte>)
      requires Valid()
      modifies this, base
      ensures Valid() && Contents() == old(Contents()) + data
      ensures base == old(base) || fresh(base)
      ensures base.Length ==
              if |data| > old(base.Length - size) then 2 * Max(old(base.Length), |data|) else old(base.Length)
    {
      var len := |data|;
      if len > base.Length - size {
        Grow(2 * Max(base.Length, len));
      } else if len > base.Length - offset - size {
        // no room behind: to the near end
        Slide(0);
      }
      Append(data);
    }

    method PopFront(n: nat) returns (out: Option<seq<byte>>)
      requires Valid()
      modifies this`offset, this`size
      ensures Valid() && Contents() == After(old(Contents()), Op.PopFront(n))
      ensures out == Handed(old(Contents()), Op.PopFront(n))
      ensures n <= |old(Contents())| ==> out == Some(old(Contents())[..n]) && Contents() == old(Contents())[n..]
      ensures n > |old(Contents())| ==> out == None && Contents() == old(Contents())
    {
      out := None;
      ghost var s := Contents();
      if n <= size {
        out := Some(base[offset..offset + n]);
        assert base[offset..offset + n] == s[..n] && base[offset + n..offset + size] == s[n..];
        offset := offset + n;
        if offset >= base.Length { offset := 0; }
        size := size - n;
      }
    }

    method PopBack(n: nat) returns (out: Option<seq<byte>>)
      requires Valid()
      modifies this`size
      ensures Valid() && Contents() == After(old(Contents()), Op.PopBack(n))
      ensures out == Handed(old(Contents()), Op.PopBack(n))
      ensures n <= |old(Contents())| ==>
                var kept := |old(Contents())| - n;
                out == Some(old(Contents())[kept..]) && Contents() == old(Contents())[..kept]
      ensures n > |old(Contents())| ==> out == None && Contents() == old(Contents())
    {
      out := None;
      ghost var s := Contents();
      if n <= size {
        out := Some(base[offset + size - n..offset + size]);
        assert base[offset + size - n..offset + size] == s[size - n..];
        size := size - n;
      }
    }

    method Reset()
      requires Valid()
      modifies this`offset, this`size
      ensures Valid() && Contents() == []
    {
      offset, size := 0, 0;
    }

    method Perform(op: Op) returns (out: Option<seq<byte>>)
      requires Valid()
      modifies this, base
      ensures Valid() && Contents() == After(old(Contents()), op)
      ensures out == Handed(old(Contents()), op)
      ensures base == old(base) || fresh(base)
    {
      out := None;
      match op {
        case PushFront(data) => PushFront(data);
        case PushBack(data) => PushBack(data);
        case PopFront(n) => out := PopFront(n);
        case PopBack(n) => out := PopBack(n);
        case Clear => Reset();
      }
    }
  }

  /** On any buffer, however its bytes lie and whether or not the push has to move them or to
      grow the block, popping as many bytes as were pushed at the same end undoes the push. */
  method PopUndoesPush(buf: HVLBuf, data: seq<byte>, atFront: bool) returns (out: Option<seq<byte>>)
    requires buf.Valid()
    modifies buf, buf.base
    ensures buf.Valid() && buf.Contents() == old(buf.Contents()) && out == Some(data)
  {
    if atFront {
      buf.PushFront(data);
      out := buf.PopFront(|data|);
    } else {
      buf.PushBack(data);
      out := buf.PopBack(|data|);
    }
  }

  /** Every sequence of operations: the buffer hands out and ends up holding exactly what
      the byte deque would, from any initial capacity. */
  method Drive(cap: nat, ops: seq<Op>) returns (outs: seq<Option<seq<byte>>>, left: seq<byte>)
    ensures outs == HandedOut(ops) && left == Replay(ops)
  {
    var buf := new HVLBuf(cap);
    outs := [];
    assert ops[..0] == [];
    for n := 0 to |ops|
      invariant buf.Valid() && fresh(buf) && fresh(buf.base)
      invariant buf.Contents() == Replay(ops[..n]) && outs == HandedOut(ops[..n])
    {
      assert ops[..n + 1][..n] == ops[..n];
      var out := buf.Perform(ops[n]);
      outs := outs + [out];
    }
    assert ops[..|ops|] == ops;
    left := buf.base[buf.offset..buf.offset + buf.size];
  }
}

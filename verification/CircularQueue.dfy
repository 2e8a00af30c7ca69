/** A circular buffer that overruns its oldest item when full. */
module CircularQueue {
  import opened Basics

  lemma WrapOnce(i: nat, n: nat)
    requires i < 2 * n
    ensures i % n == if i < n then i else i - n
  {
    if i >= n {
      assert i == n + (i - n);
    }
  }

  /** The items from `head` up to `tail`, going round. */
  ghost function Ring<T>(s: seq<T>, head: nat, tail: nat): seq<T>
    requires head <= |s| && tail <= |s|
  {
    if tail >= head then s[head..tail] else s[head..] + s[..tail]
  }

  function Step(i: nat, n: nat): nat {
    if i + 1 == n then 0 else i + 1
  }

  /** Writing at the tail and stepping it appends the item. */
  lemma RingAppend<T>(s: seq<T>, head: nat, tail: nat, item: T)
    requires head < |s| && tail < |s| && Step(tail, |s|) != head
    ensures Ring(s[tail := item], head, Step(tail, |s|)) == Ring(s, head, tail) + [item]
  {
    var s' := s[tail := item];
    if tail < head {
      assert s'[head..] == s[head..] && s'[..tail + 1] == s[..tail] + [item];
    } else if tail + 1 == |s| {
      assert s'[head..] == s[head..tail] + [item] && s'[..0] == [];
    } else {
      assert s'[head..tail + 1] == s[head..tail] + [item];
    }
  }

  /** If the tail then meets the head, the head steps too and the oldest item is gone. */
  lemma RingOverrun<T>(s: seq<T>, head: nat, tail: nat, item: T)
    requires head < |s| && tail < |s| && Step(tail, |s|) == head
    ensures Ring(s[tail := item], Step(head, |s|), head) == (Ring(s, head, tail) + [item])[1..]
    ensures |Ring(s, head, tail)| == |s| - 1
  {
    var s' := s[tail := item];
    if |s| == 1 {
      assert Ring(s', 0, 0) == [] && Ring(s, 0, 0) == [];
    } else if head == 0 {
      assert s'[1..] == s[1..tail] + [item];
      DropOne(s[..tail], item);
      assert s[..tail][1..] == s[1..tail];
      assert Ring(s', 1, 0) == s'[1..] + [] == s'[1..];
    } else {
      assert s'[..head] == s[..tail] + [item];
      assert s'[head + 1..] == s[head + 1..] == s[head..][1..];
      DropOne(s[head..] + s[..tail], item);
      assert (s[head..] + s[..tail])[1..] == s[head + 1..] + s[..tail];
      assert (s[head + 1..] + s[..tail]) + [item] == s[head + 1..] + (s[..tail] + [item]);
      if head + 1 == |s| {
        assert s[head + 1..] == [] && [] + s'[..head] == s'[..head];
      }
    }
  }

  lemma DropOne<T>(c: seq<T>, item: T)
    requires c != []
    ensures (c + [item])[1..] == c[1..] + [item]
  {
  }

  lemma RingRoom<T>(s: seq<T>, head: nat, tail: nat)
    requires head < |s| && tail < |s|
    ensures |Ring(s, head, tail)| == |s| - 1 <==> Step(tail, |s|) == head
    ensures |Ring(s, head, tail)| < |s|
  {
  }

  /** What `PushBack` does to the view: the new tail, the new head and the items between. */
  lemma PushEffect<T>(s: seq<T>, head: nat, tail: nat, item: T)
    requires head < |s| && tail < |s|
    ensures var t := Step(tail, |s|);
            var h := if t == head then Step(head, |s|) else head;
            && Ring(s[tail := item], h, t) == Slid(Ring(s, head, tail), item, |s| - 1)
            && (t == head <==> |Ring(s, head, tail)| == |s| - 1)
  {
    RingRoom(s, head, tail);
    if Step(tail, |s|) == head { RingOverrun(s, head, tail, item); } else { RingAppend(s, head, tail, item); }
  }

  /** A circular view of an array.  One slot is reserved to tell full from empty; a queue made
      without a size has no slots and ignores pushes. */
  class CircularQ<T(0)> {
    const maxItems: nat
    var head: nat
    var tail: nat
    var overrunCounter: nat
    const v: array<T>

    ghost predicate Valid()
      reads this
    {
      && v.Length == maxItems
      && (if maxItems == 0 then head == tail == 0 else head < maxItems && tail < maxItems)
    }

    ghost function Contents(): seq<T>
      requires Valid()
      reads this, v
    {
      Ring(v[..], head, tail)
    }

    constructor (items: nat)
      ensures Valid() && Contents() == [] && maxItems == items + 1 && overrunCounter == 0 && fresh(v)
    {
      maxItems := items + 1;
      v := new T[items + 1];
      head, tail, overrunCounter := 0, 0, 0;
    }

    constructor Disabled()
      ensures Valid() && Contents() == [] && maxItems == 0 && overrunCounter == 0 && fresh(v)
    {
      maxItems := 0;
      v := new T[0];
      head, tail, overrunCounter := 0, 0, 0;
    }

    /** The slot after slot `i`, going round. */
    method After(i: nat) returns (j: nat)
      requires i < maxItems
      ensures j == Step(i, maxItems)
    {
      WrapOnce(i + 1, maxItems);
      j := (i + 1) % maxItems;
    }

    /** Write to the slot at the tail. */
    method Store(item: T)
      requires Valid() && maxItems > 0
      modifies v
      ensures v[..] == old(v[..])[tail := item]
    {
      v[tail] := item;
    }

    /** Append an item; with no room left the oldest one goes and is counted. */
    method PushBack(item: T)
      requires Valid()
      modifies this, v
      ensures Valid()
      ensures maxItems == 0 ==> Contents() == old(Contents()) && overrunCounter == old(overrunCounter)
      ensures maxItems > 0 ==>
                && Contents() == Slid(old(Contents()), item, maxItems - 1)
                && overrunCounter == old(overrunCounter) + if |old(Contents())| == maxItems - 1 then 1 else 0
    {
      if maxItems > 0 {
        PushEffect(v[..], head, tail, item);
        Store(item);
        tail := After(tail);
        if tail == head {
          head := After(head);
          overrunCounter := overrunCounter + 1;
        }
      }
    }

    function Size(): (n: nat)
      requires Valid()
      reads this, v
      ensures n == |Contents()|
    {
      if tail >= head then tail - head else maxItems - (head - tail)
    }

    predicate Full()
      requires Valid()
      reads this, v
      ensures Full() <==> maxItems > 0 && |Contents()| == maxItems - 1
    {
      if maxItems > 0 then
        WrapOnce(tail + 1, maxItems);
        (tail + 1) % maxItems == head
      else false
    }

    predicate Empty()
      requires Valid()
      reads this, v
      ensures Empty() <==> Contents() == []
    {
      tail == head
    }

    function At(i: nat): (x: T)
      requires Valid() && i < Size()
      reads this, v
      ensures x == Contents()[i]
    {
      WrapOnce(head + i, maxItems);
      v[(head + i) % maxItems]
    }

    function Front(): (x: T)
      requires Valid() && !Empty()
      reads this, v
      ensures x == Contents()[0]
    {
      v[head]
    }

    method PopFront()
      requires Valid() && !Empty()
      modifies this`head
      ensures Valid() && Contents() == old(Contents())[1..]
    {
      head := After(head);
    }
  }
}

/** The ring buffer behind the message queue: one slot more than its capacity, kept free as the full marker. */
module CircularQueue {
  import opened Powers
  import QueueLaw

  /** Indices run around the buffer at most once. */
  function Around(i: nat, m: nat): (k: nat)
    requires i < 2 * m
    ensures k == if i < m then i else i - m
  {
    if i < m then DivUnique(i, m, 0, i); i % m else DivUnique(i, m, 1, i - m); i % m
  }

  /** How many items lie between head and tail. */
  function Used(head: nat, tail: nat, m: nat): (n: nat)
    requires head < m && tail < m
    ensures n < m
  {
    if tail >= head then tail - head else m - (head - tail)
  }

  /** The n items from head on, around the end of the buffer. */
  function Window<T>(w: seq<T>, head: nat, n: nat): (s: seq<T>)
    requires head < |w| && n <= |w|
    ensures |s| == n && forall i :: 0 <= i < n ==> s[i] == w[Around(head + i, |w|)]
  {
    seq(n, i requires 0 <= i < n => w[Around(head + i, |w|)])
  }

  /** Writing the slot behind the last item appends to the window. */
  lemma WindowPush<T>(w: seq<T>, head: nat, n: nat, x: T)
    requires head < |w| && n < |w|
    ensures Window(w[Around(head + n, |w|) := x], head, n + 1) == Window(w, head, n) + [x]
  {
  }

  /** Moving head on takes the oldest item out of the window. */
  lemma WindowPop<T>(w: seq<T>, head: nat, n: nat)
    requires head < |w| && 0 < n <= |w|
    ensures Window(w, Around(head + 1, |w|), n - 1) == Window(w, head, n)[1..]
  {
  }

  lemma PushedIs<T>(items: seq<T>, capacity: nat, x: T)
    requires |items| <= capacity
    ensures QueueLaw.Push(items, capacity, x) == if |items| == capacity then (items + [x])[1..] else items + [x]
  {
  }

  /** The tail is where the next item goes; moving it on to the head means that the buffer was full. */
  lemma Indices(head: nat, tail: nat, m: nat)
    requires head < m && tail < m
    ensures var n, next := Used(head, tail, m), Around(tail + 1, m);
            && Around(head + n, m) == tail && next < m
            && (next == head <==> n == m - 1)
            && (next == head ==> Around(head + 1, m) < m && Used(Around(head + 1, m), next, m) == n)
            && (next != head ==> Used(head, next, m) == n + 1)
  {
    hide Around;
  }

  /** Writing the slot at the tail and moving on, the head too if need be, pushes onto the contents. */
  lemma PushWindow<T>(w: seq<T>, head: nat, tail: nat, item: T)
    requires head < |w| && tail < |w|
    ensures var m := |w|;
            var next := Around(tail + 1, m);
            var first := if next == head then Around(head + 1, m) else head;
            var items := Window(w, head, Used(head, tail, m));
            && next < m && first < m
            && (next == head <==> |items| == m - 1)
            && Window(w[tail := item], first, Used(first, next, m)) == QueueLaw.Push(items, m - 1, item)
  {
    hide Around, Window, Used, QueueLaw.Push;
    var n := Used(head, tail, |w|);
    Indices(head, tail, |w|);
    PushedIs(Window(w, head, n), |w| - 1, item);
    WindowPush(w, head, n, item);
    WindowPop(w[tail := item], head, n + 1);
  }

  lemma PopWindow<T>(w: seq<T>, head: nat, tail: nat)
    requires head < |w| && tail < |w|
    ensures var m := |w|; var next := Around(head + 1, m); var items := Window(w, head, Used(head, tail, m));
            && next < m
            && (items != [] ==> Window(w, next, Used(next, tail, m)) == items[1..])
  {
    hide Around, Window;
    if Used(head, tail, |w|) > 0 {
      WindowPop(w, head, Used(head, tail, |w|));
    }
  }

  class CircularQ<T(0)> {
    var maxItems: nat
    var head: nat
    var tail: nat
    var overrunCounter: nat
    var v: array<T>

    ghost predicate Valid()
      reads this
    {
      if maxItems == 0 then head == 0 && tail == 0
      else head < maxItems && tail < maxItems && v.Length == maxItems
    }

    function Capacity(): nat
      reads this
    {
      if maxItems == 0 then 0 else maxItems - 1
    }

    /** The stored items, oldest first. */
    ghost function Contents(): (s: seq<T>)
      requires Valid()
      reads this, v
      ensures |s| <= Capacity()
    {
      if maxItems == 0 then [] else Window(v[..], head, Used(head, tail, maxItems))
    }

    constructor Disabled()
      ensures Valid() && Contents() == [] && maxItems == 0 && overrunCounter == 0 && fresh(v)
    {
      maxItems, head, tail, overrunCounter := 0, 0, 0, 0;
      v := new T[0];
    }

    constructor (capacity: nat)
      ensures Valid() && Contents() == [] && Capacity() == capacity && maxItems > 0
      ensures overrunCounter == 0 && fresh(v)
    {
      maxItems, head, tail, overrunCounter := capacity + 1, 0, 0, 0;
      v := new T[capacity + 1];
    }

    /** Takes over the other queue and leaves that one disabled. */
    method MoveFrom(other: CircularQ<T>)
      requires other.Valid() && other != this
      modifies this, other
      ensures Valid() && maxItems == old(other.maxItems) && v == old(other.v)
      ensures Contents() == old(other.Contents()) && overrunCounter == old(other.overrunCounter)
      ensures other.Valid() && other.maxItems == 0 && other.overrunCounter == 0
    {
      maxItems, head, tail := other.maxItems, other.head, other.tail;
      overrunCounter, v := other.overrunCounter, other.v;
      other.maxItems, other.head, other.tail, other.overrunCounter := 0, 0, 0, 0;
    }

    method PushBack(item: T)
      requires Valid()
      modifies this, v
      ensures Valid() && maxItems == old(maxItems) && v == old(v)
      ensures maxItems == 0 ==> Contents() == old(Contents()) && overrunCounter == old(overrunCounter)
      ensures maxItems > 0 ==> Contents() == QueueLaw.Push(old(Contents()), Capacity(), item)
      ensures maxItems > 0 ==>
                Contents() == if |old(Contents())| < Capacity() then old(Contents()) + [item]
                              else (old(Contents()) + [item])[1..]
      ensures maxItems > 0 ==>
                overrunCounter == old(overrunCounter) + (if |old(Contents())| == Capacity() then 1 else 0)
    {
      hide Around, Window, Used, QueueLaw.Push;
      if maxItems > 0 {
        ghost var w := v[..];
        PushWindow(w, head, tail, item);
        PushedIs(Contents(), Capacity(), item);
        v[tail] := item;
        assert v[..] == w[tail := item];
        tail := Around(tail + 1, maxItems);
        if tail == head {
          head := Around(head + 1, maxItems);
          overrunCounter := overrunCounter + 1;
        }
      }
    }

    method Front() returns (item: T)
      requires Valid() && Contents() != []
      ensures item == Contents()[0]
    {
      item := v[head];
    }

    method Size() returns (n: nat)
      requires Valid()
      ensures n == |Contents()|
    {
      n := if tail >= head then tail - head else maxItems - (head - tail);
    }

    method At(i: nat) returns (item: T)
      requires Valid() && i < |Contents()|
      ensures item == Contents()[i]
    {
      hide Around;
      item := v[Around(head + i, maxItems)];
    }

    method PopFront()
      requires Valid() && Contents() != []
      modifies this
      ensures Valid() && maxItems == old(maxItems) && v == old(v) && overrunCounter == old(overrunCounter)
      ensures Contents() == old(Contents())[1..]
    {
      hide Around, Window, Used;
      PopWindow(v[..], head, tail);
      head := Around(head + 1, maxItems);
    }

    method Empty() returns (b: bool)
      requires Valid()
      ensures b <==> Contents() == []
    {
      b := tail == head;
    }

    method Full() returns (b: bool)
      requires Valid()
      ensures b <==> maxItems > 0 && |Contents()| == Capacity()
    {
      hide Around;
      if maxItems > 0 {
        return Around(tail + 1, maxItems) == head;
      }
      b := false;
    }
  }
}

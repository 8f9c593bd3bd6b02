/** A bounded first-in first-out queue that gives up its oldest item when it is full, and its history. */
module QueueLaw {

  /** The items after x has been pushed; a full queue loses its oldest one. */
  function Push<T>(items: seq<T>, capacity: nat, x: T): (r: seq<T>)
    ensures |items| <= capacity ==> |r| <= capacity
  {
    var all := items + [x];
    if |all| > capacity then all[1..] else all
  }

  predicate Full<T>(items: seq<T>, capacity: nat) {
    |items| >= capacity
  }

  /**
   * All that a queue has been through, with the counter it keeps of its overruns: fate says of
   * each item that left whether it was popped.
   */
  datatype History<T> = History(
    capacity: nat, items: seq<T>, overruns: nat, pushed: seq<T>, popped: seq<T>, lost: seq<T>, fate: seq<bool>)
  {
    function Push(x: T): History<T> {
      var all := items + [x];
      if |all| > capacity
      then History(capacity, all[1..], overruns + 1, pushed + [x], popped, lost + [all[0]], fate + [false])
      else History(capacity, all, overruns, pushed + [x], popped, lost, fate)
    }

    function Pop(): History<T>
      requires items != []
    {
      History(capacity, items[1..], overruns, pushed, popped + [items[0]], lost, fate + [true])
    }
  }

  function Fresh<T>(capacity: nat): History<T> {
    History(capacity, [], 0, [], [], [], [])
  }

  /** The elements of s whose mark is b, in order. */
  function Marked<T>(s: seq<T>, marks: seq<bool>, b: bool): seq<T>
    requires |s| == |marks|
  {
    if s == [] then []
    else
      var k := |s| - 1;
      Marked(s[..k], marks[..k], b) + (if marks[k] == b then [s[k]] else [])
  }

  lemma {:induction false} MarkedCounts<T>(s: seq<T>, marks: seq<bool>)
    requires |s| == |marks|
    ensures |Marked(s, marks, true)| + |Marked(s, marks, false)| == |s|
    ensures multiset(Marked(s, marks, true)) + multiset(Marked(s, marks, false)) == multiset(s)
  {
    if s == [] {
    } else {
      var k := |s| - 1;
      MarkedCounts(s[..k], marks[..k]);
      MarkedLast(s, marks, true);
      MarkedLast(s, marks, false);
      hide Marked;
      assert s == s[..k] + [s[k]];
      OneMoreMarked(s[..k], s[k], Marked(s[..k], marks[..k], true), Marked(s[..k], marks[..k], false));
    }
  }

  lemma OneMoreMarked<T>(all: seq<T>, x: T, popped: seq<T>, lost: seq<T>)
    requires multiset(popped) + multiset(lost) == multiset(all)
    ensures multiset(popped + [x]) + multiset(lost) == multiset(all + [x])
    ensures multiset(popped) + multiset(lost + [x]) == multiset(all + [x])
  {
    assert multiset(all + [x]) == multiset(all) + multiset{x};
    assert multiset(popped + [x]) == multiset(popped) + multiset{x};
    assert multiset(lost + [x]) == multiset(lost) + multiset{x};
  }

  lemma MarkedLast<T>(s: seq<T>, marks: seq<bool>, b: bool)
    requires |s| == |marks| && s != []
    ensures var k := |s| - 1;
            Marked(s, marks, b)
            == if marks[k] == b then Marked(s[..k], marks[..k], b) + [s[k]] else Marked(s[..k], marks[..k], b)
  {
    var k := |s| - 1;
    assert Marked(s[..k], marks[..k], b) + [] == Marked(s[..k], marks[..k], b);
  }

  lemma {:induction false} AllMarked<T>(s: seq<T>, marks: seq<bool>)
    requires |s| == |marks| && |Marked(s, marks, false)| == 0
    ensures Marked(s, marks, true) == s
  {
    if s == [] {
    } else {
      var k := |s| - 1;
      AllMarked(s[..k], marks[..k]);
      assert s == s[..k] + [s[k]];
    }
  }

  /**
   * What every run keeps: the queue holds a suffix of what was pushed; the rest was popped or
   * lost, each in push order, and the counter counts what was lost.
   */
  ghost predicate Law<T>(h: History<T>) {
    && |h.items| <= h.capacity && |h.fate| + |h.items| == |h.pushed|
    && h.items == h.pushed[|h.fate|..] && h.overruns == |h.lost|
    && h.popped == Marked(h.pushed[..|h.fate|], h.fate, true)
    && h.lost == Marked(h.pushed[..|h.fate|], h.fate, false)
  }

  lemma FreshLaw<T>(capacity: nat)
    ensures Law(Fresh<T>(capacity))
  {
  }

  lemma PushLaw<T>(h: History<T>, x: T)
    requires Law(h)
    ensures Law(h.Push(x))
    ensures h.Push(x).items == Push(h.items, h.capacity, x)
    ensures h.Push(x).pushed == h.pushed + [x] && h.Push(x).popped == h.popped
    ensures if |h.items| < h.capacity then h.Push(x).items == h.items + [x] && h.Push(x).overruns == h.overruns
            else h.Push(x).items == (h.items + [x])[1..] && h.Push(x).overruns == h.overruns + 1
  {
    var g := h.Push(x);
    var k := |h.fate|;
    assert h.pushed[..k] == g.pushed[..k];
    assert h.items + [x] == g.pushed[k..];
    if |h.items + [x]| > h.capacity {
      LeaveLaw(g.pushed, h.fate, false);
    }
  }

  lemma PopLaw<T>(h: History<T>)
    requires Law(h) && h.items != []
    ensures Law(h.Pop())
    ensures h.Pop().popped == h.popped + [h.items[0]] && h.Pop().items == h.items[1..] && h.Pop().pushed == h.pushed
  {
    LeaveLaw(h.pushed, h.fate, true);
  }

  /** The next item leaves with mark b. */
  lemma LeaveLaw<T>(pushed: seq<T>, fate: seq<bool>, b: bool)
    requires |fate| < |pushed|
    ensures var k := |fate|; var f := fate + [b];
            && Marked(pushed[..k + 1], f, b) == Marked(pushed[..k], fate, b) + [pushed[k]]
            && Marked(pushed[..k + 1], f, !b) == Marked(pushed[..k], fate, !b)
  {
    var k := |fate|;
    assert pushed[..k + 1][..k] == pushed[..k] && (fate + [b])[..k] == fate;
  }

  /** Nothing is counted twice or forgotten, and only overrun items are missing. */
  lemma Conservation<T>(h: History<T>)
    requires Law(h)
    ensures |h.pushed| == |h.popped| + h.overruns + |h.items|
    ensures multiset(h.pushed) == multiset(h.popped) + multiset(h.lost) + multiset(h.items)
    ensures h.overruns == 0 ==> h.pushed == h.popped + h.items
  {
    var front := h.pushed[..|h.fate|];
    MarkedCounts(front, h.fate);
    assert h.pushed == front + h.items;
    if h.overruns == 0 {
      AllMarked(front, h.fate);
    }
  }

  /** What has been popped came out in push order; an emptied queue has given out all it did not lose. */
  lemma PoppedInOrder<T>(h: History<T>)
    requires Law(h)
    ensures |h.fate| <= |h.pushed| && h.popped == Marked(h.pushed[..|h.fate|], h.fate, true)
    ensures h.overruns == 0 ==> h.popped <= h.pushed
    ensures h.items == [] ==> |h.fate| == |h.pushed| && h.popped == Marked(h.pushed, h.fate, true)
  {
    Conservation(h);
    hide Marked;
    if h.items == [] {
      assert h.pushed[..|h.fate|] == h.pushed;
    }
  }

  datatype Operation<T> = PushOp(x: T, blocking: bool) | PopOp

  /** Blocking pushes wait until the queue is not full; pops wait until it is not empty. */
  predicate Allowed<T>(h: History<T>, op: Operation<T>) {
    match op
    case PushOp(_, blocking) => blocking ==> !Full(h.items, h.capacity)
    case PopOp => h.items != []
  }

  function Perform<T>(h: History<T>, op: Operation<T>): History<T>
    requires Allowed(h, op)
  {
    match op
    case PushOp(x, _) => h.Push(x)
    case PopOp => h.Pop()
  }

  ghost predicate RunFrom<T>(h: History<T>, ops: seq<Operation<T>>, end: History<T>)
    decreases |ops|
  {
    if ops == [] then h == end else Allowed(h, ops[0]) && RunFrom(Perform(h, ops[0]), ops[1..], end)
  }

  lemma {:induction false} EveryRunKeepsLaw<T>(h: History<T>, ops: seq<Operation<T>>, end: History<T>)
    requires Law(h) && RunFrom(h, ops, end)
    ensures Law(end) && end.capacity == h.capacity
    ensures (forall i :: 0 <= i < |ops| ==> ops[i].PushOp? ==> ops[i].blocking) ==>
              end.lost == h.lost && end.overruns == h.overruns
    decreases |ops|
  {
    if ops == [] {
    } else {
      if ops[0].PushOp? {
        PushLaw(h, ops[0].x);
      } else {
        PopLaw(h);
      }
      EveryRunKeepsLaw(Perform(h, ops[0]), ops[1..], end);
    }
  }

  /** From an empty queue, what blocking pushes and pops take out is a prefix of what was put in. */
  lemma BlockingRunsLoseNothing<T>(capacity: nat, ops: seq<Operation<T>>, end: History<T>)
    requires RunFrom(Fresh<T>(capacity), ops, end)
    requires forall i :: 0 <= i < |ops| ==> ops[i].PushOp? ==> ops[i].blocking
    ensures end.overruns == 0 && end.lost == [] && end.popped <= end.pushed && end.pushed == end.popped + end.items
  {
    FreshLaw<T>(capacity);
    EveryRunKeepsLaw(Fresh<T>(capacity), ops, end);
    Conservation(end);
  }
}

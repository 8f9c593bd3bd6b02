/**
 * The monitor sections of the blocking queue, as they run while the mutex is held. Each performs
 * one step on the history of the queue; the thread pool's state machine takes the same steps.
 */
module BlockingQueue {
  import opened CircularQueue
  import opened QueueLaw

  datatype Dequeued<T> = Item(item: T) | Nothing

  class MpmcBlockingQueue<T(0)> {
    const q: CircularQ<T>
    ghost var history: History<T>

    ghost predicate Valid()
      reads this, q, q.v
    {
      && q.Valid() && q.maxItems > 0
      && Law(history) && history.capacity == q.Capacity()
      && history.items == q.Contents() && history.overruns == q.overrunCounter
    }

    ghost function Items(): seq<T>
      requires Valid()
      reads this, q, q.v
    {
      q.Contents()
    }

    constructor (maxItems: nat)
      ensures Valid() && fresh(q) && fresh(q.v) && Items() == [] && q.Capacity() == maxItems
      ensures q.overrunCounter == 0 && history == Fresh(maxItems)
    {
      q := new CircularQ<T>(maxItems);
      history := Fresh(maxItems);
      FreshLaw<T>(maxItems);
    }

    /** enqueue: waits while the queue is full, which is reported instead of waited for. */
    method TryEnqueue(item: T) returns (pushed: bool)
      requires Valid()
      modifies `history, q, q.v
      ensures Valid() && q.v == old(q.v) && q.maxItems == old(q.maxItems)
      ensures history == if pushed then old(history).Push(item) else old(history)
      ensures history.pushed == if pushed then old(history).pushed + [item] else old(history).pushed
      ensures pushed <==> |old(Items())| < q.Capacity()
      ensures Items() == if pushed then old(Items()) + [item] else old(Items())
      ensures q.overrunCounter == old(q.overrunCounter)
    {
      var full := q.Full();
      if full {
        return false;
      }
      PushLaw(history, item);
      history := history.Push(item);
      q.PushBack(item);
      pushed := true;
    }

    method EnqueueNowait(item: T)
      requires Valid()
      modifies `history, q, q.v
      ensures Valid() && q.v == old(q.v) && q.maxItems == old(q.maxItems)
      ensures history == old(history).Push(item)
      ensures history.pushed == old(history).pushed + [item]
      ensures if |old(Items())| < q.Capacity()
              then Items() == old(Items()) + [item] && q.overrunCounter == old(q.overrunCounter)
              else Items() == (old(Items()) + [item])[1..] && q.overrunCounter == old(q.overrunCounter) + 1
    {
      PushLaw(history, item);
      history := history.Push(item);
      q.PushBack(item);
    }

    /** dequeue_for: waits while the queue is empty, which is reported instead of waited for. */
    method TryDequeue() returns (r: Dequeued<T>)
      requires Valid()
      modifies `history, q
      ensures Valid() && q.v == old(q.v) && q.maxItems == old(q.maxItems)
      ensures history == if old(Items()) == [] then old(history) else old(history).Pop()
      ensures if old(Items()) == [] then r == Nothing && Items() == [] && history.popped == old(history).popped
              else r == Item(old(Items())[0]) && Items() == old(Items())[1..]
                   && history.popped == old(history).popped + [old(Items())[0]]
      ensures q.overrunCounter == old(q.overrunCounter)
    {
      var empty := q.Empty();
      if empty {
        return Nothing;
      }
      PopLaw(history);
      history := history.Pop();
      var item := q.Front();
      q.PopFront();
      r := Item(item);
    }

    /** Everything pushed has been popped, has been overrun and counted, or is still stored. */
    lemma Counted()
      requires Valid()
      ensures |history.pushed| == |history.popped| + q.overrunCounter + |Items()|
      ensures multiset(history.pushed) == multiset(history.popped) + multiset(history.lost) + multiset(Items())
      ensures q.overrunCounter == 0 ==> history.pushed == history.popped + Items()
    {
      Conservation(history);
    }

    method OverrunCounter() returns (n: nat)
      requires Valid()
      ensures n == |history.lost| && n + |history.popped| + |Items()| == |history.pushed|
    {
      Counted();
      n := q.overrunCounter;
    }

    method Size() returns (n: nat)
      requires Valid()
      ensures n == |Items()|
    {
      n := q.Size();
    }
  }
}

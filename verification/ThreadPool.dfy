/**
 * The asynchronous logging pool as a state machine: threads that post messages, worker threads
 * that take and process them, a bounded queue guarded by a monitor with two condition variables,
 * and a destructor that posts one terminate message for each worker and then joins them.
 *
 * A monitor section is one step. Notifications come after the section, as steps of their own.
 */
module ThreadPool {
  import opened QueueLaw
  import opened Totals

  datatype Message = Log(id: nat) | Flush(id: nat) | Terminate

  /**
   * A producer is idle, sleeps on pop_cv with the message it wants to post, has been woken and is
   * about to test the queue again, or has posted and still owes a notification on push_cv.
   */
  datatype Producer = Idle | Sleeping(m: Message) | Woken(m: Message) | OwesPush

  /**
   * A worker is about to enter dequeue_for, sleeps on push_cv, has been woken, has left the wait
   * because its time was up, has taken a message and still owes a notification on pop_cv, holds
   * a message to process, or has left its loop.
   */
  datatype Worker = Ready | Asleep | Awake | TimedOut | OwesPop(m: Message) | Holding(m: Message) | Exited

  /** The producer at index 0 is the thread that will run the destructor. */
  datatype Pool = Pool(
    queue: History<Message>, workers: seq<Worker>, producers: seq<Producer>,
    destroying: bool, posted: nat, joined: nat, processed: seq<Message>)

  datatype Action =
    | Post(p: nat, m: Message)             // enqueue: push, or sleep if the queue is full
    | PostNow(p: nat, m: Message)          // enqueue_nowait: push, giving up the oldest message if full
    | Retry(p: nat)                        // a woken producer tests the queue again
    | WakeProducer(p: nat)                 // a spurious wakeup
    | NotifyPush(p: nat, sleeper: nat)     // notify_one on push_cv
    | NotifyPushNobody(p: nat)
    | Take(w: nat)                         // the monitor section of dequeue_for
    | GiveUp(w: nat)                       // woken, but the queue is empty and the time is up
    | TimeOut(w: nat)
    | WakeWorker(w: nat)                   // a spurious wakeup
    | NotifyPop(w: nat, sleeper: nat)      // notify_one on pop_cv
    | NotifyPopNobody(w: nat)
    | Process(w: nat)                      // process_next_msg_ handles the message it took
    | Destroy                              // the destructor begins
    | Join                                 // it joins the next worker

  /** The constructor: it starts the given number of workers, or throws. */
  datatype Started = Running(pool: Pool) | InvalidThreads

  function Start(capacity: nat, workers: nat, producers: nat): Started {
    if workers == 0 || workers > 1000 then InvalidThreads
    else Running(Pool(QueueLaw.Fresh(capacity), seq(workers, _ => Ready), seq(producers, _ => Idle), false, 0, 0, []))
  }

  /** Who may post what: before destruction anyone, log and flush messages; then only the destructor. */
  predicate MayPost(s: Pool, p: nat, m: Message) {
    && p < |s.producers| && s.producers[p] == Idle
    && if s.destroying then p == 0 && m == Terminate && s.posted < |s.workers| else m != Terminate
  }

  predicate Enabled(s: Pool, a: Action) {
    match a
    case Post(p, m) => MayPost(s, p, m)
    case PostNow(p, m) => MayPost(s, p, m) && !s.destroying
    case Retry(p) => p < |s.producers| && s.producers[p].Woken?
    case WakeProducer(p) => p < |s.producers| && s.producers[p].Sleeping?
    case NotifyPush(p, v) =>
      p < |s.producers| && s.producers[p] == OwesPush && v < |s.workers| && s.workers[v] == Asleep
    case NotifyPushNobody(p) =>
      p < |s.producers| && s.producers[p] == OwesPush && forall v :: 0 <= v < |s.workers| ==> s.workers[v] != Asleep
    case Take(w) => w < |s.workers| && (s.workers[w] == Ready || s.workers[w] == Awake || s.workers[w] == TimedOut)
    case GiveUp(w) => w < |s.workers| && s.workers[w] == Awake && s.queue.items == []
    case TimeOut(w) => w < |s.workers| && s.workers[w] == Asleep
    case WakeWorker(w) => w < |s.workers| && s.workers[w] == Asleep
    case NotifyPop(w, q) =>
      w < |s.workers| && s.workers[w].OwesPop? && q < |s.producers| && s.producers[q].Sleeping?
    case NotifyPopNobody(w) =>
      w < |s.workers| && s.workers[w].OwesPop? && forall q :: 0 <= q < |s.producers| ==> !s.producers[q].Sleeping?
    case Process(w) => w < |s.workers| && s.workers[w].Holding?
    case Destroy => !s.destroying && forall p :: 0 <= p < |s.producers| ==> s.producers[p] == Idle
    case Join =>
      && s.destroying && s.posted == |s.workers| && s.joined < |s.workers|
      && |s.producers| > 0 && s.producers[0] == Idle && s.workers[s.joined] == Exited
  }

  /** The post has entered the queue; the producer owes a notification. */
  function PushStep(s: Pool, p: nat, m: Message): Pool
    requires p < |s.producers|
  {
    s.(queue := s.queue.Push(m), producers := s.producers[p := OwesPush],
       posted := if m == Terminate then s.posted + 1 else s.posted)
  }

  /** The section of enqueue: push unless full, else wait. */
  function PostStep(s: Pool, p: nat, m: Message): Pool
    requires p < |s.producers|
  {
    if Full(s.queue.items, s.queue.capacity) then s.(producers := s.producers[p := Sleeping(m)])
    else PushStep(s, p, m)
  }

  /** The section of dequeue_for: take a message, or wait, or report the timeout. */
  function TakeStep(s: Pool, w: nat): Pool
    requires w < |s.workers|
  {
    if s.queue.items != [] then
      s.(queue := s.queue.Pop(), workers := s.workers[w := OwesPop(s.queue.items[0])])
    else s.(workers := s.workers[w := if s.workers[w] == TimedOut then Ready else Asleep])
  }

  function Apply(s: Pool, a: Action): Pool
    requires Enabled(s, a) && |s.producers| > 0
  {
    match a
    case Post(p, m) => PostStep(s, p, m)
    case PostNow(p, m) => PushStep(s, p, m)
    case Retry(p) => PostStep(s, p, s.producers[p].m)
    case WakeProducer(p) => s.(producers := s.producers[p := Woken(s.producers[p].m)])
    case NotifyPush(p, v) => s.(producers := s.producers[p := Idle], workers := s.workers[v := Awake])
    case NotifyPushNobody(p) => s.(producers := s.producers[p := Idle])
    case Take(w) => TakeStep(s, w)
    case GiveUp(w) => s.(workers := s.workers[w := Ready])
    case TimeOut(w) => s.(workers := s.workers[w := TimedOut])
    case WakeWorker(w) => s.(workers := s.workers[w := Awake])
    case NotifyPop(w, q) =>
      s.(workers := s.workers[w := Holding(s.workers[w].m)], producers := s.producers[q := Woken(s.producers[q].m)])
    case NotifyPopNobody(w) => s.(workers := s.workers[w := Holding(s.workers[w].m)])
    case Process(w) =>
      s.(workers := s.workers[w := if s.workers[w].m == Terminate then Exited else Ready],
         processed := s.processed + [s.workers[w].m])
    case Destroy => s.(destroying := true)
    case Join => s.(joined := s.joined + 1)
  }

  // ----- what is counted -----

  function OwedPop(w: Worker): nat { if w.OwesPop? then 1 else 0 }
  function AwakeWorker(w: Worker): nat { if w == Awake then 1 else 0 }
  function OwedPush(p: Producer): nat { if p == OwesPush then 1 else 0 }
  function WokenProducer(p: Producer): nat { if p.Woken? then 1 else 0 }

  /** Terminate messages: waiting in the queue, or taken and not yet obeyed, or obeyed. */
  function IsTerminate(m: Message): nat { if m == Terminate then 1 else 0 }
  function TakenTerminate(w: Worker): nat {
    match w
    case OwesPop(m) => IsTerminate(m)
    case Holding(m) => IsTerminate(m)
    case Exited => 1
    case _ => 0
  }

  /** The message that a worker has taken and not yet processed, if any. */
  function Hand(w: Worker): seq<Message> {
    match w
    case OwesPop(m) => [m]
    case Holding(m) => [m]
    case _ => []
  }

  function Holds(m: Message): Worker -> nat {
    (w: Worker) => if Hand(w) == [m] then 1 else 0
  }

  function FreeSlots(s: Pool): int {
    s.queue.capacity - |s.queue.items|
  }

  // ----- the invariants -----

  /**
   * No wakeup is lost although notifications come after the monitor is left: as long as someone
   * sleeps, enough notifications are owed or threads already woken to use up what they wait for.
   */
  predicate NoLostWakeup(s: Pool) {
    && PopsReach(s.producers, s.workers, FreeSlots(s))
    && PushesReach(s.producers, s.workers, |s.queue.items|)
  }

  predicate PopsReach(ps: seq<Producer>, ws: seq<Worker>, free: int) {
    (exists p :: 0 <= p < |ps| && ps[p].Sleeping?) ==> Total(ws, OwedPop) + Total(ps, WokenProducer) >= free
  }

  predicate PushesReach(ps: seq<Producer>, ws: seq<Worker>, queued: int) {
    (exists w :: 0 <= w < |ws| && ws[w] == Asleep) ==> Total(ps, OwedPush) + Total(ws, AwakeWorker) >= queued
  }

  /** Terminate messages come last and only from the destructor, which waits alone. */
  predicate TerminateLast(q: seq<Message>) {
    forall i, j :: 0 <= i < j < |q| && q[i] == Terminate ==> q[j] == Terminate
  }

  predicate OnlyTerminates(q: seq<Message>) {
    forall i :: 0 <= i < |q| ==> q[i] == Terminate
  }

  predicate Roles(s: Pool) {
    && |s.producers| > 0 && |s.workers| > 0
    && s.posted <= |s.workers| && s.joined <= |s.workers|
    && (!s.destroying ==> s.posted == 0 && s.joined == 0)
    && (s.joined > 0 ==> s.posted == |s.workers| && s.producers[0] == Idle)
    && (forall p :: 0 <= p < |s.producers| ==>
          match s.producers[p]
          case Idle => true
          case OwesPush => s.destroying ==> p == 0
          case Sleeping(m) =>
            if s.destroying then p == 0 && m == Terminate && s.posted < |s.workers| else m != Terminate
          case Woken(m) => if s.destroying then p == 0 && m == Terminate && s.posted < |s.workers| else m != Terminate)
    && (forall w :: 0 <= w < s.joined ==> s.workers[w] == Exited)
  }

  /** Every posted terminate message is in the queue, in a worker's hands, or has been obeyed. */
  predicate TerminatesAccounted(s: Pool) {
    && s.posted == Total(s.queue.items, IsTerminate) + Total(s.workers, TakenTerminate)
    && TerminateLast(s.queue.items)
    && (Total(s.workers, TakenTerminate) > 0 ==> OnlyTerminates(s.queue.items))
  }

  /** What has been taken of the message m is what has been processed and what workers hold. */
  predicate Balanced(popped: seq<Message>, processed: seq<Message>, ws: seq<Worker>, m: Message) {
    multiset(popped)[m] == multiset(processed)[m] + Total(ws, Holds(m))
  }

  /** Every message that was taken is being processed or has been, exactly once. */
  ghost predicate MessagesAccounted(s: Pool) {
    && Law(s.queue)
    && (forall m :: Balanced(s.queue.popped, s.processed, s.workers, m))
    && Terminate !in s.queue.lost
  }

  ghost predicate Inv(s: Pool) {
    Roles(s) && NoLostWakeup(s) && TerminatesAccounted(s) && MessagesAccounted(s)
  }

  // ----- every step keeps the invariants -----

  /** One producer moves, unless it falls asleep: what is owed to sleepers changes with it. */
  lemma ProducerKeepsReach(ps: seq<Producer>, ws: seq<Worker>, p: nat, x: Producer, free: int, free': int,
        n: int, n': int)
    requires p < |ps| && PopsReach(ps, ws, free) && PushesReach(ps, ws, n)
    requires x.Sleeping? && !ps[p].Sleeping? ==> free' <= 0
    requires free' + WokenProducer(ps[p]) <= free + WokenProducer(x) || free' <= 0
    requires n' + OwedPush(ps[p]) <= n + OwedPush(x) || n' <= 0
    ensures PopsReach(ps[p := x], ws, free') && PushesReach(ps[p := x], ws, n')
  {
    TotalUpdate(ps, p, x, OwedPush);
    TotalUpdate(ps, p, x, WokenProducer);
    hide Total;
    var qs := ps[p := x];
    if free' > 0 && exists q :: 0 <= q < |qs| && qs[q].Sleeping? {
      var q :| 0 <= q < |qs| && qs[q].Sleeping?;
      assert ps[q].Sleeping?;
    }
  }

  lemma WorkerKeepsReach(ps: seq<Producer>, ws: seq<Worker>, w: nat, x: Worker, free: int, free': int, n: int, n': int)
    requires w < |ws| && PopsReach(ps, ws, free) && PushesReach(ps, ws, n)
    requires x == Asleep && ws[w] != Asleep ==> n' <= 0
    requires free' + OwedPop(ws[w]) <= free + OwedPop(x)
    requires n' + AwakeWorker(ws[w]) <= n + AwakeWorker(x) || n' <= 0
    ensures PopsReach(ps, ws[w := x], free') && PushesReach(ps, ws[w := x], n')
  {
    TotalUpdate(ws, w, x, OwedPop);
    TotalUpdate(ws, w, x, AwakeWorker);
    hide Total;
    var vs := ws[w := x];
    if n' > 0 && exists v :: 0 <= v < |vs| && vs[v] == Asleep {
      var v :| 0 <= v < |vs| && vs[v] == Asleep;
      assert ws[v] == Asleep;
    }
  }

  /** A notification that reaches a sleeper is paid for by the sleeper's waking. */
  lemma NotifyPushKeepsReach(ps: seq<Producer>, ws: seq<Worker>, p: nat, v: nat, free: int, n: int)
    requires p < |ps| && v < |ws| && ps[p] == OwesPush && ws[v] == Asleep
    requires PopsReach(ps, ws, free) && PushesReach(ps, ws, n)
    ensures PopsReach(ps[p := Idle], ws[v := Awake], free) && PushesReach(ps[p := Idle], ws[v := Awake], n)
  {
    WorkerKeepsReach(ps, ws, v, Awake, free, free, n, n + 1);
    ProducerKeepsReach(ps, ws[v := Awake], p, Idle, free, free, n + 1, n);
  }

  lemma NotifyPopKeepsReach(ps: seq<Producer>, ws: seq<Worker>, w: nat, q: nat, free: int, n: int)
    requires w < |ws| && q < |ps| && ws[w].OwesPop? && ps[q].Sleeping?
    requires PopsReach(ps, ws, free) && PushesReach(ps, ws, n)
    ensures var ps' := ps[q := Woken(ps[q].m)]; var ws' := ws[w := Holding(ws[w].m)];
            PopsReach(ps', ws', free) && PushesReach(ps', ws', n)
  {
    ProducerKeepsReach(ps, ws, q, Woken(ps[q].m), free, free + 1, n, n);
    WorkerKeepsReach(ps[q := Woken(ps[q].m)], ws, w, Holding(ws[w].m), free + 1, free, n, n);
  }

  /** A notification that finds nobody asleep is not missed. */
  lemma NobodyAsleep(ps: seq<Producer>, ws: seq<Worker>, free: int, n: int)
    ensures (forall w :: 0 <= w < |ws| ==> ws[w] != Asleep) ==> PushesReach(ps, ws, n)
    ensures (forall p :: 0 <= p < |ps| ==> !ps[p].Sleeping?) ==> PopsReach(ps, ws, free)
  {
  }

  lemma PostKeepsWakeups(s: Pool, p: nat, m: Message)
    requires NoLostWakeup(s) && |s.queue.items| <= s.queue.capacity
    requires p < |s.producers| && (s.producers[p] == Idle || s.producers[p].Woken?)
    ensures NoLostWakeup(PushStep(s, p, m)) && NoLostWakeup(PostStep(s, p, m))
  {
    var t := PushStep(s, p, m);
    var n, f := |s.queue.items|, FreeSlots(s);
    hide PopsReach, PushesReach;
    ProducerKeepsReach(s.producers, s.workers, p, OwesPush, f, FreeSlots(t), n, |t.queue.items|);
    if f <= 0 {
      ProducerKeepsReach(s.producers, s.workers, p, Sleeping(m), f, f, n, n);
    }
  }

  lemma TakeKeepsWakeups(s: Pool, w: nat)
    requires NoLostWakeup(s) && Enabled(s, Take(w))
    ensures NoLostWakeup(TakeStep(s, w))
  {
    var t := TakeStep(s, w);
    hide PopsReach, PushesReach;
    WorkerKeepsReach(s.producers, s.workers, w, t.workers[w], FreeSlots(s), FreeSlots(t), |s.queue.items|,
      |t.queue.items|);
  }

  lemma WakeupsKept(s: Pool, a: Action)
    requires |s.producers| > 0 && Enabled(s, a) && NoLostWakeup(s)
    requires |s.queue.items| <= s.queue.capacity
    ensures NoLostWakeup(Apply(s, a))
  {
    var t, n, f := Apply(s, a), |s.queue.items|, FreeSlots(s);
    hide PopsReach, PushesReach;
    match a
    case Post(p, m) => PostKeepsWakeups(s, p, m);
    case PostNow(p, m) => PostKeepsWakeups(s, p, m);
    case Retry(p) => PostKeepsWakeups(s, p, s.producers[p].m);
    case WakeProducer(p) => ProducerKeepsReach(s.producers, s.workers, p, t.producers[p], f, f, n, n);
    case NotifyPush(p, v) => NotifyPushKeepsReach(s.producers, s.workers, p, v, f, n);
    case NotifyPushNobody(p) =>
      ProducerKeepsReach(s.producers, s.workers, p, Idle, f, f, n, n - 1);
      NobodyAsleep(t.producers, t.workers, f, n);
    case Take(w) => TakeKeepsWakeups(s, w);
    case GiveUp(w) => WorkerKeepsReach(s.producers, s.workers, w, Ready, f, f, n, n);
    case TimeOut(w) => WorkerKeepsReach(s.producers, s.workers, w, TimedOut, f, f, n, n);
    case WakeWorker(w) => WorkerKeepsReach(s.producers, s.workers, w, Awake, f, f, n, n);
    case NotifyPop(w, q) => NotifyPopKeepsReach(s.producers, s.workers, w, q, f, n);
    case NotifyPopNobody(w) =>
      WorkerKeepsReach(s.producers, s.workers, w, t.workers[w], f, f - 1, n, n);
      NobodyAsleep(t.producers, t.workers, f, n);
    case Process(w) => WorkerKeepsReach(s.producers, s.workers, w, t.workers[w], f, f, n, n);
    case Destroy =>
    case Join =>
  }

  lemma RolesKept(s: Pool, a: Action)
    requires Roles(s) && Enabled(s, a)
    requires forall w :: 0 <= w < |s.workers| && s.workers[w] == Exited ==> s.posted > 0
    ensures Roles(Apply(s, a))
  {
    if ByProducer(a) {
      ProducerKeepsRoles(s, a);
    } else {
      WorkerActionKeepsRoles(s, a);
    }
  }

  lemma ProducerKeepsRoles(s: Pool, a: Action)
    requires Roles(s) && Enabled(s, a) && ByProducer(a)
    requires forall w :: 0 <= w < |s.workers| && s.workers[w] == Exited ==> s.posted > 0
    ensures Roles(Apply(s, a))
  {
    match a
    case Post(p, m) =>
    case PostNow(p, m) =>
    case Retry(p) =>
    case WakeProducer(p) =>
    case NotifyPush(p, v) =>
    case NotifyPushNobody(p) =>
  }

  lemma WorkerActionKeepsRoles(s: Pool, a: Action)
    requires Roles(s) && Enabled(s, a) && !ByProducer(a)
    requires forall w :: 0 <= w < |s.workers| && s.workers[w] == Exited ==> s.posted > 0
    ensures Roles(Apply(s, a))
  {
    match a
    case Take(w) =>
    case GiveUp(w) =>
    case TimeOut(w) =>
    case WakeWorker(w) =>
    case NotifyPop(w, q) =>
    case NotifyPopNobody(w) =>
    case Process(w) =>
    case Destroy =>
    case Join =>
  }

  // ----- messages are neither lost nor repeated -----

  /** Nothing moves between the queue, the workers and the processed messages. */
  lemma WorkerChangesState(s: Pool, w: nat, x: Worker)
    requires MessagesAccounted(s) && w < |s.workers|
    requires Hand(x) == Hand(s.workers[w])
    ensures MessagesAccounted(s.(workers := s.workers[w := x]))
  {
    var t := s.(workers := s.workers[w := x]);
    hide Balanced, Law;
    forall m
      ensures Balanced(t.queue.popped, t.processed, t.workers, m)
    {
      SameHandBalanced(s.queue.popped, s.processed, s.workers, w, x, m);
    }
  }

  lemma SameHandBalanced(popped: seq<Message>, processed: seq<Message>, ws: seq<Worker>, w: nat, x: Worker, m: Message)
    requires w < |ws| && Hand(x) == Hand(ws[w]) && Balanced(popped, processed, ws, m)
    ensures Balanced(popped, processed, ws[w := x], m)
  {
    TotalUpdate(ws, w, x, Holds(m));
  }

  lemma PushAccounted(s: Pool, p: nat, m: Message)
    requires MessagesAccounted(s) && p < |s.producers|
    requires !Full(s.queue.items, s.queue.capacity)
          || forall i :: 0 <= i < |s.queue.items| ==> s.queue.items[i] != Terminate
    requires m == Terminate ==> !Full(s.queue.items, s.queue.capacity)
    ensures MessagesAccounted(PushStep(s, p, m))
  {
    PushLaw(s.queue, m);
  }

  lemma OneMore(s: seq<Message>, x: Message, m: Message)
    ensures multiset(s + [x])[m] == multiset(s)[m] + (if x == m then 1 else 0)
  {
  }

  lemma TakeBalanced(popped: seq<Message>, processed: seq<Message>, ws: seq<Worker>, w: nat, first: Message, m: Message)
    requires w < |ws| && Holds(m)(ws[w]) == 0 && Balanced(popped, processed, ws, m)
    ensures Balanced(popped + [first], processed, ws[w := OwesPop(first)], m)
  {
    TotalUpdate(ws, w, OwesPop(first), Holds(m));
    OneMore(popped, first, m);
  }

  lemma ProcessBalanced(popped: seq<Message>, processed: seq<Message>, ws: seq<Worker>, w: nat, x: Worker, m: Message)
    requires w < |ws| && ws[w].Holding? && Holds(m)(x) == 0 && Balanced(popped, processed, ws, m)
    ensures Balanced(popped, processed + [ws[w].m], ws[w := x], m)
  {
    TotalUpdate(ws, w, x, Holds(m));
    OneMore(processed, ws[w].m, m);
  }

  lemma TakeAccounted(s: Pool, w: nat)
    requires MessagesAccounted(s) && Enabled(s, Take(w))
    ensures MessagesAccounted(TakeStep(s, w))
  {
    var t := TakeStep(s, w);
    if s.queue.items == [] {
      WorkerChangesState(s, w, t.workers[w]);
    } else {
      PopLaw(s.queue);
      hide Balanced, Law;
      forall m
        ensures Balanced(t.queue.popped, t.processed, t.workers, m)
      {
        TakeBalanced(s.queue.popped, s.processed, s.workers, w, s.queue.items[0], m);
      }
    }
  }

  lemma ProcessAccounted(s: Pool, w: nat)
    requires MessagesAccounted(s) && |s.producers| > 0 && Enabled(s, Process(w))
    ensures MessagesAccounted(Apply(s, Process(w)))
  {
    var t := Apply(s, Process(w));
    hide Balanced, Law;
    forall m
      ensures Balanced(t.queue.popped, t.processed, t.workers, m)
    {
      ProcessBalanced(s.queue.popped, s.processed, s.workers, w, t.workers[w], m);
    }
  }

  lemma MessagesKept(s: Pool, a: Action)
    requires Roles(s) && TerminatesAccounted(s) && MessagesAccounted(s) && Enabled(s, a)
    ensures MessagesAccounted(Apply(s, a))
  {
    if ByProducer(a) {
      ProducerKeepsMessages(s, a);
    } else {
      WorkerActionKeepsMessages(s, a);
    }
  }

  lemma ProducerKeepsMessages(s: Pool, a: Action)
    requires Roles(s) && TerminatesAccounted(s) && MessagesAccounted(s) && Enabled(s, a) && ByProducer(a)
    ensures MessagesAccounted(Apply(s, a))
  {
    var t := Apply(s, a);
    if !s.destroying {
      NoTerminateYet(s);
    }
    assert forall p ::
      0 <= p < |s.producers| && s.producers[p].Woken? && s.producers[p].m == Terminate ==> s.destroying;
    hide MessagesAccounted, TerminatesAccounted, Roles, TakeStep;
    match a
    case Post(p, m) =>
      if !Full(s.queue.items, s.queue.capacity) {
        PushAccounted(s, p, m);
      } else {
        SameMessages(s, t);
      }
    case PostNow(p, m) => PushAccounted(s, p, m);
    case Retry(p) =>
      if !Full(s.queue.items, s.queue.capacity) { PushAccounted(s, p, s.producers[p].m); } else { SameMessages(s, t); }
    case WakeProducer(p) => SameMessages(s, t);
    case NotifyPush(p, v) => WorkerChangesState(s, v, Awake); SameMessages(s.(workers := t.workers), t);
    case NotifyPushNobody(p) => SameMessages(s, t);
  }

  lemma WorkerActionKeepsMessages(s: Pool, a: Action)
    requires Roles(s) && MessagesAccounted(s) && Enabled(s, a) && !ByProducer(a)
    ensures MessagesAccounted(Apply(s, a))
  {
    var t := Apply(s, a);
    assert |s.producers| > 0;
    hide MessagesAccounted, Roles, TakeStep;
    match a
    case Take(w) => TakeAccounted(s, w);
    case GiveUp(w) => WorkerChangesState(s, w, Ready);
    case TimeOut(w) => WorkerChangesState(s, w, TimedOut);
    case WakeWorker(w) => WorkerChangesState(s, w, Awake);
    case NotifyPop(w, q) => WorkerChangesState(s, w, t.workers[w]); SameMessages(s.(workers := t.workers), t);
    case NotifyPopNobody(w) => WorkerChangesState(s, w, t.workers[w]);
    case Process(w) => ProcessAccounted(s, w);
    case Destroy => SameMessages(s, t);
    case Join => SameMessages(s, t);
  }

  lemma SameMessages(s: Pool, t: Pool)
    requires MessagesAccounted(s) && t.queue == s.queue && t.workers == s.workers && t.processed == s.processed
    ensures MessagesAccounted(t)
  {
  }

  lemma NoTerminateYet(s: Pool)
    requires TerminatesAccounted(s) && s.posted == 0
    ensures forall i :: 0 <= i < |s.queue.items| ==> s.queue.items[i] != Terminate
    ensures forall w :: 0 <= w < |s.workers| ==> TakenTerminate(s.workers[w]) == 0
  {
    forall i | 0 <= i < |s.queue.items|
      ensures s.queue.items[i] != Terminate
    {
      TotalAtLeast(s.queue.items, i, IsTerminate);
    }
    forall w | 0 <= w < |s.workers|
      ensures TakenTerminate(s.workers[w]) == 0
    {
      TotalAtLeast(s.workers, w, TakenTerminate);
    }
  }

  // ----- terminate messages -----

  lemma WorkerKeepsTerminates(s: Pool, w: nat, x: Worker)
    requires TerminatesAccounted(s) && w < |s.workers| && TakenTerminate(x) == TakenTerminate(s.workers[w])
    ensures TerminatesAccounted(s.(workers := s.workers[w := x]))
  {
    TotalUpdate(s.workers, w, x, TakenTerminate);
  }

  lemma PushKeepsTerminates(s: Pool, p: nat, m: Message)
    requires Roles(s) && TerminatesAccounted(s) && p < |s.producers|
    requires m == Terminate ==> !Full(s.queue.items, s.queue.capacity)
    requires m != Terminate ==> s.posted == 0
    ensures TerminatesAccounted(PushStep(s, p, m))
  {
    hide Roles, Total;
    var all := s.queue.items + [m];
    TotalAppend(s.queue.items, m, IsTerminate);
    if m != Terminate {
      NoTerminateYet(s);
      if |all| > s.queue.capacity {
        TotalFirst(all, IsTerminate);
        assert all[0] != Terminate;
      }
    }
  }

  lemma TakeKeepsTerminates(s: Pool, w: nat)
    requires TerminatesAccounted(s) && Enabled(s, Take(w))
    ensures TerminatesAccounted(TakeStep(s, w))
  {
    var t := TakeStep(s, w);
    if s.queue.items == [] {
      WorkerKeepsTerminates(s, w, t.workers[w]);
    } else {
      TotalFirst(s.queue.items, IsTerminate);
      TotalUpdate(s.workers, w, t.workers[w], TakenTerminate);
    }
  }

  lemma TerminatesKept(s: Pool, a: Action)
    requires Roles(s) && TerminatesAccounted(s) && Enabled(s, a)
    ensures TerminatesAccounted(Apply(s, a))
  {
    if ByProducer(a) {
      ProducerKeepsTerminates(s, a);
    } else {
      WorkerActionKeepsTerminates(s, a);
    }
  }

  predicate ByProducer(a: Action) {
    a.Post? || a.PostNow? || a.Retry? || a.WakeProducer? || a.NotifyPush? || a.NotifyPushNobody?
  }

  lemma ProducerKeepsTerminates(s: Pool, a: Action)
    requires Roles(s) && TerminatesAccounted(s) && Enabled(s, a) && ByProducer(a)
    ensures TerminatesAccounted(Apply(s, a))
  {
    var t := Apply(s, a);
    assert forall p :: 0 <= p < |s.producers| && s.producers[p].Woken? ==>
      if s.destroying then s.producers[p].m == Terminate else s.producers[p].m != Terminate && s.posted == 0;
    assert !s.destroying ==> s.posted == 0;
    hide TerminatesAccounted, Roles;
    match a
    case Post(p, m) =>
      if !Full(s.queue.items, s.queue.capacity) {
        PushKeepsTerminates(s, p, m);
      } else {
        SameTerminates(s, t);
      }
    case PostNow(p, m) => PushKeepsTerminates(s, p, m);
    case Retry(p) =>
      if !Full(s.queue.items, s.queue.capacity) {
        PushKeepsTerminates(s, p, s.producers[p].m);
      } else {
        SameTerminates(s, t);
      }
    case WakeProducer(p) => SameTerminates(s, t);
    case NotifyPush(p, v) => WorkerKeepsTerminates(s, v, Awake); SameTerminates(s.(workers := t.workers), t);
    case NotifyPushNobody(p) => SameTerminates(s, t);
  }

  lemma WorkerActionKeepsTerminates(s: Pool, a: Action)
    requires Roles(s) && TerminatesAccounted(s) && Enabled(s, a) && !ByProducer(a)
    ensures TerminatesAccounted(Apply(s, a))
  {
    var t := Apply(s, a);
    hide TerminatesAccounted, Roles, TakeStep;
    match a
    case Take(w) => TakeKeepsTerminates(s, w);
    case GiveUp(w) => WorkerKeepsTerminates(s, w, Ready);
    case TimeOut(w) => WorkerKeepsTerminates(s, w, TimedOut);
    case WakeWorker(w) => WorkerKeepsTerminates(s, w, Awake);
    case NotifyPop(w, q) => WorkerKeepsTerminates(s, w, t.workers[w]); SameTerminates(s.(workers := t.workers), t);
    case NotifyPopNobody(w) => WorkerKeepsTerminates(s, w, t.workers[w]);
    case Process(w) => WorkerKeepsTerminates(s, w, t.workers[w]); SameTerminates(s.(workers := t.workers), t);
    case Destroy => SameTerminates(s, t);
    case Join => SameTerminates(s, t);
  }

  lemma SameTerminates(s: Pool, t: Pool)
    requires TerminatesAccounted(s) && t.queue == s.queue && t.workers == s.workers && t.posted == s.posted
    ensures TerminatesAccounted(t)
  {
  }

  // ----- every run -----

  lemma StepKeepsInv(s: Pool, a: Action)
    requires Inv(s) && Enabled(s, a)
    ensures Inv(Apply(s, a))
    ensures Apply(s, a).queue.capacity == s.queue.capacity && |Apply(s, a).workers| == |s.workers|
  {
    ExitsNeedPosts(s);
    assert Law(s.queue) && |s.producers| > 0;
    hide NoLostWakeup, TerminatesAccounted, MessagesAccounted, Roles, Law;
    CapacityKept(s, a);
    RolesKept(s, a);
    WakeupsKept(s, a);
    TerminatesKept(s, a);
    MessagesKept(s, a);
  }

  lemma ExitsNeedPosts(s: Pool)
    requires TerminatesAccounted(s)
    ensures forall w :: 0 <= w < |s.workers| && s.workers[w] == Exited ==> s.posted > 0
  {
    forall w | 0 <= w < |s.workers| && s.workers[w] == Exited
      ensures s.posted > 0
    {
      TotalAtLeast(s.workers, w, TakenTerminate);
    }
  }

  lemma CapacityKept(s: Pool, a: Action)
    requires Law(s.queue) && |s.producers| > 0 && Enabled(s, a)
    ensures Apply(s, a).queue.capacity == s.queue.capacity && |Apply(s, a).workers| == |s.workers|
    ensures |s.queue.items| <= s.queue.capacity
  {
  }

  lemma StartInv(capacity: nat, workers: nat, producers: nat)
    requires producers > 0 && Start(capacity, workers, producers).Running?
    ensures Inv(Start(capacity, workers, producers).pool)
  {
    var s := Start(capacity, workers, producers).pool;
    TotalZero(s.workers, TakenTerminate);
    forall m
      ensures Balanced(s.queue.popped, s.processed, s.workers, m)
    {
      TotalZero(s.workers, Holds(m));
    }
    FreshLaw<Message>(capacity);
  }

  /** The constructor starts 1 to 1000 workers, all about to take a message, on an empty queue. */
  lemma StartsWorkers(capacity: nat, workers: nat, producers: nat)
    ensures Start(capacity, workers, producers).Running? <==> 1 <= workers <= 1000
    ensures 1 <= workers <= 1000 ==>
              var s := Start(capacity, workers, producers).pool;
              && |s.workers| == workers && (forall w :: 0 <= w < workers ==> s.workers[w] == Ready)
              && |s.producers| == producers && (forall p :: 0 <= p < producers ==> s.producers[p] == Idle)
              && s.queue.capacity == capacity && s.queue.items == [] && s.queue.pushed == []
              && s.processed == [] && !s.destroying && s.posted == 0
  {
  }

  // ----- what is handed in -----

  /** The message m is behind all others in the queue. */
  predicate Appends(s: Pool, t: Pool, m: Message) {
    && t.queue.pushed == s.queue.pushed + [m]
    && t.queue.popped == s.queue.popped
    && if |s.queue.items| < s.queue.capacity
       then t.queue.items == s.queue.items + [m] && t.queue.lost == s.queue.lost
       else t.queue.items == (s.queue.items + [m])[1..] && t.queue.lost == s.queue.lost + [(s.queue.items + [m])[0]]
  }

  /** A blocking post, tried for the first time or again: with room it appends the message, without it sleeps. */
  predicate Tries(s: Pool, t: Pool, p: nat, m: Message)
    requires p < |s.producers|
  {
    if |s.queue.items| < s.queue.capacity
    then Appends(s, t, m) && t.producers == s.producers[p := OwesPush]
    else t.queue == s.queue && t.producers == s.producers[p := Sleeping(m)]
  }

  /** What each step does to the queue and to the messages that producers hold, and to nothing else of these. */
  lemma StepPushes(s: Pool, a: Action)
    requires |s.producers| > 0 && Enabled(s, a)
    ensures var t := Apply(s, a);
            && (a.Post? ==> Tries(s, t, a.p, a.m))
            && (a.PostNow? ==> Appends(s, t, a.m) && t.producers == s.producers[a.p := OwesPush])
            && (a.Retry? ==> Tries(s, t, a.p, s.producers[a.p].m))
            && (!a.Post? && !a.PostNow? && !a.Retry? ==> t.queue.pushed == s.queue.pushed)
            && (!a.Take? && !a.Post? && !a.PostNow? && !a.Retry? ==> t.queue == s.queue)
            && (a.Process? ==> t.processed == s.processed + [s.workers[a.w].m])
            && (!a.Process? ==> t.processed == s.processed)
  {
  }

  /** The message a producer still has to push. */
  function Pending(p: Producer): seq<Message> {
    match p
    case Sleeping(m) => [m]
    case Woken(m) => [m]
    case _ => []
  }

  function Waiting(ps: seq<Producer>): seq<Message> {
    if ps == [] then [] else Waiting(ps[..|ps| - 1]) + Pending(ps[|ps| - 1])
  }

  /** The messages that the actions hand to the pool. */
  function HandedIn(actions: seq<Action>): seq<Message> {
    if actions == [] then []
    else
      var a := actions[|actions| - 1];
      HandedIn(actions[..|actions| - 1])
      + match a
        case Post(_, m) => [m]
        case PostNow(_, m) => [m]
        case _ => []
  }

  lemma {:induction false} WaitingUpdate(ps: seq<Producer>, p: nat, x: Producer)
    requires p < |ps|
    ensures multiset(Waiting(ps[p := x])) + multiset(Pending(ps[p])) == multiset(Waiting(ps)) + multiset(Pending(x))
  {
    hide *;
    var k := |ps| - 1;
    WaitingLast(ps);
    WaitingLast(ps[p := x]);
    if p == k {
      assert ps[p := x][..k] == ps[..k];
    } else {
      WaitingUpdate(ps[..k], p, x);
      assert ps[p := x][..k] == ps[..k][p := x];
      Shuffle(multiset(Waiting(ps[..k][p := x])), multiset(Waiting(ps[..k])), multiset(Pending(ps[k])),
        multiset(Pending(ps[p])), multiset(Pending(x)));
    }
  }

  lemma Shuffle(f': multiset<Message>, f: multiset<Message>, l: multiset<Message>, p: multiset<Message>,
        x: multiset<Message>)
    requires f' + p == f + x
    ensures f' + l + p == f + l + x
  {
    assert f' + l + p == f' + p + l && f + l + x == f + x + l;
  }

  lemma CancelSame(a: multiset<Message>, b: multiset<Message>, p: multiset<Message>)
    requires a + p == b + p
    ensures a == b
  {
    forall m
      ensures a[m] == b[m]
    {
      assert (a + p)[m] == a[m] + p[m] && (b + p)[m] == b[m] + p[m];
    }
  }

  lemma WaitingLast(ps: seq<Producer>)
    requires ps != []
    ensures multiset(Waiting(ps)) == multiset(Waiting(ps[..|ps| - 1])) + multiset(Pending(ps[|ps| - 1]))
  {
    hide Pending;
  }

  /** The producer that an action moves on, if it is neither a post nor a worker's own business. */
  lemma ProducersMove(s: Pool, a: Action)
    requires |s.producers| > 0 && Enabled(s, a)
    ensures a.Post? || a.PostNow? ==> Pending(s.producers[a.p]) == [] && HandedIn([a]) == [a.m]
    ensures a.Retry? ==> Pending(s.producers[a.p]) == [s.producers[a.p].m]
    ensures !a.Post? && !a.PostNow? ==> HandedIn([a]) == []
    ensures !a.Post? && !a.PostNow? && !a.Retry? ==>
              exists p :: 0 <= p < |s.producers| && SamePending(s.producers, Apply(s, a).producers, p)
  {
    assert HandedIn([]) == [];
    var t := Apply(s, a);
    if a.WakeProducer? || a.NotifyPush? || a.NotifyPushNobody? {
      assert SamePending(s.producers, t.producers, a.p);
    } else if a.NotifyPop? {
      assert SamePending(s.producers, t.producers, a.sleeper);
    } else if !a.Post? && !a.PostNow? && !a.Retry? {
      assert SamePending(s.producers, t.producers, 0);
    }
  }

  predicate SamePending(ps: seq<Producer>, ps': seq<Producer>, p: nat)
    requires p < |ps|
  {
    |ps'| == |ps| && ps' == ps[p := ps'[p]] && Pending(ps'[p]) == Pending(ps[p])
  }

  lemma JoinedMessages(a: seq<Message>, b: seq<Message>)
    ensures multiset(a + b) == multiset(a) + multiset(b)
  {
  }

  lemma PushSums(pushed: multiset<Message>, one: multiset<Message>, q: multiset<Message>, h: multiset<Message>,
        w': multiset<Message>, w: multiset<Message>)
    requires one == q + h && w' + q == w
    ensures pushed + one + w' == pushed + w + h
  {
    assert pushed + (q + h) + w' == pushed + (w' + q) + h;
  }

  lemma PushMoves(pushed: seq<Message>, ps: seq<Producer>, p: nat, m: Message, h: seq<Message>)
    requires p < |ps| && Pending(ps[p]) + h == [m]
    ensures multiset(pushed + [m]) + multiset(Waiting(ps[p := OwesPush]))
         == multiset(pushed) + multiset(Waiting(ps)) + multiset(h)
  {
    WaitingUpdate(ps, p, OwesPush);
    assert multiset(Pending(OwesPush)) == multiset{};
    hide *;
    JoinedMessages(Pending(ps[p]), h);
    JoinedMessages(pushed, [m]);
    PushSums(multiset(pushed), multiset([m]), multiset(Pending(ps[p])), multiset(h),
      multiset(Waiting(ps[p := OwesPush])), multiset(Waiting(ps)));
  }

  lemma SleepMoves(ps: seq<Producer>, p: nat, m: Message, h: seq<Message>)
    requires p < |ps| && Pending(ps[p]) + h == [m]
    ensures multiset(Waiting(ps[p := Sleeping(m)])) == multiset(Waiting(ps)) + multiset(h)
  {
    WaitingUpdate(ps, p, Sleeping(m));
    assert Pending(Sleeping(m)) == [m];
    hide *;
    JoinedMessages(Pending(ps[p]), h);
    var q := multiset(Pending(ps[p]));
    assert multiset(Waiting(ps)) + (q + multiset(h)) == multiset(Waiting(ps)) + multiset(h) + q;
    CancelSame(multiset(Waiting(ps[p := Sleeping(m)])), multiset(Waiting(ps)) + multiset(h), q);
  }

  lemma TriesKept(s: Pool, t: Pool, p: nat, m: Message, h: seq<Message>)
    requires p < |s.producers| && Pending(s.producers[p]) + h == [m]
    requires Tries(s, t, p, m) || (Appends(s, t, m) && t.producers == s.producers[p := OwesPush])
    ensures multiset(t.queue.pushed) + multiset(Waiting(t.producers))
         == multiset(s.queue.pushed) + multiset(Waiting(s.producers)) + multiset(h)
  {
    hide Waiting, Pending;
    if t.producers == s.producers[p := OwesPush] && Appends(s, t, m) {
      PushMoves(s.queue.pushed, s.producers, p, m, h);
    } else {
      SleepMoves(s.producers, p, m, h);
      assert multiset(s.queue.pushed) + (multiset(Waiting(s.producers)) + multiset(h))
          == multiset(s.queue.pushed) + multiset(Waiting(s.producers)) + multiset(h);
    }
  }

  lemma OthersWait(ps: seq<Producer>, ps': seq<Producer>, p: nat)
    requires p < |ps| && SamePending(ps, ps', p)
    ensures multiset(Waiting(ps')) == multiset(Waiting(ps))
  {
    hide Waiting, Pending;
    WaitingUpdate(ps, p, ps'[p]);
    CancelSame(multiset(Waiting(ps')), multiset(Waiting(ps)), multiset(Pending(ps[p])));
  }

  /** Nothing that is handed in is dropped or changed on the way to the queue. */
  lemma PendingKept(s: Pool, a: Action)
    requires |s.producers| > 0 && Enabled(s, a)
    ensures var t := Apply(s, a);
            multiset(t.queue.pushed) + multiset(Waiting(t.producers))
            == multiset(s.queue.pushed) + multiset(Waiting(s.producers)) + multiset(HandedIn([a]))
  {
    StepPushes(s, a);
    ProducersMove(s, a);
    hide Waiting, HandedIn, Apply, Pending, SamePending, Appends, Tries, Enabled;
    var t, ps, h := Apply(s, a), s.producers, HandedIn([a]);
    if a.Post? || a.PostNow? || a.Retry? {
      TriesKept(s, t, a.p, if a.Retry? then ps[a.p].m else a.m, h);
    } else {
      var p :| 0 <= p < |ps| && SamePending(ps, t.producers, p);
      OthersWait(ps, t.producers, p);
    }
  }

  /** The states a run passes through; ghost, as a run is a sequence of whole states. */
  ghost predicate Run(states: seq<Pool>, actions: seq<Action>) {
    |states| == |actions| + 1 &&
    forall i :: 0 <= i < |actions| ==>
      |states[i].producers| > 0 && Enabled(states[i], actions[i]) && states[i + 1] == Apply(states[i], actions[i])
  }

  lemma RunShape(states: seq<Pool>, actions: seq<Action>)
    requires Run(states, actions)
    ensures |states| == |actions| + 1
  {
  }

  lemma RunStep(states: seq<Pool>, actions: seq<Action>, k: nat)
    requires Run(states, actions) && k < |actions|
    ensures |states| == |actions| + 1 && |states[k].producers| > 0 && Enabled(states[k], actions[k])
    ensures states[k + 1] == Apply(states[k], actions[k])
  {
    hide Enabled, Apply;
  }

  lemma {:induction false} EveryRunKeepsInv(states: seq<Pool>, actions: seq<Action>, k: nat)
    requires Run(states, actions) && Inv(states[0]) && k < |states|
    ensures Inv(states[k]) && states[k].queue.capacity == states[0].queue.capacity
    ensures |states[k].workers| == |states[0].workers|
  {
    if k == 0 {
    } else {
      EveryRunKeepsInv(states, actions, k - 1);
      StepKeepsInv(states[k - 1], actions[k - 1]);
    }
  }

  // ----- shutdown -----

  /** Steps that move a message or a join on; all others only change who sleeps or is awake. */
  predicate Progress(s: Pool, a: Action)
    requires Enabled(s, a)
  {
    match a
    case Post(p, m) => !Full(s.queue.items, s.queue.capacity)
    case PostNow(p, m) => true
    case Retry(p) => !Full(s.queue.items, s.queue.capacity)
    case NotifyPush(p, v) => true
    case NotifyPushNobody(p) => true
    case Take(w) => s.queue.items != []
    case NotifyPop(w, q) => true
    case NotifyPopNobody(w) => true
    case Process(w) => true
    case Join => true
    case _ => false
  }

  function WorkerWork(w: Worker): nat {
    if w.OwesPop? then 2 else if w.Holding? then 1 else 0
  }

  /** How much work is left: each message still has to be posted, announced, taken, announced and processed. */
  function WorkLeft(s: Pool): int {
    Work(|s.workers|, s.posted, s.joined, |s.queue.items|, s.workers, s.producers)
  }

  function Work(n: nat, posted: nat, joined: nat, queued: nat, ws: seq<Worker>, ps: seq<Producer>): int {
    5 * (n - posted) + 3 * queued + Total(ws, WorkerWork) + Total(ps, OwedPush) + (n - joined)
  }

  lemma WorkerTurn(n: nat, posted: nat, joined: nat, queued: nat, queued': nat, ws: seq<Worker>,
        ps: seq<Producer>, w: nat, x: Worker)
    requires w < |ws|
    ensures Work(n, posted, joined, queued', ws[w := x], ps)
         == Work(n, posted, joined, queued, ws, ps) + 3 * (queued' - queued) + WorkerWork(x) - WorkerWork(ws[w])
  {
    TotalUpdate(ws, w, x, WorkerWork);
  }

  lemma ProducerTurn(n: nat, posted: nat, joined: nat, queued: nat, ws: seq<Worker>, ps: seq<Producer>, p: nat,
        x: Producer)
    requires p < |ps|
    ensures Work(n, posted, joined, queued, ws, ps[p := x])
         == Work(n, posted, joined, queued, ws, ps) + OwedPush(x) - OwedPush(ps[p])
  {
    TotalUpdate(ps, p, x, OwedPush);
  }

  /** Once the destructor runs, every progress step uses up one unit of work, and no other step changes it. */
  lemma ProgressUsesWork(s: Pool, a: Action)
    requires Roles(s) && s.destroying && Enabled(s, a) && |s.queue.items| <= s.queue.capacity
    ensures WorkLeft(Apply(s, a)) == WorkLeft(s) - (if Progress(s, a) then 1 else 0)
    ensures Apply(s, a).destroying
  {
    if ByProducer(a) {
      ProducerUsesWork(s, a);
    } else {
      WorkerUsesWork(s, a);
    }
  }

  lemma ProducerUsesWork(s: Pool, a: Action)
    requires Roles(s) && s.destroying && Enabled(s, a) && |s.queue.items| <= s.queue.capacity && ByProducer(a)
    ensures WorkLeft(Apply(s, a)) == WorkLeft(s) - (if Progress(s, a) then 1 else 0)
  {
    var t := Apply(s, a);
    var n, q := |s.workers|, |s.queue.items|;
    assert forall p :: 0 <= p < |s.producers| && s.producers[p].Woken? ==> s.producers[p].m == Terminate;
    hide Roles, Work, PostStep;
    match a
    case Post(p, m) => PostUsesWork(s, p);
    case PostNow(p, m) =>
    case Retry(p) => PostUsesWork(s, p);
    case WakeProducer(p) => ProducerTurn(n, s.posted, s.joined, q, s.workers, s.producers, p, t.producers[p]);
    case NotifyPush(p, v) =>
      WorkerTurn(n, s.posted, s.joined, q, q, s.workers, s.producers, v, Awake);
      ProducerTurn(n, s.posted, s.joined, q, t.workers, s.producers, p, Idle);
    case NotifyPushNobody(p) => ProducerTurn(n, s.posted, s.joined, q, s.workers, s.producers, p, Idle);
  }

  lemma WorkerUsesWork(s: Pool, a: Action)
    requires Roles(s) && s.destroying && Enabled(s, a) && !ByProducer(a)
    ensures WorkLeft(Apply(s, a)) == WorkLeft(s) - (if Progress(s, a) then 1 else 0)
  {
    var t := Apply(s, a);
    var n, q := |s.workers|, |s.queue.items|;
    JoinUsesWork(s);
    hide Roles, Work, TakeStep;
    match a
    case Take(w) => TakeUsesWork(s, w);
    case GiveUp(w) => WorkerTurn(n, s.posted, s.joined, q, q, s.workers, s.producers, w, Ready);
    case TimeOut(w) => WorkerTurn(n, s.posted, s.joined, q, q, s.workers, s.producers, w, TimedOut);
    case WakeWorker(w) => WorkerTurn(n, s.posted, s.joined, q, q, s.workers, s.producers, w, Awake);
    case NotifyPop(w, v) =>
      WorkerTurn(n, s.posted, s.joined, q, q, s.workers, s.producers, w, t.workers[w]);
      ProducerTurn(n, s.posted, s.joined, q, t.workers, s.producers, v, t.producers[v]);
    case NotifyPopNobody(w) => WorkerTurn(n, s.posted, s.joined, q, q, s.workers, s.producers, w, t.workers[w]);
    case Process(w) => WorkerTurn(n, s.posted, s.joined, q, q, s.workers, s.producers, w, t.workers[w]);
    case Destroy =>
    case Join =>
  }

  lemma JoinUsesWork(s: Pool)
    ensures WorkLeft(s.(joined := s.joined + 1)) == WorkLeft(s) - 1
  {
    hide Total;
  }

  lemma PostUsesWork(s: Pool, p: nat)
    requires p < |s.producers| && (s.producers[p] == Idle || s.producers[p].Woken?)
    requires |s.queue.items| <= s.queue.capacity
    ensures WorkLeft(PostStep(s, p, Terminate))
         == WorkLeft(s) - (if Full(s.queue.items, s.queue.capacity) then 0 else 1)
  {
    hide Total;
    TotalUpdate(s.producers, p, OwesPush, OwedPush);
    TotalUpdate(s.producers, p, Sleeping(Terminate), OwedPush);
  }

  lemma TakeUsesWork(s: Pool, w: nat)
    requires Enabled(s, Take(w))
    ensures WorkLeft(TakeStep(s, w)) == WorkLeft(s) - (if s.queue.items != [] then 1 else 0)
  {
    hide Total;
    TotalUpdate(s.workers, w, TakeStep(s, w).workers[w], WorkerWork);
  }

  /** The number of progress steps in a run. */
  ghost function Steps(states: seq<Pool>, actions: seq<Action>, k: nat): nat
    requires Run(states, actions) && k <= |actions|
  {
    if k == 0 then 0 else Steps(states, actions, k - 1) + (if Progress(states[k - 1], actions[k - 1]) then 1 else 0)
  }

  /**
   * However often threads wake up for nothing or time out, a run of the destructor makes at most
   * as many progress steps as there was work when it began.
   */
  lemma {:induction false} BoundedProgress(states: seq<Pool>, actions: seq<Action>, k: nat)
    requires Run(states, actions) && Inv(states[0]) && states[0].destroying && k <= |actions|
    ensures Steps(states, actions, k) + WorkLeft(states[k]) == WorkLeft(states[0])
    ensures Inv(states[k]) && states[k].destroying && WorkLeft(states[k]) >= 0
  {
    hide *;
    RunShape(states, actions);
    EveryRunKeepsInv(states, actions, k);
    if k == 0 {
      NoSteps(states, actions);
    } else {
      BoundedProgress(states, actions, k - 1);
      RunStep(states, actions, k - 1);
      NextSteps(states, actions, k);
      InvParts(states[k - 1]);
      ProgressUsesWork(states[k - 1], actions[k - 1]);
    }
    WorkNotNegative(states[k]);
  }

  lemma NoSteps(states: seq<Pool>, actions: seq<Action>)
    requires Run(states, actions)
    ensures Steps(states, actions, 0) == 0
  {
  }

  lemma NextSteps(states: seq<Pool>, actions: seq<Action>, k: nat)
    requires Run(states, actions) && 0 < k <= |actions|
    ensures |states[k - 1].producers| > 0 && Enabled(states[k - 1], actions[k - 1])
    ensures Steps(states, actions, k)
         == Steps(states, actions, k - 1) + (if Progress(states[k - 1], actions[k - 1]) then 1 else 0)
  {
    hide Enabled, Apply, Progress;
  }

  lemma InvParts(s: Pool)
    requires Inv(s)
    ensures Roles(s) && |s.queue.items| <= s.queue.capacity
  {
  }

  lemma WorkNotNegative(s: Pool)
    requires Inv(s)
    ensures WorkLeft(s) >= 0
  {
    hide Total, NoLostWakeup, TerminatesAccounted, MessagesAccounted;
  }

  /** All the terminate messages that count have been obeyed: every worker has left its loop. */
  lemma AllHaveExited(s: Pool, w: nat)
    requires Inv(s) && s.posted == |s.workers| && Total(s.queue.items, IsTerminate) == 0 && w < |s.workers|
    requires forall v :: 0 <= v < |s.workers| ==> !s.workers[v].OwesPop? && !s.workers[v].Holding?
    ensures s.workers[w] == Exited
  {
    AllWeigh(s.workers, w, TakenTerminate);
  }

  /** When only sleeping and departed workers are left, the queue has been emptied. */
  lemma IdleWorkersMeanEmpty(s: Pool)
    requires Inv(s) && s.producers[0] != OwesPush && s.destroying
    requires forall v :: 0 <= v < |s.workers| ==> s.workers[v] == Asleep || s.workers[v] == Exited
    ensures s.queue.items == []
  {
    if s.queue.items != [] {
      TotalZero(s.producers, OwedPush);
      TotalZero(s.workers, AwakeWorker);
      assert forall v :: 0 <= v < |s.workers| ==> s.workers[v] == Exited;
      AllExitedTotal(s.workers);
      NoneLeft(s.queue.items);
    }
  }

  lemma {:induction false} AllExitedTotal(ws: seq<Worker>)
    requires forall v :: 0 <= v < |ws| ==> ws[v] == Exited
    ensures Total(ws, TakenTerminate) == |ws|
  {
    if ws == [] {
    } else {
      AllExitedTotal(ws[..|ws| - 1]);
    }
  }

  /** No thread owes a notification or holds a message, and no awake worker finds one. */
  predicate Quiet(s: Pool) {
    && (forall p :: 0 <= p < |s.producers| ==> s.producers[p] != OwesPush)
    && (forall w :: 0 <= w < |s.workers| ==> !s.workers[w].OwesPop? && !s.workers[w].Holding?)
    && (s.queue.items != [] ==> forall w :: 0 <= w < |s.workers| ==> s.workers[w] == Asleep || s.workers[w] == Exited)
  }

  lemma NotQuiet(s: Pool) returns (a: Action)
    requires !Quiet(s)
    ensures Enabled(s, a) && Progress(s, a)
  {
    if p :| 0 <= p < |s.producers| && s.producers[p] == OwesPush {
      if v :| 0 <= v < |s.workers| && s.workers[v] == Asleep {
        a := NotifyPush(p, v);
      } else {
        a := NotifyPushNobody(p);
      }
    } else if w :| 0 <= w < |s.workers| && s.workers[w].OwesPop? {
      if q :| 0 <= q < |s.producers| && s.producers[q].Sleeping? {
        a := NotifyPop(w, q);
      } else {
        a := NotifyPopNobody(w);
      }
    } else if w :| 0 <= w < |s.workers| && s.workers[w].Holding? {
      a := Process(w);
    } else {
      var w :| 0 <= w < |s.workers| && s.workers[w] != Asleep && s.workers[w] != Exited;
      a := Take(w);
    }
  }

  /** A destructor asleep although the queue has room would be a lost wakeup. */
  lemma DestructorAwake(s: Pool)
    requires Inv(s) && Quiet(s) && s.destroying && s.queue.items == [] && s.queue.capacity > 0
    ensures !s.producers[0].Sleeping?
  {
    if s.producers[0].Sleeping? {
      TotalZero(s.producers, WokenProducer);
      TotalZero(s.workers, OwedPop);
    }
  }

  /**
   * The destructor never deadlocks: until the last worker has been joined some progress step is
   * possible, even while it is posting to a full queue.
   */
  lemma NeverStuck(s: Pool) returns (a: Action)
    requires Inv(s) && s.destroying && s.joined < |s.workers| && s.queue.capacity > 0
    ensures Enabled(s, a) && Progress(s, a)
  {
    if !Quiet(s) {
      a := NotQuiet(s);
      return;
    }
    QuietQueueEmpty(s);
    DestructorAwake(s);
    if s.producers[0].Woken? {
      a := Retry(0);
    } else if s.posted < |s.workers| {
      a := Post(0, Terminate);
    } else {
      TotalZero(s.queue.items, IsTerminate);
      AllHaveExited(s, s.joined);
      a := Join;
    }
  }

  lemma NoneLeft(q: seq<Message>)
    ensures q != [] && OnlyTerminates(q) ==> Total(q, IsTerminate) > 0
  {
    if q != [] && q[0] == Terminate {
      TotalAtLeast(q, 0, IsTerminate);
    }
  }

  lemma QuietQueueEmpty(s: Pool)
    requires Inv(s) && Quiet(s) && s.destroying
    ensures s.queue.items == []
  {
    if s.queue.items != [] {
      IdleWorkersMeanEmpty(s);
    }
  }

  /**
   * When all workers have been joined nothing is left behind: the queue is empty, and what was
   * posted and not given up to an overrun has been processed, each message exactly once.
   */
  lemma ShutdownDrains(s: Pool)
    requires Inv(s) && s.joined == |s.workers|
    ensures s.queue.items == []
    ensures multiset(s.processed) == multiset(s.queue.popped)
    ensures multiset(s.queue.pushed) == multiset(s.processed) + multiset(s.queue.lost)
    ensures |s.queue.pushed| == |s.processed| + s.queue.overruns
    ensures s.posted == |s.workers| && forall w :: 0 <= w < |s.workers| ==> s.workers[w] == Exited
  {
    AllExitedTotal(s.workers);
    NoneLeft(s.queue.items);
    forall m
      ensures multiset(s.processed)[m] == multiset(s.queue.popped)[m]
    {
      TotalZero(s.workers, Holds(m));
      assert Balanced(s.queue.popped, s.processed, s.workers, m);
    }
    Conservation(s.queue);
    SameSize(s.processed, s.queue.popped);
  }

  lemma SameSize(a: seq<Message>, b: seq<Message>)
    requires multiset(a) == multiset(b)
    ensures |a| == |b|
  {
    assert |multiset(a)| == |a| && |multiset(b)| == |b|;
  }

  /** At any time what has been handed in is what has been pushed and what producers still hold. */
  lemma {:induction false} EveryRunPushes(states: seq<Pool>, actions: seq<Action>, k: nat)
    requires Run(states, actions) && k < |states| && |actions| < |states|
    requires states[0].queue.pushed == [] && Waiting(states[0].producers) == []
    ensures multiset(HandedIn(actions[..k]))
         == multiset(states[k].queue.pushed) + multiset(Waiting(states[k].producers))
  {
    hide *;
    if k == 0 {
      NothingHandedIn();
    } else {
      RunShape(states, actions);
      EveryRunPushes(states, actions, k - 1);
      RunStep(states, actions, k - 1);
      PendingKept(states[k - 1], actions[k - 1]);
      assert actions[..k] == actions[..k - 1] + [actions[k - 1]];
      HandedInMore(actions[..k - 1], actions[k - 1]);
    }
  }

  lemma NothingHandedIn()
    ensures HandedIn([]) == []
  {
  }

  lemma HandedInMore(actions: seq<Action>, a: Action)
    ensures multiset(HandedIn(actions + [a])) == multiset(HandedIn(actions)) + multiset(HandedIn([a]))
  {
    assert (actions + [a])[..|actions|] == actions;
    assert HandedIn([a]) == HandedIn([]) + HandedIn([a]);
  }

  lemma {:induction false} NobodyWaits(ps: seq<Producer>)
    requires forall p :: 0 <= p < |ps| ==> Pending(ps[p]) == []
    ensures Waiting(ps) == []
  {
    if ps != [] {
      NobodyWaits(ps[..|ps| - 1]);
    }
  }

  /**
   * The whole story, for every run of a pool that was started: no wakeup is lost, the workers
   * account for the terminate messages, what was handed in has been pushed or is still held by the
   * producers, and once the last worker has been joined everything that was handed in and not
   * overrun has been processed exactly once.
   */
  lemma EveryRunIsSafe(capacity: nat, workers: nat, producers: nat, states: seq<Pool>, actions: seq<Action>, k: nat)
    requires producers > 0 && Start(capacity, workers, producers).Running?
    requires Run(states, actions) && states[0] == Start(capacity, workers, producers).pool && k < |states|
    ensures Inv(states[k]) && states[k].queue.capacity == capacity && |states[k].workers| == workers
    ensures k <= |actions|
    ensures multiset(HandedIn(actions[..k]))
         == multiset(states[k].queue.pushed) + multiset(Waiting(states[k].producers))
    ensures states[k].joined == workers ==>
              && states[k].queue.items == []
              && multiset(HandedIn(actions[..k])) == multiset(states[k].processed) + multiset(states[k].queue.lost)
              && multiset(states[k].queue.pushed) == multiset(states[k].processed) + multiset(states[k].queue.lost)
              && |states[k].queue.pushed| == |states[k].processed| + states[k].queue.overruns
  {
    hide *;
    RunShape(states, actions);
    StartInv(capacity, workers, producers);
    StartsWorkers(capacity, workers, producers);
    NoneWaitAtStart(capacity, workers, producers);
    EveryRunKeepsInv(states, actions, k);
    EveryRunPushes(states, actions, k);
    if states[k].joined == workers {
      ShutdownDrains(states[k]);
      NoneWaitAtEnd(states[k]);
    }
  }

  lemma NoneWaitAtStart(capacity: nat, workers: nat, producers: nat)
    requires 1 <= workers <= 1000
    ensures Start(capacity, workers, producers).Running?
    ensures Waiting(Start(capacity, workers, producers).pool.producers) == []
  {
    NobodyWaits(Start(capacity, workers, producers).pool.producers);
  }

  lemma NoneWaitAtEnd(s: Pool)
    requires Inv(s) && s.joined == |s.workers|
    ensures Waiting(s.producers) == []
  {
    NobodyWaits(s.producers);
  }

  // ----- the end of every shutdown -----

  /** The work is done exactly when the last worker has been joined. */
  lemma NoWorkLeft(s: Pool)
    requires Inv(s) && s.destroying
    ensures WorkLeft(s) >= 0 && s.joined <= |s.workers|
    ensures WorkLeft(s) == 0 <==> s.joined == |s.workers|
  {
    if s.joined == |s.workers| {
      ShutdownDrains(s);
      TotalZero(s.workers, WorkerWork);
      TotalZero(s.producers, OwedPush);
    }
  }

  /**
   * Every run of the destructor makes at most as many progress steps as there was work, and it has
   * joined all workers exactly when it has made them all.
   */
  lemma ShutdownEnds(states: seq<Pool>, actions: seq<Action>)
    requires Run(states, actions) && Inv(states[0]) && states[0].destroying
    ensures var last := states[|actions|];
            && Steps(states, actions, |actions|) <= WorkLeft(states[0])
            && (Steps(states, actions, |actions|) == WorkLeft(states[0]) <==> last.joined == |last.workers|)
  {
    BoundedProgress(states, actions, |actions|);
    NoWorkLeft(states[|actions|]);
  }

  /** From every state of the destructor some run of that many steps joins all workers. */
  lemma {:induction false} FinishingRun(s: Pool) returns (states: seq<Pool>, actions: seq<Action>)
    requires Inv(s) && s.destroying && s.queue.capacity > 0
    ensures Run(states, actions) && states[0] == s && |actions| == WorkLeft(s)
    ensures states[|actions|].joined == |s.workers| == |states[|actions|].workers|
    decreases WorkLeft(s)
  {
    hide *;
    NoWorkLeft(s);
    if s.joined == |s.workers| {
      states, actions := [s], [];
      RunNowhere(s);
    } else {
      var a := NeverStuck(s);
      ProgressStep(s, a);
      var next := Apply(s, a);
      NoWorkLeft(next);
      var later, acts := FinishingRun(next);
      RunLonger(s, a, later, acts);
      states, actions := [s] + later, [a] + acts;
    }
  }

  lemma ProgressStep(s: Pool, a: Action)
    requires Inv(s) && s.destroying && Enabled(s, a) && Progress(s, a)
    ensures |s.producers| > 0
    ensures var t := Apply(s, a);
            && Inv(t) && t.destroying && WorkLeft(t) == WorkLeft(s) - 1
            && t.queue.capacity == s.queue.capacity && |t.workers| == |s.workers|
  {
    StepKeepsInv(s, a);
    hide Apply, WorkLeft, Progress, Enabled;
    ProgressUsesWork(s, a);
  }

  lemma RunNowhere(s: Pool)
    ensures Run([s], [])
  {
  }

  lemma RunLonger(s: Pool, a: Action, states: seq<Pool>, actions: seq<Action>)
    requires |s.producers| > 0 && Enabled(s, a) && Run(states, actions) && states[0] == Apply(s, a)
    ensures Run([s] + states, [a] + actions)
    ensures |states| == |actions| + 1 && ([s] + states)[|actions| + 1] == states[|actions|]
  {
    hide Apply, Enabled;
  }

  /** So the destructor of a pool that was started can always finish, wherever a run has taken it. */
  lemma ShutdownCanFinish(capacity: nat, workers: nat, producers: nat, states: seq<Pool>, actions: seq<Action>, k: nat)
      returns (more: seq<Pool>, steps: seq<Action>)
    requires producers > 0 && capacity > 0 && Start(capacity, workers, producers).Running?
    requires Run(states, actions) && states[0] == Start(capacity, workers, producers).pool && k < |states|
    requires states[k].destroying
    ensures Run(more, steps) && more[0] == states[k] && |steps| == WorkLeft(states[k])
    ensures more[|steps|].joined == workers && more[|steps|].queue.items == []
  {
    EveryRunIsSafe(capacity, workers, producers, states, actions, k);
    more, steps := FinishingRun(states[k]);
    EveryRunKeepsInv(more, steps, |steps|);
    ShutdownDrains(more[|steps|]);
  }

  // ----- a single worker -----

  /** What a single worker has processed, and then what it holds, is what has been popped, in order. */
  predicate InOrder(s: Pool) {
    |s.workers| == 1 && s.processed + Hand(s.workers[0]) == s.queue.popped
  }

  lemma InOrderKept(s: Pool, a: Action)
    requires |s.producers| > 0 && Enabled(s, a) && InOrder(s)
    ensures InOrder(Apply(s, a))
  {
  }

  lemma {:induction false} EveryRunInOrder(states: seq<Pool>, actions: seq<Action>, k: nat)
    requires Run(states, actions) && InOrder(states[0]) && k < |states|
    ensures InOrder(states[k])
  {
    if k == 0 {
    } else {
      EveryRunInOrder(states, actions, k - 1);
      InOrderKept(states[k - 1], actions[k - 1]);
    }
  }

  /** A single producer has its messages pushed in the order in which it hands them in. */
  lemma {:induction false} OneProducerPushes(states: seq<Pool>, actions: seq<Action>, k: nat)
    requires Run(states, actions) && k < |states| && |actions| < |states|
    requires states[0].queue.pushed == [] && states[0].producers == [Idle]
    ensures |states[k].producers| == 1
    ensures HandedIn(actions[..k]) == states[k].queue.pushed + Pending(states[k].producers[0])
  {
    hide *;
    RunShape(states, actions);
    if k == 0 {
      IdleHolds();
      NothingHandedIn();
    } else {
      OneProducerPushes(states, actions, k - 1);
      RunStep(states, actions, k - 1);
      assert actions[..k] == actions[..k - 1] + [actions[k - 1]];
      HandedInLast(actions[..k - 1], actions[k - 1]);
      OneProducerStep(states[k - 1], actions[k - 1], HandedIn(actions[..k - 1]));
    }
  }

  lemma IdleHolds()
    ensures Pending(Idle) == []
  {
  }

  lemma HandedInLast(actions: seq<Action>, a: Action)
    ensures HandedIn(actions + [a]) == if a.Post? || a.PostNow? then HandedIn(actions) + [a.m] else HandedIn(actions)
  {
    assert (actions + [a])[..|actions|] == actions;
    assert HandedIn(actions) + [] == HandedIn(actions);
  }

  lemma OneProducerStep(s: Pool, a: Action, h: seq<Message>)
    requires |s.producers| == 1 && Enabled(s, a) && h == s.queue.pushed + Pending(s.producers[0])
    ensures var t := Apply(s, a);
            && |t.producers| == 1
            && (if a.Post? || a.PostNow? then h + [a.m] else h) == t.queue.pushed + Pending(t.producers[0])
  {
    StepPushes(s, a);
  }

  /**
   * A pool with one worker delivers in order: over every run it has processed a prefix of the
   * messages that were pushed and not overrun, in push order, and all of them once it is joined.
   * With one producer that is the order in which it handed them in.
   */
  lemma OneWorkerDeliversInOrder(capacity: nat, producers: nat, states: seq<Pool>, actions: seq<Action>, k: nat)
    requires producers > 0 && Run(states, actions) && k < |states|
    requires states[0] == Start(capacity, 1, producers).pool
    ensures var s := states[k]; var q := s.queue;
            && |q.fate| <= |q.pushed| && s.processed <= Marked(q.pushed[..|q.fate|], q.fate, true)
            && (q.overruns == 0 ==> s.processed <= q.pushed)
            && (q.overruns == 0 && producers == 1 ==> k <= |actions| && s.processed <= HandedIn(actions[..k]))
            && (s.joined == 1 ==> |q.fate| == |q.pushed| && s.processed == Marked(q.pushed, q.fate, true))
  {
    hide *;
    OneWorkerStarts(capacity, producers);
    StartInv(capacity, 1, producers);
    RunShape(states, actions);
    EveryRunKeepsInv(states, actions, k);
    EveryRunInOrder(states, actions, k);
    InOrderMeans(states[k]);
    PoppedInOrder(states[k].queue);
    if producers == 1 {
      OneProducerStarts(capacity, 1);
      OneProducerPushes(states, actions, k);
    }
  }

  lemma OneProducerStarts(capacity: nat, workers: nat)
    requires 1 <= workers <= 1000
    ensures var s := Start(capacity, workers, 1).pool; s.queue.pushed == [] && s.producers == [Idle]
  {
  }

  lemma OneWorkerStarts(capacity: nat, producers: nat)
    ensures Start(capacity, 1, producers).Running? && InOrder(Start(capacity, 1, producers).pool)
  {
  }

  lemma InOrderMeans(s: Pool)
    requires Inv(s) && InOrder(s)
    ensures Law(s.queue) && s.processed <= s.queue.popped
    ensures s.joined == 1 ==> s.queue.items == [] && s.processed == s.queue.popped
  {
    hide Law, NoLostWakeup, TerminatesAccounted;
    if s.joined == 1 {
      ShutdownDrains(s);
      assert Hand(s.workers[0]) == [];
    }
  }

  /** With no capacity at all the destructor can never post, so it never gets to join anyone. */
  lemma {:induction false} NoCapacityNoShutdown(states: seq<Pool>, actions: seq<Action>, k: nat)
    requires Run(states, actions) && k < |states| && Inv(states[0])
    requires states[0].queue.capacity == 0 && states[0].posted == 0
    ensures states[k].posted == 0 && states[k].joined == 0 && states[k].queue.capacity == 0
  {
    hide *;
    RunShape(states, actions);
    EveryRunKeepsInv(states, actions, k);
    if k == 0 {
      NothingJoined(states[0]);
    } else {
      NoCapacityNoShutdown(states, actions, k - 1);
      EveryRunKeepsInv(states, actions, k - 1);
      RunStep(states, actions, k - 1);
      NoCapacityStep(states[k - 1], actions[k - 1]);
    }
  }

  lemma NothingJoined(s: Pool)
    requires Inv(s) && s.posted == 0
    ensures s.joined == 0
  {
  }

  lemma NoCapacityStep(s: Pool, a: Action)
    requires Inv(s) && Enabled(s, a) && s.queue.capacity == 0 && s.posted == 0 && s.joined == 0
    ensures Apply(s, a).posted == 0 && Apply(s, a).joined == 0
  {
    hide NoLostWakeup, TerminatesAccounted, MessagesAccounted, Law;
  }
}

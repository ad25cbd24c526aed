/** `EventQueue`: the ring with a counting semaphore beside it. Any number of threads post;
    one thread, `consumer`, runs `wait_event`, which retries `dequeue` after every successful
    `Semaphore::try_lock`. Sleeping and waking are not modelled: a waiting consumer may
    simply try the semaphore at any time. */
module EventQueue {
  import opened Wrappers
  import opened Fifo
  import opened FifoCalls
  import opened FifoAlone

  datatype Queue<T> = Queue(
    ring: State<T>,
    sem: nat,                // Semaphore::value
    signalling: set<Tid>,    // producers whose enqueue returned Ok and whose signal is still to come
    consumer: Tid,
    waiting: bool,           // the consumer got None and is in Semaphore::wait
    woken: bool)             // the consumer left the wait and its next answer is still to come

  datatype Event<T> =
    | Post(tid: Tid, data: T)
    | WaitEvent
    | Ring(tid: Tid, spurious: bool)
    | Signal(tid: Tid)
    | TryLock

  function Start<T>(capacity: nat, consumer: Tid): Queue<T> {
    Queue(Init(capacity), 0, {}, consumer, false, false)
  }

  predicate IdleThread<T>(s: State<T>, t: Tid) { t in s.threads ==> s.threads[t].Idle? }

  /** One step; a disabled step leaves the state alone. */
  function Happen<T>(q: Queue<T>, e: Event<T>): (r: Queue<T>)
    requires |q.ring.slots| == Lap(q.ring)
    ensures |r.ring.slots| == Lap(r.ring) && r.consumer == q.consumer
  {
    match e
    case Post(t, d) =>
      if t == q.consumer || t in q.signalling || !IdleThread(q.ring, t) then q
      else q.(ring := Do(q.ring, Enqueue(t, d)))
    case WaitEvent =>
      if q.waiting || !IdleThread(q.ring, q.consumer) then q
      else q.(ring := Do(q.ring, Dequeue(q.consumer)))
    case Ring(t, spurious) =>
      if t !in q.ring.threads then q
      else
        var ring' := Access(q.ring, t, spurious);
        match q.ring.threads[t] {
        case EnqWriteStamp(_) => q.(ring := ring', signalling := q.signalling + {t})
        case DeqLoadTail(_) =>
          if ring'.threads[t].Idle? then q.(ring := ring', waiting := true, woken := false)  // None
          else q.(ring := ring')
        case DeqExchange(_) =>
          if ring'.threads[t].DeqReadValue? then q.(ring := ring', woken := false)  // Some
          else q.(ring := ring')
        case _ => q.(ring := ring')
        }
    case Signal(t) =>
      if t in q.signalling then q.(sem := q.sem + 1, signalling := q.signalling - {t}) else q
    case TryLock =>
      if q.waiting && q.sem >= 1 && IdleThread(q.ring, q.consumer) then
        q.(sem := q.sem - 1, waiting := false, woken := true, ring := Do(q.ring, Dequeue(q.consumer)))
      else q
  }

  function History<T>(capacity: nat, consumer: Tid, events: seq<Event<T>>): (q: Queue<T>)
    ensures |q.ring.slots| == Lap(q.ring) && q.consumer == consumer
  {
    if events == [] then Start(capacity, consumer)
    else Happen(History(capacity, consumer, events[..|events| - 1]), events[|events| - 1])
  }

  predicate Publishing<T>(pc: Pc<T>) { pc.EnqWriteValue? || pc.EnqWriteStamp? }

  /** Producers between their successful tail exchange and their signal. */
  function MidPost<T>(q: Queue<T>): set<Tid> {
    (set t | t in q.ring.threads && Publishing(q.ring.threads[t])) + q.signalling
  }

  function Undelivered<T>(q: Queue<T>): int { q.ring.tail - q.ring.head }

  function Credit<T>(q: Queue<T>): nat {
    q.sem + |MidPost(q)| + (if q.woken then 1 else 0)
  }

  predicate Dequeuing<T>(pc: Pc<T>) { !pc.Idle? && !Enqueuing(pc) }

  /** The thread's last call was a dequeue that returned `None`. */
  predicate WasEmpty<T>(s: State<T>, t: Tid) { t in s.threads && s.threads[t].Idle? && s.threads[t].answer.Nothing? }

  /** Who may be where, and what the consumer's two flags say about its last or current call. */
  ghost predicate Roles<T>(q: Queue<T>) {
    && !(q.waiting && q.woken)
    && (q.waiting <==> WasEmpty(q.ring, q.consumer))
    && (q.woken ==> q.consumer in q.ring.threads && Seeking(q.ring.threads[q.consumer]))
    && (forall t :: t in q.ring.threads && Dequeuing(q.ring.threads[t]) ==> t == q.consumer)
    && (forall t :: t in q.ring.threads && Enqueuing(q.ring.threads[t]) ==> t != q.consumer)
    && (forall t :: t in q.signalling ==> t != q.consumer && t in q.ring.threads && q.ring.threads[t].Idle?)
    && (forall t :: t in q.ring.threads && q.ring.threads[t].DeqLoadTail? ==>
          q.ring.threads[t].pos == q.ring.head)
  }

  ghost predicate QueueInv<T>(q: Queue<T>) {
    Shape(q.ring) && Inv(q.ring) && Roles(q) && Undelivered(q) <= Credit(q)
  }

  /** With one consumer the answer "empty" is exact at the moment it is given. */
  lemma EmptyIsExact<T>(q: Queue<T>, spurious: bool)
    requires Inv(q.ring) && Roles(q) && q.consumer in q.ring.threads
    requires q.ring.threads[q.consumer].DeqLoadTail?
    ensures Access(q.ring, q.consumer, spurious).threads[q.consumer].Idle? <==> q.ring.tail == q.ring.head
  {
    var s := q.ring;
    if s.head < s.tail && s.head % Lap(s) == s.tail % Lap(s) { SameSlot(s.head, s.tail, Lap(s)); }
  }

  /** What one ring access does to the thread that makes it. */
  lemma AccessEffect<T>(s: State<T>, t: Tid, spurious: bool)
    requires t in s.threads && |s.slots| == Lap(s)
    ensures var s', pc := Access(s, t, spurious), s.threads[t];
      && t in s'.threads && s'.threads == s.threads[t := s'.threads[t]]
      && (s'.tail == s.tail || (pc.EnqExchange? && s'.threads[t].EnqWriteValue? && s'.tail == s.tail + 1))
      && (s'.head == s.head || (pc.DeqExchange? && s'.threads[t].DeqReadValue? && s'.head == s.head + 1))
  {
  }

  lemma AccessRoles<T>(s: State<T>, t: Tid, spurious: bool)
    requires t in s.threads && |s.slots| == Lap(s)
    ensures var s', pc := Access(s, t, spurious), s.threads[t];
      && t in s'.threads && (pc.Idle? ==> s'.threads[t].Idle?)
      && (Enqueuing(pc) ==> !Dequeuing(s'.threads[t]))
      && (Dequeuing(pc) ==> !Enqueuing(s'.threads[t]))
      && (Publishing(s'.threads[t]) <==> pc.EnqWriteValue? || s'.tail != s.tail)
      && (pc.EnqWriteStamp? ==> s'.threads[t].Idle?)
      && (s'.threads[t].DeqLoadTail? ==> s'.threads[t].pos == s'.head)
      && (s'.threads[t].DeqReadValue? <==> s'.head != s.head)
      && (WasEmpty(s', t) <==> WasEmpty(s, t) || (pc.DeqLoadTail? && s'.threads[t].Idle?))
      && (Seeking(pc) ==> Seeking(s'.threads[t]) || (pc.DeqLoadTail? && s'.threads[t].Idle?)
                          || (pc.DeqExchange? && s'.threads[t].DeqReadValue?))
  {
  }

  lemma RolesKept<T>(q: Queue<T>, e: Event<T>)
    requires |q.ring.slots| == Lap(q.ring) && Roles(q)
    ensures Roles(Happen(q, e))
  {
    if e.Ring? && e.tid in q.ring.threads {
      RingRoles(q, e.tid, e.spurious);
    }
  }

  lemma RingRoles<T>(q: Queue<T>, t: Tid, spurious: bool)
    requires |q.ring.slots| == Lap(q.ring) && Roles(q) && t in q.ring.threads
    ensures Roles(Happen(q, Event<T>.Ring(t, spurious)))
  {
    AccessEffect(q.ring, t, spurious);
    AccessRoles(q.ring, t, spurious);
    hide Access;
  }

  lemma CreditKept<T>(q: Queue<T>, e: Event<T>)
    requires QueueInv(q)
    ensures Undelivered(Happen(q, e)) <= Credit(Happen(q, e))
  {
    if e.Ring? {
      if e.tid in q.ring.threads { RingCredit(q, e.tid, e.spurious); }
    } else {
      OtherCredit(q, e);
    }
  }

  lemma OtherCredit<T>(q: Queue<T>, e: Event<T>)
    requires QueueInv(q) && !e.Ring?
    ensures Undelivered(Happen(q, e)) <= Credit(Happen(q, e))
  {
    hide Inv, Access, MidPost;
    OtherMidPost(q, e);
  }

  lemma OtherMidPost<T>(q: Queue<T>, e: Event<T>)
    requires |q.ring.slots| == Lap(q.ring) && Roles(q) && !e.Ring?
    ensures if e.Signal? && e.tid in q.signalling then
              e.tid in MidPost(q) && MidPost(Happen(q, e)) == MidPost(q) - {e.tid}
            else MidPost(Happen(q, e)) == MidPost(q)
  {
    hide Access;
    var q' := Happen(q, e);
    forall u ensures u in MidPost(q') <==> u in MidPost(q) && !(e.Signal? && u == e.tid && u in q.signalling) {
    }
  }

  lemma RingMidPost<T>(q: Queue<T>, t: Tid, spurious: bool)
    requires |q.ring.slots| == Lap(q.ring) && Roles(q) && t in q.ring.threads
    ensures var q' := Happen(q, Event<T>.Ring(t, spurious));
      if q'.ring.tail != q.ring.tail then t !in MidPost(q) && MidPost(q') == MidPost(q) + {t}
      else MidPost(q') == MidPost(q)
  {
    AccessEffect(q.ring, t, spurious);
    AccessRoles(q.ring, t, spurious);
    hide Access;
    var q' := Happen(q, Event<T>.Ring(t, spurious));
    forall u ensures u in MidPost(q') <==> u in MidPost(q) || (u == t && q'.ring.tail != q.ring.tail) {
      assert u != t && u in q.ring.threads ==> q'.ring.threads[u] == q.ring.threads[u];
    }
  }

  lemma RingCredit<T>(q: Queue<T>, t: Tid, spurious: bool)
    requires QueueInv(q) && t in q.ring.threads
    ensures var q' := Happen(q, Event<T>.Ring(t, spurious)); Undelivered(q') <= Credit(q')
  {
    hide Access, Inv, MidPost;
    AccessEffect(q.ring, t, spurious);
    AccessRoles(q.ring, t, spurious);
    RingMidPost(q, t, spurious);
    if q.ring.threads[t].DeqLoadTail? { EmptyIsExact(q, spurious); }
  }

  lemma HappenKeeps<T>(q: Queue<T>, e: Event<T>)
    requires QueueInv(q)
    ensures QueueInv(Happen(q, e))
  {
    CreditKept(q, e);
    RolesKept(q, e);
    RingKept(q, e);
    assert Shape(Happen(q, e).ring);
    hide Happen, Inv, Roles;
  }

  lemma RingKept<T>(q: Queue<T>, e: Event<T>)
    requires Inv(q.ring)
    ensures Inv(Happen(q, e).ring)
  {
    hide Inv;
    match e
    case Post(t, d) => DoKeeps(q.ring, Enqueue(t, d));
    case WaitEvent => DoKeeps(q.ring, Dequeue(q.consumer));
    case Ring(t, spurious) => if t in q.ring.threads { AccessKeeps(q.ring, t, spurious); }
    case Signal(_) =>
    case TryLock => DoKeeps(q.ring, Dequeue(q.consumer));
  }

  lemma {:induction false} HistoryInv<T>(capacity: nat, consumer: Tid, events: seq<Event<T>>)
    ensures QueueInv(History(capacity, consumer, events))
  {
    if events == [] {
      InitInv<T>(capacity);
    } else {
      HistoryInv(capacity, consumer, events[..|events| - 1]);
      HappenKeeps(History(capacity, consumer, events[..|events| - 1]), events[|events| - 1]);
    }
  }

  /** No event is stranded: in every history, the events claimed and not yet taken are
      covered by the semaphore, the producers still to signal and a consumer that is on its
      way to look again. A zero semaphore with nobody on the way means an empty queue. */
  lemma NoEventStranded<T>(capacity: nat, consumer: Tid, events: seq<Event<T>>)
    ensures var q := History(capacity, consumer, events);
      && q.ring.tail - q.ring.head <= q.sem + |MidPost(q)| + (if q.woken then 1 else 0)
      && (q.sem == 0 && MidPost(q) == {} && !q.woken ==> q.ring.tail == q.ring.head)
  {
    HistoryInv(capacity, consumer, events);
  }

  // ---- the balance ----

  /** Signals given, and waits left: counted from the events and the states they met. */
  function Signals<T>(capacity: nat, consumer: Tid, events: seq<Event<T>>): nat {
    if events == [] then 0
    else
      var before, e := events[..|events| - 1], events[|events| - 1];
      Signals(capacity, consumer, before)
      + if e.Signal? && e.tid in History(capacity, consumer, before).signalling then 1 else 0
  }

  function Wakes<T>(capacity: nat, consumer: Tid, events: seq<Event<T>>): nat {
    if events == [] then 0
    else
      var before := events[..|events| - 1];
      Wakes(capacity, consumer, before)
      + if History(capacity, consumer, before).waiting && !History(capacity, consumer, events).waiting then 1 else 0
  }

  /** The semaphore holds exactly the signals that no wait has taken; and signals, with those still
      to come from producers that have claimed a position, are exactly one for every position. */
  lemma {:induction false} SemaphoreBalances<T>(capacity: nat, consumer: Tid, events: seq<Event<T>>)
    ensures var q := History(capacity, consumer, events);
      && q.sem + Wakes(capacity, consumer, events) == Signals(capacity, consumer, events)
      && q.sem + Wakes(capacity, consumer, events) + |MidPost(q)| == q.ring.tail
  {
    if events == [] {
      InitInv<T>(capacity);
    } else {
      var before, e := events[..|events| - 1], events[|events| - 1];
      SemaphoreBalances(capacity, consumer, before);
      HistoryInv(capacity, consumer, before);
      hide Happen, MidPost, Inv, Roles;
      EventBalance(History(capacity, consumer, before), e);
    }
  }

  /** What one event adds to either side. */
  lemma EventBalance<T>(q: Queue<T>, e: Event<T>)
    requires QueueInv(q)
    ensures var q' := Happen(q, e);
      var signals := if e.Signal? && e.tid in q.signalling then 1 else 0;
      var wakes := if q.waiting && !q'.waiting then 1 else 0;
      && q'.sem + wakes == q.sem + signals
      && q'.ring.tail - |MidPost(q')| == q.ring.tail - |MidPost(q)| + signals
  {
    hide Inv, Access, MidPost;
    if e.Ring? {
      if e.tid in q.ring.threads {
        AccessEffect(q.ring, e.tid, e.spurious);
        RingMidPost(q, e.tid, e.spurious);
        RingFlags(q, e.tid, e.spurious);
      }
    } else {
      OtherMidPost(q, e);
    }
  }

  lemma RingFlags<T>(q: Queue<T>, t: Tid, spurious: bool)
    requires |q.ring.slots| == Lap(q.ring) && Roles(q) && t in q.ring.threads
    ensures var q' := Happen(q, Event<T>.Ring(t, spurious)); q'.sem == q.sem && (q.waiting ==> q'.waiting)
  {
    hide Access;
  }

  /** An attempt on the semaphore takes one signal, or there is none and the consumer waits on. */
  lemma WaitsExactlyAtZero<T>(capacity: nat, consumer: Tid, events: seq<Event<T>>)
    ensures var q := History(capacity, consumer, events);
      var q' := Happen(q, TryLock);
      q'.waiting <==> q.waiting && q.sem == 0
  {
    HistoryInv(capacity, consumer, events);
    hide History;
  }

  // ---- a thread with the processor to itself ----

  /** The next `n` accesses of one thread. */
  function Rings<T>(q: Queue<T>, t: Tid, n: nat): (r: Queue<T>)
    requires |q.ring.slots| == Lap(q.ring)
    ensures |r.ring.slots| == Lap(r.ring) && r.consumer == q.consumer
  {
    if n == 0 then q else Happen(Rings(q, t, n - 1), Ring(t, false))
  }

  lemma {:induction false} RingsAlone<T>(q: Queue<T>, t: Tid, n: nat)
    requires |q.ring.slots| == Lap(q.ring) && t in q.ring.threads
    ensures Rings(q, t, n).ring == Alone(q.ring, t, n) && Rings(q, t, n).sem == q.sem
  {
    hide Access;
    if n > 0 {
      RingsAlone(q, t, n - 1);
      RingAccess(Rings(q, t, n - 1), t);
    }
  }

  lemma RingAccess<T>(q: Queue<T>, t: Tid)
    requires |q.ring.slots| == Lap(q.ring) && t in q.ring.threads
    ensures var q' := Happen(q, Event<T>.Ring(t, false));
      && q'.ring == Access(q.ring, t, false) && q'.sem == q.sem
      && (q.ring.threads[t].EnqWriteStamp? ==> t in q'.signalling)
  {
    hide Access;
  }

  lemma RingShaped<T>(q: Queue<T>)
    requires QueueInv(q)
    ensures |q.ring.slots| == Lap(q.ring)
  {
    hide Inv, Roles;
  }

  lemma {:induction false} RingsKeep<T>(q: Queue<T>, t: Tid, n: nat)
    requires QueueInv(q)
    ensures |q.ring.slots| == Lap(q.ring) && QueueInv(Rings(q, t, n))
  {
    hide QueueInv, Happen;
    RingShaped(q);
    if n > 0 {
      RingsKeep(q, t, n - 1);
      HappenKeeps(Rings(q, t, n - 1), Event<T>.Ring(t, false));
    }
  }

  lemma RingSettled<T>(q: Queue<T>)
    requires Roles(q) && IdleThread(q.ring, q.consumer) && MidPost(q) == {}
    ensures Settled(q.ring)
  {
    forall u | u in q.ring.threads ensures !Busy(q.ring.threads[u]) {
      assert Publishing(q.ring.threads[u]) ==> u in MidPost(q);
    }
  }

  /** A waiting consumer gets the oldest event as soon as one is there: with no producer between
      its claim and its signal, an event in the queue means a signal, and one attempt and six
      accesses later the consumer has returned it. */
  lemma WaitingConsumerGetsOldest<T>(capacity: nat, consumer: Tid, events: seq<Event<T>>)
    requires var q := History(capacity, consumer, events);
      q.waiting && MidPost(q) == {} && q.ring.tail > q.ring.head
    ensures var q := History(capacity, consumer, events);
      var r := Rings(Happen(q, TryLock), consumer, 6);
      q.sem >= 1 && Shape(q.ring) && TakenBy(q.ring, r.ring, consumer) && QueueInv(r)
  {
    hide History, QueueInv, Roles, MidPost;
    HistoryInv(capacity, consumer, events);
    WokenGetsOldest(History(capacity, consumer, events));
  }

  lemma WokenGetsOldest<T>(q: Queue<T>)
    requires QueueInv(q) && q.waiting && MidPost(q) == {} && q.ring.tail > q.ring.head
    ensures q.sem >= 1 && Shape(q.ring) && QueueInv(Rings(Happen(q, TryLock), q.consumer, 6))
    ensures TakenBy(q.ring, Rings(Happen(q, TryLock), q.consumer, 6).ring, q.consumer)
  {
    hide Inv, Happen, Rings, Alone, TakenBy, MidPost, QueueInv, Settled;
    SignalIsThere(q);
    var w := Happen(q, TryLock);
    HappenKeeps(q, TryLock);
    RingsKeep(w, q.consumer, 6);
    RingsAlone(w, q.consumer, 6);
    TakesAlone(q.ring, q.consumer);
  }

  lemma SignalIsThere<T>(q: Queue<T>)
    requires QueueInv(q) && q.waiting && MidPost(q) == {} && q.ring.tail > q.ring.head
    ensures q.sem >= 1 && Shape(q.ring) && Inv(q.ring) && Settled(q.ring)
    ensures Happen(q, TryLock).ring == Goto(q.ring, q.consumer, DeqLoadHead)
  {
    RingSettled(q);
    hide Inv, MidPost, Settled;
  }

  /** A consumer that asks gets the oldest event, or waits. */
  lemma AskingConsumerGetsOldest<T>(q: Queue<T>)
    requires QueueInv(q) && !q.waiting && IdleThread(q.ring, q.consumer) && MidPost(q) == {}
    ensures Shape(q.ring)
    ensures if q.ring.tail > q.ring.head then
              TakenBy(q.ring, Rings(Happen(q, WaitEvent), q.consumer, 6).ring, q.consumer)
            else Rings(Happen(q, WaitEvent), q.consumer, 2).waiting
  {
    assert Roles(q) && Shape(q.ring);
    RingSettled(q);
    HappenKeeps(q, WaitEvent);
    var w := Happen(q, WaitEvent);
    assert w.ring == Goto(q.ring, q.consumer, DeqLoadHead);
    hide Inv, Roles, Happen, Rings, Alone, TakenBy, MidPost, QueueInv, Settled;
    if q.ring.tail > q.ring.head {
      RingsAlone(w, q.consumer, 6);
      TakesAlone(q.ring, q.consumer);
    } else {
      RingsAlone(w, q.consumer, 2);
      RingsKeep(w, q.consumer, 2);
      FindsHead(q.ring, q.consumer);
      WaitsIfEmpty(Rings(w, q.consumer, 2));
    }
  }

  lemma WaitsIfEmpty<T>(q: Queue<T>)
    requires QueueInv(q) && q.consumer in q.ring.threads && q.ring.threads[q.consumer] == Idle(Nothing)
    ensures q.waiting
  {
    hide Inv;
  }

  /** A post alone: with room the event is the last of the queue and signalled once, without it is
      handed back and not signalled. */
  lemma PostAlone<T>(q: Queue<T>, t: Tid, d: T)
    requires QueueInv(q) && t != q.consumer && t !in q.signalling && IdleThread(q.ring, t) && Settled(q.ring)
    ensures Shape(q.ring)
    ensures var p := Happen(q, Event<T>.Post(t, d));
      if q.ring.tail - q.ring.head == Lap(q.ring) - 1 then
        Rings(p, t, 2).ring == Goto(q.ring, t, Idle(Refused(d))) && Rings(p, t, 2).sem == q.sem
      else
        var r := Happen(Rings(p, t, 6), Event<T>.Signal(t));
        AddedBy(q.ring, r.ring, t, d) && r.sem == q.sem + 1 && t !in r.signalling
  {
    assert Shape(q.ring);
    var p := Happen(q, Event<T>.Post(t, d));
    assert p.ring == Goto(q.ring, t, EnqLoadTail(d)) && p.sem == q.sem;
    hide Roles, Rings, Alone, AddedBy, QueueInv, Inv, Settled, Access;
    if q.ring.tail - q.ring.head == Lap(q.ring) - 1 {
      RingsAlone(p, t, 2);
      FindsRoom(q.ring, t, d);
    } else {
      AddsAlone(q.ring, t, d);
      RingsAlone(p, t, 5);
      RingsAlone(p, t, 6);
      LastRing(p, t);
    }
  }

  lemma LastRing<T>(p: Queue<T>, t: Tid)
    requires |p.ring.slots| == Lap(p.ring) && t in Rings(p, t, 5).ring.threads
    requires Rings(p, t, 5).ring.threads[t].EnqWriteStamp?
    ensures t in Rings(p, t, 6).signalling
  {
    RingAccess(Rings(p, t, 5), t);
    hide Happen;
  }
}

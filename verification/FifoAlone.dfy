/** A call that no other thread interferes with: it ends after a few accesses, and does what the
    operation of a bounded queue does. */
module FifoAlone {
  import opened Bits
  import opened Wrappers
  import opened Fifo
  import opened FifoCalls

  /** `n` accesses of one thread, none of which fails spuriously. */
  function Alone<T>(s: State<T>, t: Tid, n: nat): (r: State<T>)
    requires t in s.threads && |s.slots| == Lap(s)
    ensures t in r.threads && |r.slots| == Lap(r) && r.lapBits == s.lapBits
  {
    if n == 0 then s
    else
      TicksKeep(Alone(s, t, n - 1), t);
      Access(Alone(s, t, n - 1), t, false)
  }

  lemma TicksKeep<T>(s: State<T>, t: Tid)
    requires t in s.threads && |s.slots| == Lap(s)
    ensures t in Access(s, t, false).threads
  {
  }

  lemma InvShape<T>(s: State<T>)
    requires Inv(s)
    ensures Shape(s)
  {
    hide FullSlot, FreeSlot, PcOk, Exclusive, Accounted;
  }

  /** Nobody is between an exchange and the write of its stamp. */
  ghost predicate Settled<T>(s: State<T>) { forall u :: u in s.threads ==> !Busy(s.threads[u]) }

  lemma SettledSlots<T>(s: State<T>)
    requires Inv(s) && Settled(s)
    ensures s.tail - s.head < Lap(s) - 1 ==> SlotAt(s, s.tail).stamp == s.tail
    ensures s.head < s.tail ==>
      SlotAt(s, s.head).stamp == s.head + 1 && SlotAt(s, s.head).value == Some(s.claimed[s.head])
  {
    if s.tail - s.head < Lap(s) - 1 { assert FreeSlot(s, s.tail); }
    if s.head < s.tail { assert FullSlot(s, s.head); }
  }

  lemma Again<T>(s: State<T>, t: Tid, pc: Pc<T>, pc': Pc<T>)
    ensures Goto(Goto(s, t, pc), t, pc') == Goto(s, t, pc')
  {
    assert s.threads[t := pc][t := pc'] == s.threads[t := pc'];
  }

  lemma LoadAndTest<T>(s: State<T>, t: Tid, d: T)
    requires |s.slots| == Lap(s)
    ensures Alone(Goto(s, t, EnqLoadTail(d)), t, 2)
         == Goto(s, t, if (s.tail + 1) % Lap(s) == s.head % Lap(s) then Idle(Refused(d)) else EnqLoadStamp(d, s.tail))
  {
    var s0 := Goto(s, t, EnqLoadTail(d));
    Again(s, t, EnqLoadTail(d), EnqLoadHead(d, s.tail));
    assert Alone(s0, t, 0) == s0;
    assert Alone(s0, t, 1) == Goto(s, t, EnqLoadHead(d, s.tail));
    Again(s, t, EnqLoadHead(d, s.tail), Idle(Refused(d)));
    Again(s, t, EnqLoadHead(d, s.tail), EnqLoadStamp(d, s.tail));
  }

  lemma {:induction false} AloneAdd<T>(s: State<T>, t: Tid, m: nat, n: nat)
    requires t in s.threads && |s.slots| == Lap(s)
    ensures Alone(s, t, m + n) == Alone(Alone(s, t, m), t, n)
  {
    hide Access;
    if n > 0 { AloneAdd(s, t, m, n - 1); }
  }

  lemma ClaimAndWrite<T>(s: State<T>, t: Tid, d: T)
    requires |s.slots| == Lap(s) && SlotAt(s, s.tail).stamp == s.tail
    ensures var r := Alone(Goto(s, t, EnqLoadStamp(d, s.tail)), t, 4);
      && r.threads == s.threads[t := Idle(Stored)] && r.delivered == s.delivered && r.head == s.head
      && r.tail == s.tail + 1 && r.claimed == s.claimed + [d]
    ensures Alone(Goto(s, t, EnqLoadStamp(d, s.tail)), t, 3).threads[t].EnqWriteStamp?
  {
    var p := s.tail;
    var s0 := Goto(s, t, EnqLoadStamp(d, p));
    assert Alone(s0, t, 0) == s0;
    Again(s, t, EnqLoadStamp(d, p), EnqExchange(d, p));
    assert Alone(s0, t, 1) == Goto(s, t, EnqExchange(d, p));
    var c := s.(tail := p + 1, claimed := s.claimed + [d]);
    Again(c, t, EnqExchange(d, p), EnqWriteValue(d, p));
    assert Alone(s0, t, 2) == Goto(c, t, EnqWriteValue(d, p));
    Again(SetValue(c, p, d), t, EnqWriteValue(d, p), EnqWriteStamp(p));
    assert Alone(s0, t, 3) == Goto(SetValue(c, p, d), t, EnqWriteStamp(p));
    assert Alone(s0, t, 3).threads[t].EnqWriteStamp?;
    var v := SetValue(c, p, d);
    Again(SetStamp(v, p, p + 1), t, EnqWriteStamp(p), Idle(Stored));
    assert Alone(s0, t, 4) == Goto(SetStamp(v, p, p + 1), t, Idle(Stored));
  }

  /** The datum is behind everything that was there, and nothing else changed. */
  ghost predicate AddedBy<T>(s: State<T>, r: State<T>, t: Tid, d: T) {
    && Shape(s) && Shape(r) && r.head == s.head && Queue(r) == Queue(s) + [d]
    && r.threads == s.threads[t := Idle(Stored)] && r.delivered == s.delivered
  }

  lemma AddsLast<T>(s: State<T>, t: Tid, d: T)
    requires Inv(s) && Settled(s) && s.tail - s.head < Lap(s) - 1
    ensures |s.slots| == Lap(s) && AddedBy(s, Alone(Goto(s, t, EnqLoadStamp(d, s.tail)), t, 4), t, d)
    ensures Alone(Goto(s, t, EnqLoadStamp(d, s.tail)), t, 3).threads[t].EnqWriteStamp?
  {
    assert Shape(s);
    SettledSlots(s);
    hide Inv, Settled;
    ClaimAndWrite(s, t, d);
    hide Alone, SlotAt;
  }

  lemma FindsRoom<T>(s: State<T>, t: Tid, d: T)
    requires Shape(s)
    ensures Alone(Goto(s, t, EnqLoadTail(d)), t, 2)
         == Goto(s, t, if s.tail - s.head == Lap(s) - 1 then Idle(Refused(d)) else EnqLoadStamp(d, s.tail))
  {
    hide Alone, Lap;
    LoadAndTest(s, t, d);
    FullTest(s.head, s.tail, Lap(s));
  }

  lemma AddsAlone<T>(s: State<T>, t: Tid, d: T)
    requires Inv(s) && Settled(s) && s.tail - s.head < Lap(s) - 1
    ensures |s.slots| == Lap(s) && AddedBy(s, Alone(Goto(s, t, EnqLoadTail(d)), t, 6), t, d)
    ensures Alone(Goto(s, t, EnqLoadTail(d)), t, 5).threads[t].EnqWriteStamp?
  {
    hide Alone, AddedBy, Settled, Pow2, Inv;
    InvShape(s);
    FindsRoom(s, t, d);
    AddsLast(s, t, d);
    AloneAdd(Goto(s, t, EnqLoadTail(d)), t, 2, 4);
    AloneAdd(Goto(s, t, EnqLoadTail(d)), t, 2, 3);
  }

  /** An enqueue alone: with room the datum is the last of the queue, without it is refused and
      nothing has changed. */
  lemma EnqueueAlone<T>(s: State<T>, t: Tid, d: T)
    requires Inv(s) && Settled(s) && !InCall(s, t)
    ensures var s0 := Do(s, Enqueue(t, d));
      if s.tail - s.head == Lap(s) - 1 then Alone(s0, t, 2) == Goto(s, t, Idle(Refused(d)))
      else AddedBy(s, Alone(s0, t, 6), t, d)
  {
    assert Shape(s);
    hide Inv, Settled, Alone, AddedBy;
    FindsRoom(s, t, d);
    if s.tail - s.head < Lap(s) - 1 { AddsAlone(s, t, d); }
  }

  lemma LoadAndCompare<T>(s: State<T>, t: Tid)
    requires |s.slots| == Lap(s)
    ensures Alone(Goto(s, t, DeqLoadHead), t, 2)
         == Goto(s, t, if s.head % Lap(s) == s.tail % Lap(s) then Idle(Nothing) else DeqLoadStamp(s.head))
  {
    var s0 := Goto(s, t, DeqLoadHead);
    Again(s, t, DeqLoadHead, DeqLoadTail(s.head));
    assert Alone(s0, t, 0) == s0;
    assert Alone(s0, t, 1) == Goto(s, t, DeqLoadTail(s.head));
    Again(s, t, DeqLoadTail(s.head), Idle(Nothing));
    Again(s, t, DeqLoadTail(s.head), DeqLoadStamp(s.head));
  }

  lemma TakeAndFree<T>(s: State<T>, t: Tid)
    requires |s.slots| == Lap(s) && SlotAt(s, s.head).stamp == s.head + 1
    ensures var r, v := Alone(Goto(s, t, DeqLoadStamp(s.head)), t, 4), SlotAt(s, s.head).value;
      && r.threads == s.threads[t := Idle(Taken(v))] && r.delivered == s.delivered[s.head := v]
      && r.head == s.head + 1 && r.tail == s.tail && r.claimed == s.claimed
  {
    var p := s.head;
    var s0 := Goto(s, t, DeqLoadStamp(p));
    assert Alone(s0, t, 0) == s0;
    Again(s, t, DeqLoadStamp(p), DeqExchange(p));
    assert Alone(s0, t, 1) == Goto(s, t, DeqExchange(p));
    var c := s.(head := p + 1);
    Again(c, t, DeqExchange(p), DeqReadValue(p));
    assert Alone(s0, t, 2) == Goto(c, t, DeqReadValue(p));
    var v := SlotAt(s, p).value;
    Again(c, t, DeqReadValue(p), DeqWriteStamp(p, v));
    assert Alone(s0, t, 3) == Goto(c, t, DeqWriteStamp(p, v));
    Again(SetStamp(c, p, p + Lap(s)), t, DeqWriteStamp(p, v), Idle(Taken(v)));
  }

  /** The oldest value went to `t`, and all else stayed. */
  ghost predicate TakenBy<T>(s: State<T>, r: State<T>, t: Tid) {
    && Shape(s) && Shape(r) && s.head < s.tail && r.tail == s.tail
    && var oldest := Queue(s)[0];
       && Queue(s) == [oldest] + Queue(r)
       && r.threads == s.threads[t := Idle(Taken(Some(oldest)))] && r.delivered == s.delivered[s.head := Some(oldest)]
  }

  lemma TakesOldest<T>(s: State<T>, t: Tid)
    requires Inv(s) && Settled(s) && s.head < s.tail
    ensures TakenBy(s, Alone(Goto(s, t, DeqLoadStamp(s.head)), t, 4), t)
  {
    assert Shape(s);
    SettledSlots(s);
    hide Inv, Settled;
    TakeAndFree(s, t);
    hide Alone, SlotAt;
  }

  lemma EmptyTest(head: nat, tail: nat, lap: nat)
    requires head <= tail && tail - head < lap
    ensures head % lap == tail % lap <==> head == tail
  {
    if head < tail && head % lap == tail % lap { SameSlot(head, tail, lap); }
  }

  lemma FindsHead<T>(s: State<T>, t: Tid)
    requires Shape(s)
    ensures Alone(Goto(s, t, DeqLoadHead), t, 2)
         == Goto(s, t, if s.head == s.tail then Idle(Nothing) else DeqLoadStamp(s.head))
  {
    hide Alone, Lap;
    LoadAndCompare(s, t);
    EmptyTest(s.head, s.tail, Lap(s));
  }

  lemma TakesAlone<T>(s: State<T>, t: Tid)
    requires Inv(s) && Settled(s) && s.head < s.tail
    ensures |s.slots| == Lap(s) && TakenBy(s, Alone(Goto(s, t, DeqLoadHead), t, 6), t)
  {
    hide Alone, TakenBy, Settled, Pow2, Inv;
    InvShape(s);
    FindsHead(s, t);
    TakesOldest(s, t);
    AloneAdd(Goto(s, t, DeqLoadHead), t, 2, 4);
  }

  /** A dequeue alone: it returns and removes the oldest value, or finds the queue empty and
      changes nothing. */
  lemma DequeueAlone<T>(s: State<T>, t: Tid)
    requires Inv(s) && Settled(s) && !InCall(s, t)
    ensures var s0 := Do(s, Action<T>.Dequeue(t));
      if s.tail == s.head then Alone(s0, t, 2) == Goto(s, t, Idle(Nothing)) else TakenBy(s, Alone(s0, t, 6), t)
  {
    assert Shape(s);
    hide Inv, Settled, Alone, TakenBy;
    FindsHead(s, t);
    if s.head < s.tail { TakesAlone(s, t); }
  }

  // ---- a call that was interfered with before ----

  ghost predicate Finishes<T>(s: State<T>, t: Tid, n: nat)
    requires t in s.threads && |s.slots| == Lap(s)
  {
    Alone(s, t, n).threads[t].Idle?
  }

  /** No other thread is between an exchange and the write of its stamp. */
  ghost predicate OthersSettled<T>(s: State<T>, t: Tid) {
    forall u :: u in s.threads && u != t ==> !Busy(s.threads[u])
  }

  lemma {:induction false} FinishedStays<T>(s: State<T>, t: Tid, m: nat, n: nat)
    requires t in s.threads && |s.slots| == Lap(s) && Finishes(s, t, m) && m <= n
    ensures Finishes(s, t, n)
    decreases n
  {
    if m < n { FinishedStays(s, t, m, n - 1); }
  }

  /** The state one access later, and what is left to do from there. */
  lemma OneAccess<T>(s: State<T>, t: Tid) returns (s': State<T>)
    requires Inv(s) && t in s.threads && OthersSettled(s, t)
    ensures s' == Access(s, t, false) && Inv(s') && t in s'.threads && OthersSettled(s', t) && |s'.slots| == Lap(s')
    ensures forall n: nat {:trigger Finishes(s', t, n)} :: Finishes(s', t, n) ==> Finishes(s, t, n + 1)
  {
    assert Shape(s);
    hide Access, Inv;
    s' := Access(s, t, false);
    AccessKeeps(s, t, false);
    AccessMoves(s, t, false);
    assert Alone(s, t, 0) == s && Alone(s, t, 1) == s';
    forall n: nat | Finishes(s', t, n) ensures Finishes(s, t, n + 1) { AloneAdd(s, t, 1, n); }
  }

  lemma EnqueueFinishes<T>(s: State<T>, t: Tid, d: T)
    requires Inv(s) && Settled(s) && !InCall(s, t)
    ensures |s.slots| == Lap(s) && Finishes(Goto(s, t, EnqLoadTail(d)), t, 6)
  {
    assert Shape(s);
    EnqueueAlone(s, t, d);
    hide Inv, Settled, Alone, Queue;
    if s.tail - s.head == Lap(s) - 1 { FinishedStays(Goto(s, t, EnqLoadTail(d)), t, 2, 6); }
  }

  lemma DequeueFinishes<T>(s: State<T>, t: Tid)
    requires Inv(s) && Settled(s) && !InCall(s, t)
    ensures |s.slots| == Lap(s) && Finishes(Goto(s, t, DeqLoadHead), t, 6)
  {
    assert Shape(s);
    DequeueAlone(s, t);
    hide Inv, Settled, Alone, Queue;
    if s.tail == s.head { FinishedStays(Goto(s, t, DeqLoadHead), t, 2, 6); }
  }

  lemma FromTheStart<T>(s: State<T>, t: Tid)
    requires Inv(s) && t in s.threads && OthersSettled(s, t) && (s.threads[t].EnqLoadTail? || s.threads[t].DeqLoadHead?)
    ensures |s.slots| == Lap(s) && Finishes(s, t, 6)
  {
    var s' := Goto(s, t, Idle(Nothing));
    MoveQuiet(s, t, Idle(Nothing));
    assert s == Goto(s', t, s.threads[t]) by { Again(s, t, Idle(Nothing), s.threads[t]); }
    hide Inv, Finishes, PcOk;
    if s.threads[t].EnqLoadTail? {
      EnqueueFinishes(s', t, s.threads[t].data);
    } else {
      DequeueFinishes(s', t);
    }
  }

  /** Where one access can lead: a call goes on, ends, or starts over. */
  predicate Leads<T>(pc: Pc<T>, pc': Pc<T>) {
    match pc
    case Idle(_) => pc'.Idle?
    case EnqLoadTail(_) => pc'.EnqLoadHead?
    case EnqLoadHead(_, _) => pc'.Idle? || pc'.EnqLoadStamp?
    case EnqLoadStamp(_, _) => pc'.EnqLoadTail? || pc'.EnqExchange?
    case EnqExchange(_, _) => pc'.EnqLoadTail? || pc'.EnqWriteValue?
    case EnqWriteValue(_, _) => pc'.EnqWriteStamp?
    case EnqWriteStamp(_) => pc'.Idle?
    case DeqLoadHead => pc'.DeqLoadTail?
    case DeqLoadTail(_) => pc'.Idle? || pc'.DeqLoadStamp?
    case DeqLoadStamp(_) => pc'.DeqLoadHead? || pc'.DeqExchange?
    case DeqExchange(_) => pc'.DeqLoadHead? || pc'.DeqReadValue?
    case DeqReadValue(_) => pc'.DeqWriteStamp?
    case DeqWriteStamp(_, _) => pc'.Idle?
  }

  lemma AccessLeads<T>(s: State<T>, t: Tid)
    requires t in s.threads && |s.slots| == Lap(s)
    ensures t in Access(s, t, false).threads && Leads(s.threads[t], Access(s, t, false).threads[t])
  {
    hide Index;
  }

  /** Accesses left until the call is over, if nobody interferes. */
  function Left<T>(pc: Pc<T>): nat {
    match pc
    case Idle(_) => 0
    case EnqLoadTail(_) => 6 case DeqLoadHead => 6
    case EnqLoadHead(_, _) => 9 case DeqLoadTail(_) => 9
    case EnqLoadStamp(_, _) => 8 case DeqLoadStamp(_) => 8
    case EnqExchange(_, _) => 7 case DeqExchange(_) => 7
    case EnqWriteValue(_, _) => 2 case DeqReadValue(_) => 2
    case EnqWriteStamp(_) => 1 case DeqWriteStamp(_, _) => 1
  }

  predicate AtStart<T>(pc: Pc<T>) { pc.EnqLoadTail? || pc.DeqLoadHead? }

  lemma LeadsDown<T>(pc: Pc<T>, pc': Pc<T>)
    requires Leads(pc, pc') && !pc.Idle? && !AtStart(pc)
    ensures Left(pc') < Left(pc)
  {
  }

  /** Whatever has gone before, a call that is left alone is over after at most nine accesses. */
  lemma {:induction false} CallsFinishAlone<T>(s: State<T>, t: Tid)
    requires Inv(s) && t in s.threads && OthersSettled(s, t)
    ensures |s.slots| == Lap(s) && Finishes(s, t, Left(s.threads[t]))
    decreases Left(s.threads[t])
  {
    assert Shape(s);
    hide Inv, Access, OthersSettled, Leads;
    var pc := s.threads[t];
    if AtStart(pc) {
      FromTheStart(s, t);
    } else if pc.Idle? {
      assert Alone(s, t, 0) == s;
    } else {
      hide Finishes, Left;
      var s' := OneAccess(s, t);
      AccessLeads(s, t);
      LeadsDown(pc, s'.threads[t]);
      CallsFinishAlone(s', t);
      FinishedStays(s', t, Left(s'.threads[t]), Left(pc) - 1);
    }
  }
}

/** The stamped ring of `ConcurrentFifo`, as a transition system over any number of
    threads. Every atomic access of the source is one step; what a thread has loaded
    sits in its program counter, so loads may be stale by the time they are used.
    `claimed` and `delivered` record history: the value the p-th successful tail
    exchange brought, and the value the consumer of position p returned. */
module Fifo {
  import opened Wrappers
  import opened Bits

  type Tid = nat

  datatype Slot<T> = Slot(stamp: nat, value: Option<T>)

  /** What a call returned: `Err(data)` and `Ok(())` of `enqueue`, `None` and `Some` of `dequeue`. */
  datatype Answer<T> = Refused(data: T) | Stored | Nothing | Taken(value: Option<T>)

  /** Program counters, named after the access the thread is about to make; a thread between
      two calls holds the answer to the last. */
  datatype Pc<T> =
    | Idle(answer: Answer<T>)
    | EnqLoadTail(data: T)
    | EnqLoadHead(data: T, pos: nat)
    | EnqLoadStamp(data: T, pos: nat)
    | EnqExchange(data: T, pos: nat)
    | EnqWriteValue(data: T, pos: nat)
    | EnqWriteStamp(pos: nat)
    | DeqLoadHead
    | DeqLoadTail(pos: nat)
    | DeqLoadStamp(pos: nat)
    | DeqExchange(pos: nat)
    | DeqReadValue(pos: nat)
    | DeqWriteStamp(pos: nat, got: Option<T>)

  datatype State<T> = State(
    head: nat, tail: nat, lapBits: nat, slots: seq<Slot<T>>, threads: map<Tid, Pc<T>>,
    claimed: seq<T>, delivered: map<nat, Option<T>>)

  datatype Action<T> =
    | Enqueue(tid: Tid, data: T)
    | Dequeue(tid: Tid)
    | Tick(tid: Tid, spurious: bool)  // one access; `spurious` makes a weak exchange fail

  function Lap<T>(s: State<T>): (r: nat)
    ensures r >= 1
  {
    Pow2(s.lapBits)
  }

  /** `position & mask`, where the mask is one less than the power-of-two capacity. */
  function Index(pos: nat, lapBits: nat): (i: nat)
    ensures i == pos % Pow2(lapBits) < Pow2(lapBits)
  {
    AndMask(pos, lapBits);
    BitAnd(pos, Pow2(lapBits) - 1)
  }

  /** `(capacity + 1).next_power_of_two()`, as its exponent. */
  function LapBits(capacity: nat, k: nat): (r: nat)
    requires k > 0 ==> Pow2(k - 1) < capacity + 1
    ensures capacity + 1 <= Pow2(r)
    ensures r > 0 ==> Pow2(r - 1) < capacity + 1
    decreases capacity + 1 - (if k == 0 then 0 else Pow2(k - 1)), k == 0
  {
    if capacity + 1 <= Pow2(k) then k else LapBits(capacity, k + 1)
  }

  function Init<T>(capacity: nat): State<T> {
    var bits := LapBits(capacity, 0);
    State(0, 0, bits, seq(Pow2(bits), i requires 0 <= i => Slot(i, None)), map[], [], map[])
  }

  function Goto<T>(s: State<T>, t: Tid, pc: Pc<T>): State<T> {
    s.(threads := s.threads[t := pc])
  }

  function SetStamp<T>(s: State<T>, pos: nat, stamp: nat): State<T>
    requires |s.slots| == Lap(s)
  {
    var i := Index(pos, s.lapBits);
    s.(slots := s.slots[i := s.slots[i].(stamp := stamp)])
  }

  function SetValue<T>(s: State<T>, pos: nat, v: T): State<T>
    requires |s.slots| == Lap(s)
  {
    var i := Index(pos, s.lapBits);
    s.(slots := s.slots[i := s.slots[i].(value := Some(v))])
  }

  /** One atomic access by thread `t`. */
  function Access<T>(s: State<T>, t: Tid, spurious: bool): (r: State<T>)
    requires t in s.threads && |s.slots| == Lap(s)
    ensures |r.slots| == Lap(r) && r.lapBits == s.lapBits
  {
    match s.threads[t]
    case Idle(_) => s
    case EnqLoadTail(d) => Goto(s, t, EnqLoadHead(d, s.tail))
    case EnqLoadHead(d, pos) =>
      if Index(pos + 1, s.lapBits) == Index(s.head, s.lapBits) then Goto(s, t, Idle(Refused(d)))
      else Goto(s, t, EnqLoadStamp(d, pos))
    case EnqLoadStamp(d, pos) =>
      if s.slots[Index(pos, s.lapBits)].stamp == pos then Goto(s, t, EnqExchange(d, pos))
      else Goto(s, t, EnqLoadTail(d))
    case EnqExchange(d, pos) =>
      if s.tail == pos && !spurious then
        Goto(s.(tail := pos + 1, claimed := s.claimed + [d]), t, EnqWriteValue(d, pos))
      else Goto(s, t, EnqLoadTail(d))
    case EnqWriteValue(d, pos) => Goto(SetValue(s, pos, d), t, EnqWriteStamp(pos))
    case EnqWriteStamp(pos) => Goto(SetStamp(s, pos, pos + 1), t, Idle(Stored))
    case DeqLoadHead => Goto(s, t, DeqLoadTail(s.head))
    case DeqLoadTail(pos) =>
      if Index(pos, s.lapBits) == Index(s.tail, s.lapBits) then Goto(s, t, Idle(Nothing))
      else Goto(s, t, DeqLoadStamp(pos))
    case DeqLoadStamp(pos) =>
      if s.slots[Index(pos, s.lapBits)].stamp == pos + 1 then Goto(s, t, DeqExchange(pos))
      else Goto(s, t, DeqLoadHead)
    case DeqExchange(pos) =>
      if s.head == pos && !spurious then Goto(s.(head := pos + 1), t, DeqReadValue(pos))
      else Goto(s, t, DeqLoadHead)
    case DeqReadValue(pos) =>
      Goto(s, t, DeqWriteStamp(pos, s.slots[Index(pos, s.lapBits)].value))
    case DeqWriteStamp(pos, got) =>
      Goto(SetStamp(s, pos, pos + Lap(s)), t, Idle(Taken(got))).(delivered := s.delivered[pos := got])
  }

  /** A thread that is idle (or new) may call `enqueue` or `dequeue`; a disabled action
      leaves the state alone. */
  function Do<T>(s: State<T>, a: Action<T>): (r: State<T>)
    requires |s.slots| == Lap(s)
    ensures |r.slots| == Lap(r) && r.lapBits == s.lapBits
  {
    match a
    case Enqueue(t, d) =>
      if t in s.threads && !s.threads[t].Idle? then s else Goto(s, t, EnqLoadTail(d))
    case Dequeue(t) =>
      if t in s.threads && !s.threads[t].Idle? then s else Goto(s, t, DeqLoadHead)
    case Tick(t, spurious) => if t in s.threads then Access(s, t, spurious) else s
  }

  function Run<T>(capacity: nat, actions: seq<Action<T>>): (s: State<T>)
    ensures |s.slots| == Lap(s)
  {
    if actions == [] then Init(capacity)
    else Do(Run(capacity, actions[..|actions| - 1]), actions[|actions| - 1])
  }

  // ---- the invariant ----

  ghost function SlotAt<T>(s: State<T>, p: nat): Slot<T>
    requires |s.slots| == Lap(s)
  {
    s.slots[p % Lap(s)]
  }

  predicate Writes<T>(pc: Pc<T>, p: nat) {
    (pc.EnqWriteValue? || pc.EnqWriteStamp?) && pc.pos == p
  }

  predicate Reads<T>(pc: Pc<T>, p: nat) {
    (pc.DeqReadValue? || pc.DeqWriteStamp?) && pc.pos == p
  }

  ghost predicate HasWriter<T>(s: State<T>, p: nat) {
    exists t :: t in s.threads && Writes(s.threads[t], p)
  }

  ghost predicate HasReader<T>(s: State<T>, p: nat) {
    exists t :: t in s.threads && Reads(s.threads[t], p)
  }

  /** A claimed position is published, or its one producer is still writing it. */
  ghost predicate FullSlot<T>(s: State<T>, p: nat)
    requires |s.slots| == Lap(s) && p < |s.claimed|
  {
    || (SlotAt(s, p).stamp == p + 1 && SlotAt(s, p).value == Some(s.claimed[p]))
    || (SlotAt(s, p).stamp == p && HasWriter(s, p))
  }

  /** An unclaimed position of the current lap is free, or the consumer of the position
      one lap before is still reading it. */
  ghost predicate FreeSlot<T>(s: State<T>, p: nat)
    requires |s.slots| == Lap(s)
  {
    || SlotAt(s, p).stamp == p
    || (Lap(s) <= p < |s.claimed| + Lap(s) && SlotAt(s, p).stamp == p - Lap(s) + 1
        && SlotAt(s, p).value == Some(s.claimed[p - Lap(s)]) && HasReader(s, p - Lap(s)))
  }

  /** What each program counter knows; the conditions under `s.tail ==` and `s.head ==`
      are what a successful exchange turns into facts. */
  ghost predicate PcOk<T>(s: State<T>, pc: Pc<T>)
    requires |s.slots| == Lap(s)
  {
    match pc
    case Idle(_) => true
    case EnqLoadTail(_) => true
    case EnqLoadHead(_, p) => p <= s.tail
    case EnqLoadStamp(_, p) => p <= s.tail && (s.tail == p ==> p + 1 - s.head < Lap(s))
    case EnqExchange(_, p) =>
      p <= s.tail && (s.tail == p ==> p + 1 - s.head < Lap(s) && SlotAt(s, p).stamp == p)
    case EnqWriteValue(d, p) =>
      s.head <= p < s.tail && SlotAt(s, p).stamp == p && p < |s.claimed| && s.claimed[p] == d
    case EnqWriteStamp(p) =>
      s.head <= p < s.tail && SlotAt(s, p).stamp == p && p < |s.claimed|
      && SlotAt(s, p).value == Some(s.claimed[p])
    case DeqLoadHead => true
    case DeqLoadTail(p) => p <= s.head
    case DeqLoadStamp(p) => p <= s.head
    case DeqExchange(p) =>
      p <= s.head && (s.head == p ==> p < s.tail && SlotAt(s, p).stamp == p + 1)
    case DeqReadValue(p) => ReaderOk(s, p)
    case DeqWriteStamp(p, got) => ReaderOk(s, p) && got == Some(s.claimed[p])
  }

  ghost predicate ReaderOk<T>(s: State<T>, p: nat)
    requires |s.slots| == Lap(s)
  {
    p < s.head && s.tail <= p + Lap(s) && SlotAt(s, p).stamp == p + 1
    && p < |s.claimed| && SlotAt(s, p).value == Some(s.claimed[p])
  }

  ghost predicate Shape<T>(s: State<T>) {
    |s.slots| == Lap(s) && s.head <= s.tail == |s.claimed| && s.tail - s.head < Lap(s)
  }

  ghost predicate Exclusive<T>(s: State<T>) {
    forall t, u, p: nat {:trigger Writes(s.threads[t], p), u in s.threads}
                        {:trigger Reads(s.threads[t], p), u in s.threads} ::
      t in s.threads && u in s.threads && t != u ==>
        && !(Writes(s.threads[t], p) && Writes(s.threads[u], p))
        && !(Reads(s.threads[t], p) && Reads(s.threads[u], p))
  }

  /** Every position below `head` has been handed out once: to the value recorded in
      `delivered`, or to a consumer that is still reading. */
  ghost predicate Accounted<T>(s: State<T>) {
    && (forall p: nat :: p in s.delivered ==> DeliveredOk(s, p))
    && (forall p: nat :: p < s.head ==> p in s.delivered || HasReader(s, p))
  }

  ghost predicate DeliveredOk<T>(s: State<T>, p: nat)
    requires p in s.delivered
  {
    p < s.head && p < |s.claimed| && s.delivered[p] == Some(s.claimed[p]) && !HasReader(s, p)
  }

  ghost predicate Inv<T>(s: State<T>) {
    && Shape(s)
    && (forall p: nat :: s.head <= p < s.tail ==> FullSlot(s, p))
    && (forall p: nat :: s.tail <= p < s.head + Lap(s) ==> FreeSlot(s, p))
    && (forall t :: t in s.threads ==> PcOk(s, s.threads[t]))
    && Exclusive(s)
    && Accounted(s)
  }

  // ---- preservation, one access at a time ----

  predicate Busy<T>(pc: Pc<T>) {
    pc.EnqWriteValue? || pc.EnqWriteStamp? || pc.DeqReadValue? || pc.DeqWriteStamp?
  }

  lemma SameSlot(p: nat, q: nat, lap: nat)
    requires lap >= 1 && p % lap == q % lap && p < q
    ensures q >= p + lap
  {
    var a, b := p / lap, q / lap;
    assert q - p == lap * (b - a) by { assert p == lap * a + p % lap && q == lap * b + q % lap; }
    if b != a { MulAtLeast(lap, b - a); }
  }

  lemma NextLap(p: nat, lap: nat)
    requires lap >= 1
    ensures (p + lap) % lap == p % lap
  {
    assert p == lap * (p / lap) + p % lap;
    ModUnique(p + lap, lap, p / lap + 1, p % lap);
  }

  predicate Owns<T>(pc: Pc<T>, p: nat) { Writes(pc, p) || Reads(pc, p) }

  /** A thread that lets go, or claims what nobody else has, disturbs no claim. */
  lemma ClaimExclusive<T>(s: State<T>, s': State<T>, t: Tid, x: nat)
    requires Exclusive(s) && t in s'.threads && s'.threads == s.threads[t := s'.threads[t]]
    requires Busy(s'.threads[t]) ==> Owns(s'.threads[t], x)
    requires forall u :: u in s.threads && u != t ==>
      !(Writes(s'.threads[t], x) && Writes(s.threads[u], x)) && !(Reads(s'.threads[t], x) && Reads(s.threads[u], x))
    ensures Exclusive(s')
  {
  }

  lemma QuietThreads<T>(s: State<T>, t: Tid, pc: Pc<T>)
    requires Inv(s) && (t in s.threads ==> !Busy(s.threads[t])) && !Busy(pc) && PcOk(s, pc)
    ensures var s' := Goto(s, t, pc); Exclusive(s') && forall u :: u in s'.threads ==> PcOk(s', s'.threads[u])
  {
    ClaimExclusive(s, Goto(s, t, pc), t, 0);
    hide FullSlot, FreeSlot, Accounted, Exclusive;
    forall u | u in Goto(s, t, pc).threads ensures PcOk(Goto(s, t, pc), Goto(s, t, pc).threads[u]) {
      assert u != t ==> PcOk(s, s.threads[u]);
    }
  }

  /** Moves that touch no slot and hold no claim. */
  lemma MoveQuiet<T>(s: State<T>, t: Tid, pc: Pc<T>)
    requires Inv(s) && (t in s.threads ==> !Busy(s.threads[t])) && !Busy(pc) && PcOk(s, pc)
    ensures Inv(Goto(s, t, pc))
  {
    var s' := Goto(s, t, pc);
    KeepClaims(s, s', t);
    QuietThreads(s, t, pc);
    hide HasReader, HasWriter, PcOk, FullSlot, FreeSlot;
    forall p: nat | s.head <= p < s.tail ensures FullSlot(s', p) {
      assert FullSlot(s, p);
      QuietSlot(s, s', p);
    }
    forall p: nat | s.tail <= p < s.head + Lap(s) ensures FreeSlot(s', p) {
      assert FreeSlot(s, p);
      QuietSlot(s, s', p);
    }
    forall p: nat | p in s.delivered ensures DeliveredOk(s', p) { assert DeliveredOk(s, p); }
  }

  lemma QuietSlot<T>(s: State<T>, s': State<T>, p: nat)
    requires |s.slots| == Lap(s) && s' == s.(threads := s'.threads)
    requires forall q: nat :: (HasWriter(s, q) ==> HasWriter(s', q)) && (HasReader(s, q) ==> HasReader(s', q))
    ensures p < |s.claimed| && FullSlot(s, p) ==> FullSlot(s', p)
    ensures FreeSlot(s, p) ==> FreeSlot(s', p)
  {
    hide HasReader, HasWriter;
  }

  /** A producer's exchange succeeds: the position becomes claimed and in progress. */
  lemma EnqExchangeKeeps<T>(s: State<T>, t: Tid)
    requires Inv(s) && t in s.threads && s.threads[t].EnqExchange? && s.threads[t].pos == s.tail
    ensures Inv(Access(s, t, false))
  {
    EnqExchangeSlots(s, t);
    EnqExchangeThreads(s, t);
    EnqExchangeHistory(s, t);
    assert PcOk(s, s.threads[t]);
    hide FullSlot, FreeSlot, PcOk, Exclusive, Accounted;
  }

  lemma EnqExchangeSlots<T>(s: State<T>, t: Tid)
    requires Inv(s) && t in s.threads && s.threads[t].EnqExchange? && s.threads[t].pos == s.tail
    ensures var s' := Access(s, t, false);
      && s'.tail == |s'.claimed| && (forall p: nat :: s'.head <= p < s'.tail ==> FullSlot(s', p))
      && (forall p: nat :: s'.tail <= p < s'.head + Lap(s') ==> FreeSlot(s', p))
  {
    var s', x := Access(s, t, false), s.tail;
    assert PcOk(s, s.threads[t]);
    KeepClaims(s, s', t);
    assert Writes(s'.threads[t], x);
    hide HasReader, Exclusive, Accounted;
    forall p: nat | s'.head <= p < s'.tail ensures FullSlot(s', p) {
      if p == x { assert HasWriter(s', x); } else { assert FullSlot(s, p); }
    }
    forall p: nat | s'.tail <= p < s'.head + Lap(s) ensures FreeSlot(s', p) { assert FreeSlot(s, p); }
  }

  lemma EnqExchangeThreads<T>(s: State<T>, t: Tid)
    requires Inv(s) && t in s.threads && s.threads[t].EnqExchange? && s.threads[t].pos == s.tail
    ensures var s' := Access(s, t, false); forall u :: u in s'.threads ==> PcOk(s', s'.threads[u])
  {
    var s', x := Access(s, t, false), s.tail;
    assert PcOk(s, s.threads[t]);
    hide FullSlot, FreeSlot, Exclusive, Accounted;
    forall u | u in s'.threads ensures PcOk(s', s'.threads[u]) {
      if u != t {
        assert PcOk(s, s.threads[u]);
        var pc := s.threads[u];
        if (pc.DeqReadValue? || pc.DeqWriteStamp?) && x == pc.pos + Lap(s) {
          NextLap(pc.pos, Lap(s));
        }
      }
    }
  }

  lemma EnqExchangeHistory<T>(s: State<T>, t: Tid)
    requires Inv(s) && t in s.threads && s.threads[t].EnqExchange? && s.threads[t].pos == s.tail
    ensures Exclusive(Access(s, t, false)) && Accounted(Access(s, t, false))
  {
    var s', x := Access(s, t, false), s.tail;
    KeepClaims(s, s', t);
    forall u | u in s.threads ensures !Writes(s.threads[u], x) { assert PcOk(s, s.threads[u]); }
    ClaimExclusive(s, s', t, x);
    hide FullSlot, FreeSlot, PcOk, Exclusive;
    forall p: nat | p in s'.delivered ensures DeliveredOk(s', p) {
      assert DeliveredOk(s, p);
    }
  }

  /** Changing only thread `t`, from one quiet counter to another, keeps every claim. */
  lemma KeepClaims<T>(s: State<T>, s': State<T>, t: Tid)
    requires t in s'.threads && s'.threads == s.threads[t := s'.threads[t]]
    requires t in s.threads ==> !Busy(s.threads[t])
    ensures forall p: nat :: HasWriter(s, p) ==> HasWriter(s', p)
    ensures forall p: nat :: HasReader(s, p) ==> HasReader(s', p)
    ensures !Busy(s'.threads[t]) ==> forall p: nat :: HasReader(s', p) ==> HasReader(s, p)
  {
    forall p: nat | HasWriter(s, p) ensures HasWriter(s', p) {
      var u :| u in s.threads && Writes(s.threads[u], p);
      assert u != t && Writes(s'.threads[u], p);
    }
    forall p: nat | HasReader(s, p) ensures HasReader(s', p) {
      var u :| u in s.threads && Reads(s.threads[u], p);
      assert u != t && Reads(s'.threads[u], p);
    }
    if !Busy(s'.threads[t]) {
      forall p: nat | HasReader(s', p) ensures HasReader(s, p) {
        var u :| u in s'.threads && Reads(s'.threads[u], p);
        assert u != t && Reads(s.threads[u], p);
      }
    }
  }

  // ---- accesses by the thread that owns a position ----

  /** Thread `t`, owner of position `x`, makes an access: only its counter and the slot of
      `x` may change, and it keeps its claim or lets it go. */
  ghost predicate OwnerMove<T>(s: State<T>, s': State<T>, t: Tid, x: nat) {
    && |s.slots| == Lap(s) == |s'.slots| && s'.lapBits == s.lapBits
    && s'.head == s.head && s'.tail == s.tail && s'.claimed == s.claimed
    && s'.slots == s.slots[x % Lap(s) := s'.slots[x % Lap(s)]]
    && t in s.threads && t in s'.threads && s'.threads == s.threads[t := s'.threads[t]]
    && Owns(s.threads[t], x)
    && (Writes(s'.threads[t], x) ==> Writes(s.threads[t], x))
    && (Reads(s'.threads[t], x) ==> Reads(s.threads[t], x))
    && (Busy(s'.threads[t]) ==> Owns(s'.threads[t], x))
  }

  /** Counters whose invariant speaks of the slot at their position. */
  predicate Watches<T>(s: State<T>, pc: Pc<T>) {
    (pc.EnqExchange? && pc.pos == s.tail) || (pc.DeqExchange? && pc.pos == s.head) || Busy(pc)
  }

  lemma PcFrame<T>(s: State<T>, s': State<T>, pc: Pc<T>, x: nat)
    requires |s.slots| == Lap(s) == |s'.slots| && s'.lapBits == s.lapBits && PcOk(s, pc)
    requires s'.slots == s.slots[x % Lap(s) := s'.slots[x % Lap(s)]]
    requires s'.head == s.head && s'.tail == s.tail && s'.claimed == s.claimed
    requires Watches(s, pc) ==> pc.pos % Lap(s) != x % Lap(s)
    ensures PcOk(s', pc)
  {
    assert Watches(s, pc) ==> SlotAt(s', pc.pos) == SlotAt(s, pc.pos);
  }

  /** While `t` owns position `x`, every other thread watches another slot: no slot is
      written while it is read, and none has two writers or two readers. */
  lemma OwnerAlone<T>(s: State<T>, t: Tid, u: Tid, x: nat)
    requires Inv(s) && t in s.threads && u in s.threads && t != u && Owns(s.threads[t], x)
    ensures Watches(s, s.threads[u]) ==> s.threads[u].pos % Lap(s) != x % Lap(s)
  {
    assert PcOk(s, s.threads[t]) && PcOk(s, s.threads[u]);
    var pc := s.threads[u];
    if Watches(s, pc) {
      if pc.pos % Lap(s) == x % Lap(s) {
        if x < pc.pos { SameSlot(x, pc.pos, Lap(s)); }
        if pc.pos < x { SameSlot(pc.pos, x, Lap(s)); }
      }
    }
  }

  lemma OwnerThreads<T>(s: State<T>, s': State<T>, t: Tid, x: nat)
    requires Inv(s) && OwnerMove(s, s', t, x) && PcOk(s', s'.threads[t])
    ensures forall u :: u in s'.threads ==> PcOk(s', s'.threads[u])
  {
    forall u | u in s'.threads ensures PcOk(s', s'.threads[u]) {
      if u != t {
        OwnerAlone(s, t, u, x);
        PcFrame(s, s', s.threads[u], x) by { assert PcOk(s, s.threads[u]); }
      }
    }
  }

  lemma OwnerExclusive<T>(s: State<T>, s': State<T>, t: Tid, x: nat)
    requires Exclusive(s) && OwnerMove(s, s', t, x)
    ensures Exclusive(s')
  {
  }

  lemma OwnerSlots<T>(s: State<T>, s': State<T>, t: Tid, x: nat)
    requires Inv(s) && OwnerMove(s, s', t, x)
    ensures forall p: nat :: s.head <= p < s.tail && p != x ==> FullSlot(s', p)
    ensures forall p: nat :: s.tail <= p < s.head + Lap(s) && p != x + Lap(s) ==> FreeSlot(s', p)
    ensures forall p: nat :: p != x && HasReader(s, p) ==> HasReader(s', p)
    ensures forall p: nat :: HasReader(s', p) ==> HasReader(s, p)
  {
    assert PcOk(s, s.threads[t]);
    OwnerClaims(s, s', t, x);
    hide HasReader, HasWriter, Exclusive, Accounted;
    OwnerFull(s, s', t, x);
    OwnerFree(s, s', t, x);
  }

  lemma OwnerClaims<T>(s: State<T>, s': State<T>, t: Tid, x: nat)
    requires |s.slots| == Lap(s) && OwnerMove(s, s', t, x)
    ensures forall p: nat :: p != x && HasWriter(s, p) ==> HasWriter(s', p)
    ensures forall p: nat :: p != x && HasReader(s, p) ==> HasReader(s', p)
    ensures forall p: nat :: HasReader(s', p) ==> HasReader(s, p)
  {
    forall p: nat | p != x && HasWriter(s, p) ensures HasWriter(s', p) {
      var u :| u in s.threads && Writes(s.threads[u], p);
      assert u in s'.threads && Writes(s'.threads[u], p);
    }
    forall p: nat | p != x && HasReader(s, p) ensures HasReader(s', p) {
      var u :| u in s.threads && Reads(s.threads[u], p);
      assert u in s'.threads && Reads(s'.threads[u], p);
    }
    forall p: nat | HasReader(s', p) ensures HasReader(s, p) {
      var u :| u in s'.threads && Reads(s'.threads[u], p);
      assert u in s.threads && Reads(s.threads[u], p);
    }
  }

  lemma OwnerFull<T>(s: State<T>, s': State<T>, t: Tid, x: nat)
    requires Inv(s) && OwnerMove(s, s', t, x)
    ensures forall p: nat :: s.head <= p < s.tail && p != x ==> FullSlot(s', p)
  {
    assert PcOk(s, s.threads[t]);
    OwnerClaims(s, s', t, x);
    hide HasReader, HasWriter, Exclusive, Accounted, FreeSlot;
    forall p: nat | s.head <= p < s.tail && p != x ensures FullSlot(s', p) {
      assert FullSlot(s, p);
      SlotMoved(s, x, p);
    }
  }

  lemma OwnerFree<T>(s: State<T>, s': State<T>, t: Tid, x: nat)
    requires Inv(s) && OwnerMove(s, s', t, x)
    ensures forall p: nat :: s.tail <= p < s.head + Lap(s) && p != x + Lap(s) ==> FreeSlot(s', p)
  {
    assert PcOk(s, s.threads[t]);
    OwnerClaims(s, s', t, x);
    hide HasReader, HasWriter, Exclusive, Accounted, FullSlot, PcOk, FreeSlot;
    forall p: nat | s.tail <= p < s.head + Lap(s) && p != x + Lap(s) ensures FreeSlot(s', p) {
      assert FreeSlot(s, p);
      SlotMoved(s, x, p);
      StaysFree(s, s', t, x, p);
    }
  }

  lemma StaysFree<T>(s: State<T>, s': State<T>, t: Tid, x: nat, p: nat)
    requires Shape(s) && OwnerMove(s, s', t, x) && FreeSlot(s, p) && p % Lap(s) != x % Lap(s) && p != x + Lap(s)
    requires forall q: nat :: q != x && HasReader(s, q) ==> HasReader(s', q)
    ensures FreeSlot(s', p)
  {
    hide HasReader;
  }

  /** In the current window only `x` itself, or `x` one lap on, shares the slot of `x`. */
  lemma SlotMoved<T>(s: State<T>, x: nat, p: nat)
    requires Shape(s) && s.head <= p < s.head + Lap(s) && p != x && p != x + Lap(s)
    requires x < s.head + Lap(s) && s.tail <= x + Lap(s)
    ensures p % Lap(s) != x % Lap(s)
  {
    if p % Lap(s) == x % Lap(s) {
      if x < p {
        SameSlot(x, p, Lap(s));
        NextLap(x, Lap(s));
        if x + Lap(s) < p { SameSlot(x + Lap(s), p, Lap(s)); }
      } else {
        SameSlot(p, x, Lap(s));
      }
    }
  }

  lemma EnqWriteKeeps<T>(s: State<T>, t: Tid)
    requires Inv(s) && t in s.threads && (s.threads[t].EnqWriteValue? || s.threads[t].EnqWriteStamp?)
    ensures Inv(Access(s, t, false))
  {
    var s', x := Access(s, t, false), s.threads[t].pos;
    assert PcOk(s, s.threads[t]);
    assert s'.threads[t].EnqWriteStamp? ==> Writes(s'.threads[t], x);
    OwnerThreads(s, s', t, x);
    OwnerExclusive(s, s', t, x);
    OwnerSlots(s, s', t, x);
    assert FullSlot(s', x);
    assert forall p: nat :: HasReader(s, p) ==> HasReader(s', p) by {
      assert HasReader(s, x) ==> HasReader(s', x) by { WriterNotRead(s, t, x); }
    }
    forall p: nat | p in s'.delivered ensures DeliveredOk(s', p) { assert DeliveredOk(s, p); }
  }

  lemma WriterNotRead<T>(s: State<T>, t: Tid, x: nat)
    requires Inv(s) && t in s.threads && Writes(s.threads[t], x)
    ensures !HasReader(s, x)
  {
    assert PcOk(s, s.threads[t]);
    forall u | u in s.threads ensures !Reads(s.threads[u], x) { assert PcOk(s, s.threads[u]); }
  }

  /** What reading the value and publishing the free stamp do to the slot of the position. */
  lemma DeqOwnerStep<T>(s: State<T>, t: Tid)
    requires Inv(s) && t in s.threads && (s.threads[t].DeqReadValue? || s.threads[t].DeqWriteStamp?)
    ensures var s', x := Access(s, t, false), s.threads[t].pos;
      && OwnerMove(s, s', t, x) && PcOk(s', s'.threads[t]) && Shape(s') && FreeSlot(s', x + Lap(s))
      && x < s.head <= |s.claimed| && s.tail <= x + Lap(s)
      && (if s.threads[t].DeqReadValue? then s'.delivered == s.delivered && Reads(s'.threads[t], x)
          else s'.delivered == s.delivered[x := Some(s.claimed[x])] && !Busy(s'.threads[t]))
  {
    var s', x := Access(s, t, false), s.threads[t].pos;
    assert PcOk(s, s.threads[t]);
    assert s'.slots == s.slots[x % Lap(s) := s'.slots[x % Lap(s)]];
    if s.threads[t].DeqReadValue? { assert Reads(s'.threads[t], x) && HasReader(s', x); }
    NextLap(x, Lap(s));
    hide FullSlot, Exclusive, Accounted, Index;
  }

  lemma DeqReadKeeps<T>(s: State<T>, t: Tid)
    requires Inv(s) && t in s.threads && s.threads[t].DeqReadValue?
    ensures Inv(Access(s, t, false))
  {
    hide Access, FullSlot, FreeSlot, PcOk, Exclusive;
    var s', x := Access(s, t, false), s.threads[t].pos;
    DeqOwnerStep(s, t);
    OwnerThreads(s, s', t, x);
    OwnerExclusive(s, s', t, x);
    OwnerSlots(s, s', t, x);
    assert HasReader(s', x);
    forall p: nat | p in s'.delivered ensures DeliveredOk(s', p) { assert DeliveredOk(s, p); }
  }

  lemma DeqStampKeeps<T>(s: State<T>, t: Tid)
    requires Inv(s) && t in s.threads && s.threads[t].DeqWriteStamp?
    ensures Inv(Access(s, t, false))
  {
    hide Access, FullSlot, FreeSlot, PcOk, Exclusive, Accounted, HasReader;
    var s', x := Access(s, t, false), s.threads[t].pos;
    DeqOwnerStep(s, t);
    OwnerThreads(s, s', t, x);
    OwnerExclusive(s, s', t, x);
    OwnerSlots(s, s', t, x);
    DeqStampAccounts(s, s', t, x);
  }

  lemma DeqStampAccounts<T>(s: State<T>, s': State<T>, t: Tid, x: nat)
    requires Accounted(s) && Exclusive(s) && OwnerMove(s, s', t, x) && Reads(s.threads[t], x) && !Busy(s'.threads[t])
    requires x < s.head <= |s.claimed| && s'.delivered == s.delivered[x := Some(s.claimed[x])]
    requires forall p: nat :: p != x && HasReader(s, p) ==> HasReader(s', p)
    requires forall p: nat :: HasReader(s', p) ==> HasReader(s, p)
    ensures Accounted(s')
  {
    forall u | u in s'.threads ensures !Reads(s'.threads[u], x) {
      assert u != t ==> Reads(s.threads[t], x) && u in s.threads;
    }
    forall p: nat | p in s'.delivered ensures DeliveredOk(s', p) {
      if p != x { assert DeliveredOk(s, p); }
    }
  }

  /** A consumer's exchange succeeds: the position leaves the queue and is being read. */
  lemma DeqExchangeKeeps<T>(s: State<T>, t: Tid)
    requires Inv(s) && t in s.threads && s.threads[t].DeqExchange? && s.threads[t].pos == s.head
    ensures Inv(Access(s, t, false))
  {
    DeqExchangeSlots(s, t);
    DeqExchangeThreads(s, t);
    DeqExchangeHistory(s, t);
    assert PcOk(s, s.threads[t]);
    hide FullSlot, FreeSlot, PcOk, Exclusive, Accounted;
  }

  lemma DeqExchangeSlots<T>(s: State<T>, t: Tid)
    requires Inv(s) && t in s.threads && s.threads[t].DeqExchange? && s.threads[t].pos == s.head
    ensures var s' := Access(s, t, false);
      && s'.head <= s'.tail == |s'.claimed| && (forall p: nat :: s'.head <= p < s'.tail ==> FullSlot(s', p))
      && (forall p: nat :: s'.tail <= p < s'.head + Lap(s') ==> FreeSlot(s', p))
  {
    var s', x := Access(s, t, false), s.head;
    assert PcOk(s, s.threads[t]) && FullSlot(s, x);
    KeepClaims(s, s', t);
    assert HasReader(s', x) by { assert Reads(s'.threads[t], x); }
    hide HasReader, HasWriter, Exclusive, Accounted;
    forall p: nat | s'.head <= p < s'.tail ensures FullSlot(s', p) { assert FullSlot(s, p); }
    forall p: nat | s'.tail <= p < s'.head + Lap(s) ensures FreeSlot(s', p) {
      if p == x + Lap(s) { NextLap(x, Lap(s)); } else { assert FreeSlot(s, p); }
    }
  }

  lemma DeqExchangeHistory<T>(s: State<T>, t: Tid)
    requires Inv(s) && t in s.threads && s.threads[t].DeqExchange? && s.threads[t].pos == s.head
    ensures Exclusive(Access(s, t, false)) && Accounted(Access(s, t, false))
  {
    var s', x := Access(s, t, false), s.head;
    KeepClaims(s, s', t);
    assert HasReader(s', x) by { assert Reads(s'.threads[t], x); }
    forall u | u in s.threads ensures !Reads(s.threads[u], x) { assert PcOk(s, s.threads[u]); }
    ClaimExclusive(s, s', t, x);
    hide FullSlot, FreeSlot, PcOk, Exclusive;
    forall p: nat | p in s'.delivered ensures DeliveredOk(s', p) { assert DeliveredOk(s, p); }
  }

  lemma DeqExchangeThreads<T>(s: State<T>, t: Tid)
    requires Inv(s) && t in s.threads && s.threads[t].DeqExchange? && s.threads[t].pos == s.head
    ensures var s' := Access(s, t, false); forall u :: u in s'.threads ==> PcOk(s', s'.threads[u])
  {
    var s', x := Access(s, t, false), s.head;
    assert PcOk(s, s.threads[t]) && FullSlot(s, x);
    forall u | u in s'.threads ensures PcOk(s', s'.threads[u]) {
      if u != t {
        assert PcOk(s, s.threads[u]);
      }
    }
  }

  // ---- whole runs ----

  lemma InitInv<T>(capacity: nat)
    ensures Inv(Init<T>(capacity))
  {
    var s := Init<T>(capacity);
    forall p: nat | s.tail <= p < s.head + Lap(s) ensures FreeSlot(s, p) {
      assert p % Lap(s) == p by { ModUnique(p, Lap(s), 0, p); }
    }
  }

  predicate Enqueuing<T>(pc: Pc<T>) {
    pc.EnqLoadTail? || pc.EnqLoadHead? || pc.EnqLoadStamp? || pc.EnqExchange? || pc.EnqWriteValue? || pc.EnqWriteStamp?
  }

  /** Every atomic access by any thread, with any spurious failure, keeps the invariant. */
  lemma AccessKeeps<T>(s: State<T>, t: Tid, spurious: bool)
    requires Inv(s) && t in s.threads
    ensures Inv(Access(s, t, spurious))
  {
    if Enqueuing(s.threads[t]) {
      EnqAccessKeeps(s, t, spurious);
    } else if !s.threads[t].Idle? {
      DeqAccessKeeps(s, t, spurious);
    }
  }

  lemma EnqAccessKeeps<T>(s: State<T>, t: Tid, spurious: bool)
    requires Inv(s) && t in s.threads && Enqueuing(s.threads[t])
    ensures Inv(Access(s, t, spurious))
  {
    assert PcOk(s, s.threads[t]);
    var s' := Access(s, t, spurious);
    if Busy(s.threads[t]) {
      EnqWriteKeeps(s, t);
    } else if s.threads[t].EnqExchange? && s.tail == s.threads[t].pos && !spurious {
      EnqExchangeKeeps(s, t);
    } else {
      if s.threads[t].EnqLoadHead? && s'.threads[t].EnqLoadStamp? { NotFull(s, s.threads[t].pos); }
      assert s' == Goto(s, t, s'.threads[t]);
      MoveQuiet(s, t, s'.threads[t]);
    }
  }

  lemma DeqAccessKeeps<T>(s: State<T>, t: Tid, spurious: bool)
    requires Inv(s) && t in s.threads && !Enqueuing(s.threads[t]) && !s.threads[t].Idle?
    ensures Inv(Access(s, t, spurious))
  {
    assert PcOk(s, s.threads[t]);
    var s' := Access(s, t, spurious);
    if s.threads[t].DeqReadValue? {
      DeqReadKeeps(s, t);
    } else if s.threads[t].DeqWriteStamp? {
      DeqStampKeeps(s, t);
    } else if s.threads[t].DeqExchange? && s.head == s.threads[t].pos && !spurious {
      DeqExchangeKeeps(s, t);
    } else {
      if s'.threads[t].DeqExchange? && s.head == s.threads[t].pos { ReadyIsClaimed(s); }
      assert s' == Goto(s, t, s'.threads[t]);
      MoveQuiet(s, t, s'.threads[t]);
    }
  }

  /** A failed fullness test leaves room for one more position, however stale it gets. */
  lemma NotFull<T>(s: State<T>, pos: nat)
    requires Shape(s) && pos <= s.tail && (pos + 1) % Lap(s) != s.head % Lap(s)
    ensures s.tail == pos ==> pos + 1 - s.head < Lap(s)
  {
    if s.tail == pos && pos + 1 == s.head + Lap(s) { NextLap(s.head, Lap(s)); }
  }

  /** A ready stamp at the head means that the position is claimed. */
  lemma ReadyIsClaimed<T>(s: State<T>)
    requires Inv(s) && SlotAt(s, s.head).stamp == s.head + 1
    ensures s.head < s.tail
  {
    assert s.head < s.tail || FreeSlot(s, s.head);
  }

  lemma DoKeeps<T>(s: State<T>, a: Action<T>)
    requires Inv(s)
    ensures Inv(Do(s, a))
  {
    match a
    case Enqueue(t, d) =>
      if t in s.threads && !s.threads[t].Idle? {} else { MoveQuiet(s, t, EnqLoadTail(d)); }
    case Dequeue(t) =>
      if t in s.threads && !s.threads[t].Idle? {} else { MoveQuiet(s, t, DeqLoadHead); }
    case Tick(t, spurious) => if t in s.threads { AccessKeeps(s, t, spurious); }
  }

  lemma {:induction false} RunInv<T>(capacity: nat, actions: seq<Action<T>>)
    ensures Inv(Run(capacity, actions))
  {
    if actions == [] {
      InitInv<T>(capacity);
    } else {
      RunInv(capacity, actions[..|actions| - 1]);
      DoKeeps(Run(capacity, actions[..|actions| - 1]), actions[|actions| - 1]);
    }
  }

  /** Safety of every interleaving: the ring never holds more than its mask, the consumer of
      position p returned exactly what the producer of position p brought, every position
      below `head` has one consumer (finished or still reading) and none at or above it has
      any, and two threads never touch the value of one slot together. */
  lemma RingIsSafe<T>(capacity: nat, actions: seq<Action<T>>)
    ensures var s := Run(capacity, actions);
      && s.head <= s.tail == |s.claimed| && s.tail - s.head <= Lap(s) - 1
      && (forall p: nat :: p in s.delivered ==> p < s.head && s.delivered[p] == Some(s.claimed[p]))
      && (forall p: nat :: p < s.head <==> p in s.delivered || HasReader(s, p))
      && (forall p: nat :: !(p in s.delivered && HasReader(s, p)))
      && (forall t, u, p: nat, q: nat ::
            t in s.threads && u in s.threads && t != u && Owns(s.threads[t], p) && Owns(s.threads[u], q)
            ==> p % Lap(s) != q % Lap(s))
  {
    var s := Run(capacity, actions);
    RunInv(capacity, actions);
    forall p: nat | p in s.delivered
      ensures p < s.head && p < |s.claimed| && s.delivered[p] == Some(s.claimed[p]) && !HasReader(s, p)
    {
      assert DeliveredOk(s, p);
    }
    forall p: nat | HasReader(s, p) ensures p < s.head {
      var u :| u in s.threads && Reads(s.threads[u], p);
      assert PcOk(s, s.threads[u]);
    }
    forall t, u, p: nat, q: nat
      | t in s.threads && u in s.threads && t != u && Owns(s.threads[t], p) && Owns(s.threads[u], q)
      ensures p % Lap(s) != q % Lap(s)
    {
      OwnerAlone(s, t, u, p);
    }
  }

  // ---- refinement of a sequential queue ----

  /** The queue a ring state stands for: positions claimed and not yet taken. */
  ghost function Queue<T>(s: State<T>): seq<T>
    requires Shape(s)
  {
    s.claimed[s.head..]
  }

  /** Each action appends one value, takes the oldest one, or leaves the queue alone, and the
      thread that takes a value is the one that will return it. The exchanges on `tail` and
      `head` are the linearisation points. */
  lemma ActionRefines<T>(s: State<T>, a: Action<T>)
    requires Inv(s)
    ensures Inv(Do(s, a))
    ensures var s' := Do(s, a);
      || Queue(s') == Queue(s)
      || (a.Tick? && s.threads[a.tid].EnqExchange? && Queue(s') == Queue(s) + [s.threads[a.tid].data])
      || (a.Tick? && s'.threads[a.tid] == DeqReadValue(s.head) && Queue(s) == [s.claimed[s.head]] + Queue(s'))
  {
    DoKeeps(s, a);
    if a.Tick? && a.tid in s.threads {
      assert PcOk(s, s.threads[a.tid]);
    }
  }

  /** What the consumer in flight at position p will return is fixed by the claim. */
  lemma ReturnsWhatItTook<T>(s: State<T>, t: Tid, spurious: bool)
    requires Inv(s) && t in s.threads && s.threads[t].DeqWriteStamp?
    ensures var p := s.threads[t].pos;
      && p < |s.claimed| && Access(s, t, spurious).delivered == s.delivered[p := Some(s.claimed[p])]
      && p !in s.delivered
  {
    var p := s.threads[t].pos;
    assert PcOk(s, s.threads[t]);
    if p in s.delivered { assert DeliveredOk(s, p) && Reads(s.threads[t], p); }
  }

  // ---- one producer ----

  /** Only `producer` enqueues, and nobody moves the tail under it. */
  ghost predicate SoleProducer<T>(s: State<T>, producer: Tid) {
    && (forall u :: u in s.threads && u != producer ==> !Enqueuing(s.threads[u]))
    && (producer in s.threads && s.threads[producer].EnqLoadHead? ==> s.threads[producer].pos == s.tail)
  }

  predicate OneEnqueues<T>(actions: seq<Action<T>>, producer: Tid) {
    forall i :: 0 <= i < |actions| && actions[i].Enqueue? ==> actions[i].tid == producer
  }

  lemma SoleProducerKept<T>(s: State<T>, a: Action<T>, producer: Tid)
    requires |s.slots| == Lap(s) && SoleProducer(s, producer) && (a.Enqueue? ==> a.tid == producer)
    ensures SoleProducer(Do(s, a), producer)
  {
    if a.Tick? && a.tid in s.threads { TailMover(s, a.tid, a.spurious); hide Access; }
  }

  /** Who moves the tail, and which counters an access leads to. */
  lemma TailMover<T>(s: State<T>, t: Tid, spurious: bool)
    requires |s.slots| == Lap(s) && t in s.threads
    ensures var s', pc := Access(s, t, spurious), s.threads[t];
      && t in s'.threads && s'.threads == s.threads[t := s'.threads[t]]
      && (s'.tail == s.tail || (Enqueuing(pc) && !s'.threads[t].EnqLoadHead?))
      && (Enqueuing(s'.threads[t]) ==> Enqueuing(pc))
      && (s'.threads[t].EnqLoadHead? ==> s'.threads[t].pos == s'.tail)
  {
    AccessAt(s, t, spurious);
    if Enqueuing(s.threads[t]) { TailByEnqueue(s, t, spurious); } else { TailByOthers(s, t, spurious); }
    hide Access;
  }

  lemma TailByEnqueue<T>(s: State<T>, t: Tid, spurious: bool)
    requires |s.slots| == Lap(s) && t in s.threads && Enqueuing(s.threads[t])
    ensures var s' := Access(s, t, spurious);
      && t in s'.threads && (s'.tail == s.tail || !s'.threads[t].EnqLoadHead?)
      && (s'.threads[t].EnqLoadHead? ==> s'.threads[t].pos == s'.tail)
  {
    hide Index, Pow2;
  }

  lemma TailByOthers<T>(s: State<T>, t: Tid, spurious: bool)
    requires |s.slots| == Lap(s) && t in s.threads && !Enqueuing(s.threads[t])
    ensures var s' := Access(s, t, spurious);
      t in s'.threads && s'.tail == s.tail && !Enqueuing(s'.threads[t])
  {
    hide Index, Pow2;
  }

  lemma AccessAt<T>(s: State<T>, t: Tid, spurious: bool)
    requires |s.slots| == Lap(s) && t in s.threads
    ensures var s' := Access(s, t, spurious); t in s'.threads && s'.threads == s.threads[t := s'.threads[t]]
  {
    hide Index, Pow2;
    var pc := s.threads[t];
    if pc.EnqWriteValue? || pc.EnqWriteStamp? || pc.DeqWriteStamp? {
      WritesAt(s, t, spurious);
      hide Access;
    } else if Enqueuing(pc) {
      assert Access(s, t, spurious).threads == s.threads[t := Access(s, t, spurious).threads[t]];
    }
  }

  lemma WritesAt<T>(s: State<T>, t: Tid, spurious: bool)
    requires |s.slots| == Lap(s) && t in s.threads
    requires s.threads[t].EnqWriteValue? || s.threads[t].EnqWriteStamp? || s.threads[t].DeqWriteStamp?
    ensures var s' := Access(s, t, spurious); t in s'.threads && s'.threads == s.threads[t := s'.threads[t]]
  {
    hide Index, Pow2;
  }

  lemma {:induction false} SoleProducerRun<T>(capacity: nat, actions: seq<Action<T>>, producer: Tid)
    requires OneEnqueues(actions, producer)
    ensures SoleProducer(Run(capacity, actions), producer)
  {
    if actions != [] {
      var n := |actions| - 1;
      SoleProducerRun(capacity, actions[..n], producer);
      SoleProducerKept(Run(capacity, actions[..n]), actions[n], producer);
      hide Do;
    }
  }

  /** With one producer the answer "full" is exact at the moment it is given, and the ring
      then holds at least the capacity asked for. */
  lemma FullIsExact<T>(capacity: nat, actions: seq<Action<T>>, producer: Tid, spurious: bool)
    requires OneEnqueues(actions, producer)
    requires var s := Run(capacity, actions); producer in s.threads && s.threads[producer].EnqLoadHead?
    ensures var s := Run(capacity, actions);
      && (Access(s, producer, spurious).threads[producer].Idle? <==> s.tail - s.head == Lap(s) - 1)
      && Lap(s) - 1 >= capacity
  {
    hide Run, Inv, SoleProducer, OneEnqueues, Access;
    RunInv(capacity, actions);
    SoleProducerRun(capacity, actions, producer);
    LapKept(capacity, actions);
    FullNow(Run(capacity, actions), producer, spurious);
  }

  lemma FullNow<T>(s: State<T>, t: Tid, spurious: bool)
    requires Inv(s) && SoleProducer(s, t) && t in s.threads && s.threads[t].EnqLoadHead?
    ensures Access(s, t, spurious).threads[t].Idle? <==> s.tail - s.head == Lap(s) - 1
  {
    assert Shape(s);
    hide Inv, Access;
    FullAnswer(s, t, spurious);
    FullTest(s.head, s.tail, Lap(s));
  }

  lemma FullTest(head: nat, tail: nat, lap: nat)
    requires head <= tail && tail - head < lap
    ensures (tail + 1) % lap == head % lap <==> tail - head == lap - 1
  {
    if (tail + 1) % lap == head % lap { SameSlot(head, tail + 1, lap); }
    if tail - head == lap - 1 { NextLap(head, lap); }
  }

  lemma FullAnswer<T>(s: State<T>, t: Tid, spurious: bool)
    requires |s.slots| == Lap(s) && t in s.threads && s.threads[t].EnqLoadHead?
    ensures Access(s, t, spurious).threads[t].Idle? <==> (s.threads[t].pos + 1) % Lap(s) == s.head % Lap(s)
  {
  }

  lemma {:induction false} LapKept<T>(capacity: nat, actions: seq<Action<T>>)
    ensures Lap(Run(capacity, actions)) >= capacity + 1
  {
    if actions != [] { LapKept(capacity, actions[..|actions| - 1]); }
    hide Do;
  }
}

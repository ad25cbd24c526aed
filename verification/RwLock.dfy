/** The reader-writer lock word under any interleaving of acquire attempts and guard drops.
    Each guard has an identity; each access to the word is one step. */
module RwLock {
  import opened Bits

  const LOCK_WRITE: nat := 1
  const LOCK_COUNT: nat := 2

  /** `checking` are guards already given back whose drop has not yet looked at the word. */
  datatype State = State(data: nat, readers: set<nat>, writers: set<nat>, checking: set<nat>, signals: nat)

  datatype Action =
    | TryRead(guard: nat)
    | TryWrite(guard: nat)
    | ReadUnlock(guard: nat)
    | WriteUnlock(guard: nat)
    | Check(guard: nat)

  const UNLOCKED := State(0, {}, {}, {}, 0)

  /** Guard identities are fresh, and only guards that exist are dropped. */
  predicate Enabled(s: State, a: Action) {
    match a
    case TryRead(g) => g !in s.readers && g !in s.writers && g !in s.checking
    case TryWrite(g) => g !in s.readers && g !in s.writers && g !in s.checking
    case ReadUnlock(g) => g in s.readers
    case WriteUnlock(g) => g in s.writers
    case Check(g) => g in s.checking
  }

  /** The word decides alone; the sets only record what it decided. */
  function Do(s: State, a: Action): State {
    match a
    case TryRead(g) =>
      if BitAnd(s.data, LOCK_WRITE) == 0 then s.(data := s.data + LOCK_COUNT, readers := s.readers + {g}) else s
    case TryWrite(g) =>
      if s.data == 0 then s.(data := LOCK_WRITE, writers := s.writers + {g}) else s
    case ReadUnlock(g) =>
      s.(data := if s.data >= LOCK_COUNT then s.data - LOCK_COUNT else 0, readers := s.readers - {g},
         checking := s.checking + {g})
    case WriteUnlock(g) =>
      s.(data := 0, writers := s.writers - {g}, checking := s.checking + {g})
    case Check(g) =>
      s.(checking := s.checking - {g}, signals := s.signals + if s.data == 0 then 1 else 0)
  }

  predicate Possible(s: State, actions: seq<Action>)
    decreases |actions|
  {
    actions == [] || (Enabled(s, actions[0]) && Possible(Do(s, actions[0]), actions[1..]))
  }

  function Run(s: State, actions: seq<Action>): State
    decreases |actions|
  {
    if actions == [] then s else Run(Do(s, actions[0]), actions[1..])
  }

  /** The word counts the guards: two for each reader, one for the writer. */
  ghost predicate Inv(s: State) {
    && s.data == LOCK_COUNT * |s.readers| + LOCK_WRITE * |s.writers|
    && |s.writers| <= 1 && (s.writers != {} ==> s.readers == {})
    && s.readers !! s.checking && s.writers !! s.checking
  }

  lemma LowBit(n: nat)
    ensures BitAnd(n, 1) == n % 2
  {
    assert Pow2(1) == 2;
    AndMask(n, 1);
  }

  lemma StepKeeps(s: State, a: Action)
    requires Inv(s) && Enabled(s, a)
    ensures Inv(Do(s, a))
  {
    LowBit(s.data);
    assert |s.writers| == 0 <==> s.writers == {};
    assert |s.readers| == 0 <==> s.readers == {};
    match a
    case WriteUnlock(g) => assert |s.writers - {g}| == |s.writers| - 1;
    case ReadUnlock(g) => assert |s.readers - {g}| == |s.readers| - 1;
    case _ =>
  }

  /** Safety of every run: the word is exact, there is at most one writer, and a writer
      excludes all readers. */
  lemma {:induction false} RunKeeps(s: State, actions: seq<Action>)
    requires Inv(s) && Possible(s, actions)
    ensures Inv(Run(s, actions))
    decreases |actions|
  {
    if actions != [] {
      StepKeeps(s, actions[0]);
      RunKeeps(Do(s, actions[0]), actions[1..]);
    }
  }

  /** The lock is free before every action and after the last. */
  predicate StaysFree(s: State, actions: seq<Action>)
    decreases |actions|
  {
    s.data == 0 && (actions == [] || StaysFree(Do(s, actions[0]), actions[1..]))
  }

  /** Signals are given by guards that find the lock free, and only by them. */
  lemma SignalsExactly(s: State, a: Action)
    ensures Do(s, a).signals == s.signals + if a.Check? && s.data == 0 then 1 else 0
  {
  }

  /** No wake-up is lost: a release that leaves the lock free is followed by a signal, unless
      somebody takes the lock before the guard has looked at the word. */
  lemma {:induction false} FreeIsSignalled(s: State, actions: seq<Action>, g: nat)
    requires Possible(s, actions) && g in s.checking && g !in Run(s, actions).checking
    requires StaysFree(s, actions)
    ensures Run(s, actions).signals > s.signals
    decreases |actions|
  {
    SignalsExactly(s, actions[0]);
    if actions[0] == Check(g) {
      SignalsOnlyRise(Do(s, actions[0]), actions[1..]);
    } else {
      FreeIsSignalled(Do(s, actions[0]), actions[1..], g);
    }
  }

  lemma {:induction false} SignalsOnlyRise(s: State, actions: seq<Action>)
    ensures Run(s, actions).signals >= s.signals
    decreases |actions|
  {
    if actions != [] {
      SignalsExactly(s, actions[0]);
      SignalsOnlyRise(Do(s, actions[0]), actions[1..]);
    }
  }

  /** What an attempt learns from the word is the truth about the guards. */
  lemma AttemptsAreExact(actions: seq<Action>, g: nat)
    requires Possible(UNLOCKED, actions)
    requires var s := Run(UNLOCKED, actions); g !in s.readers && g !in s.writers
    ensures var s := Run(UNLOCKED, actions);
      && (g in Do(s, TryRead(g)).readers <==> s.writers == {})
      && (s.data == 0 <==> s.writers == {} && s.readers == {})
      && (g in Do(s, TryWrite(g)).writers <==> s.writers == {} && s.readers == {})
  {
    RunKeeps(UNLOCKED, actions);
    var s := Run(UNLOCKED, actions);
    LowBit(s.data);
    assert |s.writers| == 0 <==> s.writers == {};
    assert |s.readers| == 0 <==> s.readers == {};
    hide Run, Possible;
  }
}

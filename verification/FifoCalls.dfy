/** How calls of the ring end. The ledger of a run has one entry for every call that was
    started, with the position it claimed or took and the answer it was given; it watches the
    counters and the threads from outside and knows nothing of the accesses. */
module FifoCalls {
  import opened Wrappers
  import opened Fifo

  datatype Request<T> = Put(data: T) | Take

  datatype Call<T> = Call(tid: Tid, request: Request<T>, place: Option<nat>, answer: Option<Answer<T>>)

  /** All calls in the order in which they started, and the one each thread is in. */
  datatype Ledger<T> = Ledger(calls: seq<Call<T>>, current: map<Tid, nat>)

  predicate InCall<T>(s: State<T>, t: Tid) { t in s.threads && !s.threads[t].Idle? }

  function Begin<T>(l: Ledger<T>, t: Tid, r: Request<T>): Ledger<T> {
    Ledger(l.calls + [Call(t, r, None, None)], l.current[t := |l.calls|])
  }

  /** The call as the move of its thread from `s` to `s'` leaves it: what it claimed or took, and
      the answer if it is over. */
  function Advance<T>(c: Call<T>, s: State<T>, s': State<T>): Call<T> {
    var place := if s'.tail != s.tail then Some(s.tail) else if s'.head != s.head then Some(s.head) else c.place;
    c.(place := place, answer := if Over(s', c.tid) then Some(s'.threads[c.tid].answer) else c.answer)
  }

  predicate Over<T>(s: State<T>, t: Tid) { t in s.threads && s.threads[t].Idle? }

  function Progress<T>(l: Ledger<T>, t: Tid, s: State<T>, s': State<T>): Ledger<T>
    requires t in l.current && l.current[t] < |l.calls|
  {
    var i := l.current[t];
    Ledger(l.calls[i := Advance(l.calls[i], s, s')], if Over(s', t) then l.current - {t} else l.current)
  }

  function Note<T>(l: Ledger<T>, s: State<T>, a: Action<T>, s': State<T>): Ledger<T> {
    match a
    case Enqueue(t, d) => if InCall(s, t) then l else Begin(l, t, Put(d))
    case Dequeue(t) => if InCall(s, t) then l else Begin(l, t, Take)
    case Tick(t, _) => if t in l.current && l.current[t] < |l.calls| then Progress(l, t, s, s') else l
  }

  function Record<T>(capacity: nat, actions: seq<Action<T>>): Ledger<T> {
    if actions == [] then Ledger([], map[])
    else
      var before := actions[..|actions| - 1];
      Note(Record(capacity, before), Run(capacity, before), actions[|actions| - 1], Run(capacity, actions))
  }

  /** Before its claim, an enqueue carries its datum. */
  ghost predicate Claiming<T>(pc: Pc<T>, d: T) {
    (pc.EnqLoadTail? || pc.EnqLoadHead? || pc.EnqLoadStamp? || pc.EnqExchange?) && pc.data == d
  }

  predicate Seeking<T>(pc: Pc<T>) { pc.DeqLoadHead? || pc.DeqLoadTail? || pc.DeqLoadStamp? || pc.DeqExchange? }

  /** Position `p` was claimed with this datum. */
  ghost predicate Holds<T>(s: State<T>, p: nat, d: T) { p < |s.claimed| && s.claimed[p] == d }

  /** What the state says of one call. */
  ghost predicate CallOk<T>(s: State<T>, c: Call<T>) {
    match (c.request, c.answer)
    case (Put(d), None) =>
      && c.tid in s.threads
      && (match c.place
          case None => Claiming(s.threads[c.tid], d)
          case Some(p) => Writes(s.threads[c.tid], p) && Holds(s, p, d))
    case (Put(d), Some(Refused(d'))) => d' == d && c.place.None?
    case (Put(d), Some(Stored)) => c.place.Some? && Holds(s, c.place.value, d)
    case (Take, None) =>
      && c.tid in s.threads
      && (match c.place
          case None => Seeking(s.threads[c.tid])
          case Some(p) => Reads(s.threads[c.tid], p))
    case (Take, Some(Nothing)) => c.place.None?
    case (Take, Some(Taken(v))) => c.place.Some? && v.Some? && Holds(s, c.place.value, v.value)
    case _ => false
  }

  predicate PutsAt<T>(c: Call<T>, p: nat) { c.request.Put? && c.place == Some(p) }

  predicate TakesAt<T>(c: Call<T>, p: nat) { c.request.Take? && c.place == Some(p) }

  ghost predicate SomePut<T>(calls: seq<Call<T>>, p: nat) { exists i :: 0 <= i < |calls| && PutsAt(calls[i], p) }

  ghost predicate SomeTake<T>(calls: seq<Call<T>>, p: nat) { exists i :: 0 <= i < |calls| && TakesAt(calls[i], p) }

  /** A thread is in a call exactly if one of its calls has no answer, and that is the one. */
  ghost predicate Current<T>(s: State<T>, l: Ledger<T>) {
    && (forall t :: t in l.current <==> InCall(s, t))
    && (forall t :: t in l.current ==>
          l.current[t] < |l.calls| && l.calls[l.current[t]].tid == t && l.calls[l.current[t]].answer.None?)
    && (forall i :: 0 <= i < |l.calls| && l.calls[i].answer.None? ==>
          l.calls[i].tid in l.current && l.current[l.calls[i].tid] == i)
  }

  /** The claimed positions are those of the enqueues, one each, and the taken ones those of the
      dequeues. */
  ghost predicate Placed<T>(tail: nat, head: nat, calls: seq<Call<T>>) {
    && (forall p: nat :: SomePut(calls, p) <==> p < tail)
    && (forall p: nat :: SomeTake(calls, p) <==> p < head)
    && EachOnce(calls)
  }

  ghost predicate EachOnce<T>(calls: seq<Call<T>>) {
    forall i, j, p: nat :: 0 <= i < |calls| && 0 <= j < |calls| && i != j ==>
      !(PutsAt(calls[i], p) && PutsAt(calls[j], p)) && !(TakesAt(calls[i], p) && TakesAt(calls[j], p))
  }

  ghost predicate LedgerOk<T>(s: State<T>, l: Ledger<T>) {
    && Current(s, l) && Placed(s.tail, s.head, l.calls)
    && (forall i :: 0 <= i < |l.calls| ==> CallOk(s, l.calls[i]))
  }

  // ---- one access ----

  /** What an access does to the call it belongs to: it claims, takes, ends, or goes on. */
  ghost predicate Moved<T>(s: State<T>, s': State<T>, t: Tid)
    requires t in s.threads
  {
    && t in s'.threads && s'.threads == s.threads[t := s'.threads[t]]
    && var pc, pc' := s.threads[t], s'.threads[t];
       if pc.EnqLoadTail? || pc.EnqLoadHead? || pc.EnqLoadStamp? || pc.EnqExchange? then
         && s'.head == s.head
         && if s'.tail != s.tail then
              s'.tail == s.tail + 1 && s'.claimed == s.claimed + [pc.data] && Writes(pc', s.tail)
            else s'.claimed == s.claimed && (Claiming(pc', pc.data) || pc' == Idle(Refused(pc.data)))
       else
         && s'.tail == s.tail && s'.claimed == s.claimed
         && if Seeking(pc) then
              if s'.head != s.head then s'.head == s.head + 1 && Reads(pc', s.head)
              else Seeking(pc') || pc' == Idle(Nothing)
            else
              && s'.head == s.head
              && (if pc.EnqWriteValue? || pc.EnqWriteStamp? then Writes(pc', pc.pos) || pc' == Idle(Stored)
                  else if pc.Idle? then s' == s
                  else pc.pos < |s.claimed| && (Reads(pc', pc.pos) || pc' == Idle(Taken(Some(s.claimed[pc.pos])))))
  }

  lemma AccessMoves<T>(s: State<T>, t: Tid, spurious: bool)
    requires Inv(s) && t in s.threads
    ensures Moved(s, Access(s, t, spurious), t)
  {
    assert Shape(s) && PcOk(s, s.threads[t]);
    hide Inv, Index, SlotAt;
  }

  // ---- the ledger, step by step ----

  lemma BeginKeeps<T>(s: State<T>, l: Ledger<T>, t: Tid, r: Request<T>, pc: Pc<T>)
    requires LedgerOk(s, l) && !InCall(s, t)
    requires match r case Put(d) => pc == EnqLoadTail(d) case Take => pc == DeqLoadHead
    ensures LedgerOk(Goto(s, t, pc), Begin(l, t, r))
  {
    var s', l', n := Goto(s, t, pc), Begin(l, t, r), |l.calls|;
    BeginCalls(s, l, t, r, pc);
    BeginCurrent(s, l, t, r, pc);
    hide CallOk, Current;
    forall p: nat ensures SomePut(l'.calls, p) <==> SomePut(l.calls, p) {
      if SomePut(l.calls, p) { var i :| 0 <= i < n && PutsAt(l.calls[i], p); assert PutsAt(l'.calls[i], p); }
    }
    forall p: nat ensures SomeTake(l'.calls, p) <==> SomeTake(l.calls, p) {
      if SomeTake(l.calls, p) { var i :| 0 <= i < n && TakesAt(l.calls[i], p); assert TakesAt(l'.calls[i], p); }
    }
    hide SomePut, SomeTake, CallOk, Current;
  }

  lemma BeginCalls<T>(s: State<T>, l: Ledger<T>, t: Tid, r: Request<T>, pc: Pc<T>)
    requires LedgerOk(s, l) && !InCall(s, t)
    requires match r case Put(d) => pc == EnqLoadTail(d) case Take => pc == DeqLoadHead
    ensures forall i :: 0 <= i <= |l.calls| ==> CallOk(Goto(s, t, pc), Begin(l, t, r).calls[i])
  {
    hide Placed;
    forall i | 0 <= i <= |l.calls| ensures CallOk(Goto(s, t, pc), Begin(l, t, r).calls[i]) {
      if i < |l.calls| { assert CallOk(s, l.calls[i]); }
    }
  }

  lemma BeginCurrent<T>(s: State<T>, l: Ledger<T>, t: Tid, r: Request<T>, pc: Pc<T>)
    requires Current(s, l) && !InCall(s, t) && !pc.Idle?
    ensures Current(Goto(s, t, pc), Begin(l, t, r))
  {
  }

  lemma ProgressKeeps<T>(s: State<T>, s': State<T>, l: Ledger<T>, t: Tid)
    requires LedgerOk(s, l) && InCall(s, t) && Moved(s, s', t) && s.tail == |s.claimed|
    ensures LedgerOk(s', Progress(l, t, s, s'))
  {
    ProgressCurrent(s, s', l, t);
    ProgressCalls(s, s', l, t);
    ProgressPlaced(s, s', l, t);
    hide Current, CallOk, Placed, Moved;
  }

  lemma ProgressCurrent<T>(s: State<T>, s': State<T>, l: Ledger<T>, t: Tid)
    requires Current(s, l) && InCall(s, t) && t in s'.threads && s'.threads == s.threads[t := s'.threads[t]]
    ensures Current(s', Progress(l, t, s, s'))
  {
  }

  lemma OwnCall<T>(s: State<T>, s': State<T>, c: Call<T>)
    requires CallOk(s, c) && c.answer.None? && InCall(s, c.tid) && Moved(s, s', c.tid) && s.tail == |s.claimed|
    ensures CallOk(s', Advance(c, s, s'))
    ensures if s'.tail != s.tail then c.request.Put? && c.place.None? && s'.tail == s.tail + 1 && s'.head == s.head
            else if s'.head != s.head then c.request.Take? && c.place.None? && s'.head == s.head + 1
            else true
  {
  }

  lemma OtherCall<T>(s: State<T>, s': State<T>, t: Tid, c: Call<T>)
    requires CallOk(s, c) && t in s.threads && Moved(s, s', t) && (c.answer.None? ==> c.tid != t)
    ensures CallOk(s', c)
  {
    assert |s.claimed| <= |s'.claimed| && forall p :: 0 <= p < |s.claimed| ==> s'.claimed[p] == s.claimed[p];
    hide Moved;
  }

  lemma ProgressCalls<T>(s: State<T>, s': State<T>, l: Ledger<T>, t: Tid)
    requires LedgerOk(s, l) && InCall(s, t) && Moved(s, s', t) && s.tail == |s.claimed|
    ensures forall i :: 0 <= i < |l.calls| ==> CallOk(s', Progress(l, t, s, s').calls[i])
  {
    hide Placed, Moved, CallOk;
    var i := l.current[t];
    assert CallOk(s, l.calls[i]);
    OwnCall(s, s', l.calls[i]);
    forall j | 0 <= j < |l.calls| ensures CallOk(s', Progress(l, t, s, s').calls[j]) {
      if j != i {
        assert CallOk(s, l.calls[j]) && Progress(l, t, s, s').calls[j] == l.calls[j];
        OtherCall(s, s', t, l.calls[j]);
      }
    }
  }

  lemma ProgressPlaced<T>(s: State<T>, s': State<T>, l: Ledger<T>, t: Tid)
    requires LedgerOk(s, l) && InCall(s, t) && Moved(s, s', t) && s.tail == |s.claimed|
    ensures Placed(s'.tail, s'.head, Progress(l, t, s, s').calls)
  {
    hide Moved, CallOk, Placed;
    var i := l.current[t];
    var c := l.calls[i];
    assert CallOk(s, c);
    OwnCall(s, s', c);
    MovedCounters(s, s', t);
    PlaceMoves(l.calls, i, Advance(c, s, s'), s.tail, s.head, s'.tail, s'.head);
  }

  lemma PlaceMoves<T>(calls: seq<Call<T>>, i: nat, c: Call<T>, tail: nat, head: nat, tail': nat, head': nat)
    requires Placed(tail, head, calls) && i < |calls| && c.request == calls[i].request
    requires if tail' != tail then
               tail' == tail + 1 && head' == head && c.request.Put? && calls[i].place.None? && c.place == Some(tail)
             else if head' != head then
               head' == head + 1 && c.request.Take? && calls[i].place.None? && c.place == Some(head)
             else c.place == calls[i].place
    ensures Placed(tail', head', calls[i := c])
  {
    NotPlaced(calls, tail, head);
    OnlyPlace(calls, i, c, tail, head);
    OnePlaceMore(calls, i, c, calls[i := c]);
    hide SomePut, SomeTake, EachOnce;
  }

  lemma NotPlaced<T>(calls: seq<Call<T>>, p: nat, q: nat)
    requires !SomePut(calls, p) && !SomeTake(calls, q)
    ensures forall i :: 0 <= i < |calls| ==> !PutsAt(calls[i], p) && !TakesAt(calls[i], q)
  {
  }

  lemma OnlyPlace<T>(calls: seq<Call<T>>, i: nat, c: Call<T>, p: nat, q: nat)
    requires i < |calls| && c.request == calls[i].request
    requires forall j :: 0 <= j < |calls| ==> !PutsAt(calls[j], p) && !TakesAt(calls[j], q)
    requires c.place == calls[i].place || c.place == if c.request.Put? then Some(p) else Some(q)
    requires EachOnce(calls)
    ensures EachOnce(calls[i := c])
  {
  }

  lemma MovedCounters<T>(s: State<T>, s': State<T>, t: Tid)
    requires t in s.threads && Moved(s, s', t)
    ensures s'.tail == s.tail || s'.head == s.head
  {
  }

  /** Replacing one call changes the positions of that call only. */
  lemma OnePlaceMore<T>(calls: seq<Call<T>>, i: nat, c: Call<T>, calls': seq<Call<T>>)
    requires i < |calls| && calls' == calls[i := c] && c.request == calls[i].request
    requires calls[i].place.None? || c.place == calls[i].place
    ensures c.place == calls[i].place ==> forall p: nat :: PutsAt(c, p) ==> SomePut(calls, p)
    ensures c.place == calls[i].place ==> forall p: nat :: TakesAt(c, p) ==> SomeTake(calls, p)
    ensures forall p: nat :: SomePut(calls', p) <==> SomePut(calls, p) || PutsAt(c, p)
    ensures forall p: nat :: SomeTake(calls', p) <==> SomeTake(calls, p) || TakesAt(c, p)
  {
    assert calls'[i] == c;
    assert forall p: nat :: c.place == calls[i].place && PutsAt(c, p) ==> PutsAt(calls[i], p);
    assert forall p: nat :: c.place == calls[i].place && TakesAt(c, p) ==> TakesAt(calls[i], p);
    forall p: nat ensures SomePut(calls', p) <==> SomePut(calls, p) || PutsAt(c, p) {
      if SomePut(calls, p) { var j :| 0 <= j < |calls| && PutsAt(calls[j], p); assert PutsAt(calls'[j], p); }
    }
    forall p: nat ensures SomeTake(calls', p) <==> SomeTake(calls, p) || TakesAt(c, p) {
      if SomeTake(calls, p) { var j :| 0 <= j < |calls| && TakesAt(calls[j], p); assert TakesAt(calls'[j], p); }
    }
  }

  // ---- whole runs ----

  lemma NoteKeeps<T>(s: State<T>, l: Ledger<T>, a: Action<T>)
    requires Inv(s) && LedgerOk(s, l)
    ensures LedgerOk(Do(s, a), Note(l, s, a, Do(s, a)))
  {
    assert Shape(s) && Current(s, l);
    hide Inv, Access, LedgerOk;
    match a
    case Enqueue(t, d) => if !InCall(s, t) { BeginKeeps(s, l, t, Put(d), EnqLoadTail(d)); }
    case Dequeue(t) => if !InCall(s, t) { BeginKeeps(s, l, t, Take, DeqLoadHead); }
    case Tick(t, spurious) =>
      if t in s.threads {
        AccessMoves(s, t, spurious);
        if InCall(s, t) { ProgressKeeps(s, Do(s, a), l, t); }
      }
  }

  lemma {:induction false} RecordOk<T>(capacity: nat, actions: seq<Action<T>>)
    ensures LedgerOk(Run(capacity, actions), Record(capacity, actions))
  {
    RunInv(capacity, actions);
    if actions != [] {
      var n := |actions| - 1;
      RunInv(capacity, actions[..n]);
      RecordOk(capacity, actions[..n]);
      NoteKeeps(Run(capacity, actions[..n]), Record(capacity, actions[..n]), actions[n]);
    }
    hide Inv, LedgerOk, Note, Do;
  }

  /** The answer of a finished call. */
  ghost predicate AnsweredRightly<T>(s: State<T>, c: Call<T>, a: Answer<T>) {
    match c.request
    case Put(d) => if c.place.Some? then a == Stored && Holds(s, c.place.value, d) else a == Refused(d)
    case Take =>
      if c.place.Some? then c.place.value < |s.claimed| && a == Taken(Some(s.claimed[c.place.value])) else a == Nothing
  }

  /** Where a call is that is not finished: its datum is with its thread or in the queue. */
  ghost predicate StillInFlight<T>(s: State<T>, c: Call<T>) {
    && InCall(s, c.tid)
    && match (c.request, c.place)
       case (Put(d), None) => Claiming(s.threads[c.tid], d)
       case (Put(d), Some(p)) => Writes(s.threads[c.tid], p) && Holds(s, p, d)
       case (Take, None) => Seeking(s.threads[c.tid])
       case (Take, Some(p)) => Reads(s.threads[c.tid], p)
  }

  /** How the calls of every run end. Each is in flight, as the one call of its thread, or
      finished: an enqueue that was refused has its datum back and claimed nothing, one that was
      stored claimed a position with its datum; a dequeue returned what was claimed at the
      position it took, or nothing. No position is claimed or taken by two calls, or by none. */
  lemma CallsEndRightly<T>(capacity: nat, actions: seq<Action<T>>)
    ensures var s, l := Run(capacity, actions), Record(capacity, actions);
      && (forall i :: 0 <= i < |l.calls| ==>
            match l.calls[i].answer
            case Some(a) => AnsweredRightly(s, l.calls[i], a)
            case None => StillInFlight(s, l.calls[i]))
      && (forall t :: InCall(s, t) ==> exists i :: 0 <= i < |l.calls| && l.calls[i].tid == t && l.calls[i].answer.None?)
      && (forall i, j :: 0 <= i < j < |l.calls| && l.calls[i].answer.None? && l.calls[j].answer.None? ==>
            l.calls[i].tid != l.calls[j].tid)
      && (forall p: nat :: p < s.tail <==> SomePut(l.calls, p))
      && (forall p: nat :: p < s.head <==> SomeTake(l.calls, p))
      && EachOnce(l.calls)
  {
    hide Run, Record, EachOnce, SomePut, SomeTake;
    RecordOk(capacity, actions);
    var s, l := Run(capacity, actions), Record(capacity, actions);
    forall i | 0 <= i < |l.calls|
      ensures match l.calls[i].answer
        case Some(a) => AnsweredRightly(s, l.calls[i], a)
        case None => StillInFlight(s, l.calls[i])
    {
      assert CallOk(s, l.calls[i]);
    }
    forall t | InCall(s, t) ensures exists i :: 0 <= i < |l.calls| && l.calls[i].tid == t && l.calls[i].answer.None? {
      assert t in l.current && l.calls[l.current[t]].tid == t;
    }
  }

  /** The calls behind an action: a thread outside a call starts one, any other move only goes on
      with the calls there are, and what is answered stays as it is. */
  ghost predicate Goes<T>(s: State<T>, calls: seq<Call<T>>, a: Action<T>, calls': seq<Call<T>>) {
    if a.Enqueue? && !InCall(s, a.tid) then calls' == calls + [Call(a.tid, Put(a.data), None, None)]
    else if a.Dequeue? && !InCall(s, a.tid) then calls' == calls + [Call(a.tid, Take, None, None)]
    else
      && |calls'| == |calls|
      && forall i :: 0 <= i < |calls| ==>
           && calls'[i].tid == calls[i].tid && calls'[i].request == calls[i].request
           && (calls[i].answer.Some? ==> calls'[i] == calls[i])
  }

  lemma StartsAreRecorded<T>(capacity: nat, actions: seq<Action<T>>, a: Action<T>)
    ensures Goes(Run(capacity, actions), Record(capacity, actions).calls, a, Record(capacity, actions + [a]).calls)
  {
    assert (actions + [a])[..|actions|] == actions;
    RecordOk(capacity, actions);
    hide Run, Do, CallOk, Placed;
  }

  // ---- refusals ----

  /** The thread has been in a call ever since action `k`, and so in the same one. */
  ghost predicate Throughout<T>(capacity: nat, actions: seq<Action<T>>, t: Tid, k: nat) {
    forall j :: k <= j <= |actions| ==> InCall(Run(capacity, actions[..j]), t)
  }

  /** How a thread comes to compare what it loaded. */
  lemma LoadedBefore<T>(s: State<T>, a: Action<T>, t: Tid)
    requires |s.slots| == Lap(s) && t in Do(s, a).threads
    requires Do(s, a).threads[t].EnqLoadHead? || Do(s, a).threads[t].DeqLoadTail?
    ensures InCall(s, t)
    ensures var pc, pc' := s.threads[t], Do(s, a).threads[t];
      || pc == pc' || (pc.EnqLoadTail? && pc' == EnqLoadHead(pc.data, s.tail))
      || (pc.DeqLoadHead? && pc' == DeqLoadTail(s.head))
  {
    hide Access;
    if a.Tick? && a.tid in s.threads {
      AccessAt(s, a.tid, a.spurious);
      if a.tid == t { LoadsNow(s, t, a.spurious); }
    }
  }

  lemma LoadsNow<T>(s: State<T>, t: Tid, spurious: bool)
    requires |s.slots| == Lap(s) && t in s.threads && t in Access(s, t, spurious).threads
    ensures var pc, pc' := s.threads[t], Access(s, t, spurious).threads[t];
      && (pc'.EnqLoadHead? ==> pc.EnqLoadTail? && pc' == EnqLoadHead(pc.data, s.tail))
      && (pc'.DeqLoadTail? ==> pc.DeqLoadHead? && pc' == DeqLoadTail(s.head))
  {
    hide Index;
  }

  lemma {:induction false} CounterWasLoaded<T>(capacity: nat, actions: seq<Action<T>>, t: Tid) returns (k: nat)
    requires var s := Run(capacity, actions); t in s.threads && (s.threads[t].EnqLoadHead? || s.threads[t].DeqLoadTail?)
    ensures k < |actions| && Throughout(capacity, actions, t, k)
    ensures var s, was := Run(capacity, actions), Run(capacity, actions[..k]);
      s.threads[t].pos == if s.threads[t].EnqLoadHead? then was.tail else was.head
  {
    hide Do;
    var n := |actions|;
    assert actions[..n] == actions;
    if n > 0 {
      var before := actions[..n - 1];
      LoadedBefore(Run(capacity, before), actions[n - 1], t);
      k := n - 1;
      if Run(capacity, before).threads[t] == Run(capacity, actions).threads[t] {
        k := CounterWasLoaded(capacity, before, t);
        assert before[..k] == actions[..k];
      }
      forall j | k <= j <= n ensures InCall(Run(capacity, actions[..j]), t) {
        if j < n { assert before[..j] == actions[..j] && InCall(Run(capacity, before[..j]), t); }
      }
    }
  }

  /** A call is left at one of its tests, or at its last write. */
  lemma Leaves<T>(s: State<T>, t: Tid, spurious: bool)
    requires |s.slots| == Lap(s) && InCall(s, t) && Access(s, t, spurious).threads[t].Idle?
    ensures var pc, a := s.threads[t], Access(s, t, spurious).threads[t].answer;
      match a
      case Refused(_) => pc.EnqLoadHead? && (pc.pos + 1) % Lap(s) == s.head % Lap(s)
      case Nothing => pc.DeqLoadTail? && pc.pos % Lap(s) == s.tail % Lap(s)
      case Stored => pc.EnqWriteStamp?
      case Taken(_) => pc.DeqWriteStamp?
  {
  }

  lemma FullOrPassed(head: nat, tail: nat, pos: nat, lap: nat)
    requires lap >= 1 && head <= tail < head + lap && pos <= tail && (pos + 1) % lap == head % lap
    ensures pos < head || (pos == tail && tail - head == lap - 1)
  {
    if pos >= head { SameSlot(head, pos + 1, lap); }
  }

  lemma EmptyOrLapped(head: nat, tail: nat, pos: nat, lap: nat)
    requires lap >= 1 && head <= tail && pos <= head && pos % lap == tail % lap
    ensures head == tail || pos + lap <= tail
  {
    if pos < tail { SameSlot(pos, tail, lap); }
  }

  lemma PositionsPassed<T>(s: State<T>, t: Tid)
    requires Inv(s) && t in s.threads
    ensures Shape(s)
    ensures s.threads[t].EnqLoadHead? ==> s.threads[t].pos <= s.tail
    ensures s.threads[t].DeqLoadTail? ==> s.threads[t].pos <= s.head
  {
    assert PcOk(s, s.threads[t]);
    hide FullSlot, FreeSlot, Exclusive, Accounted;
  }

  lemma LeavesFull<T>(s: State<T>, t: Tid, spurious: bool)
    requires Inv(s) && InCall(s, t)
    requires |s.slots| == Lap(s) && Access(s, t, spurious).threads[t].Idle?
    requires Access(s, t, spurious).threads[t].answer.Refused?
    ensures s.threads[t].EnqLoadHead? && (s.tail - s.head == Lap(s) - 1 || s.threads[t].pos < s.head)
  {
    hide Inv, Access;
    Leaves(s, t, spurious);
    PositionsPassed(s, t);
    FullOrPassed(s.head, s.tail, s.threads[t].pos, Lap(s));
  }

  lemma LeavesEmpty<T>(s: State<T>, t: Tid, spurious: bool)
    requires Inv(s) && InCall(s, t)
    requires |s.slots| == Lap(s) && Access(s, t, spurious).threads[t].Idle?
    requires Access(s, t, spurious).threads[t].answer.Nothing?
    ensures s.threads[t].DeqLoadTail? && (s.tail == s.head || s.threads[t].pos + Lap(s) <= s.tail)
  {
    hide Inv, Access;
    Leaves(s, t, spurious);
    PositionsPassed(s, t);
    EmptyOrLapped(s.head, s.tail, s.threads[t].pos, Lap(s));
  }

  /** In every run, a producer is refused only if the ring is full at that step, or if consumers
      have passed the tail that it loaded during the call. */
  lemma RefusedOnlyIfFullOrStale<T>(capacity: nat, actions: seq<Action<T>>, t: Tid, spurious: bool) returns (k: nat)
    requires InCall(Run(capacity, actions), t)
    requires var pc := Access(Run(capacity, actions), t, spurious).threads[t]; pc.Idle? && pc.answer.Refused?
    ensures k < |actions| && Throughout(capacity, actions, t, k)
    ensures var s, loaded := Run(capacity, actions), Run(capacity, actions[..k]).tail;
      s.tail - s.head == Lap(s) - 1 || loaded < s.head
  {
    hide Run, Access, Inv;
    RunInv(capacity, actions);
    LeavesFull(Run(capacity, actions), t, spurious);
    k := CounterWasLoaded(capacity, actions, t);
  }

  /** A consumer is told "empty" only if the ring is empty at that step, or if the head that it
      loaded during the call is a whole lap behind. */
  lemma NothingOnlyIfEmptyOrStale<T>(capacity: nat, actions: seq<Action<T>>, t: Tid, spurious: bool) returns (k: nat)
    requires InCall(Run(capacity, actions), t)
    requires var pc := Access(Run(capacity, actions), t, spurious).threads[t]; pc.Idle? && pc.answer.Nothing?
    ensures k < |actions| && Throughout(capacity, actions, t, k)
    ensures var s, loaded := Run(capacity, actions), Run(capacity, actions[..k]).head;
      s.tail == s.head || loaded + Lap(s) <= s.tail
  {
    hide Run, Access, Inv;
    RunInv(capacity, actions);
    LeavesEmpty(Run(capacity, actions), t, spurious);
    k := CounterWasLoaded(capacity, actions, t);
  }
}

/** With two producers a stale tail can make the ring answer "full" while it is empty. */
module FifoStale {
  import opened Bits
  import opened Fifo

  const SLOW: Tid := 0
  const FAST: Tid := 1
  const READER: Tid := 2

  /** The slow producer loads the tail; the fast one enqueues; the reader claims what it wrote;
      then the slow producer compares its tail with the new head. */
  const HISTORY: seq<Action<int>> := [
    Enqueue(SLOW, 10), Tick(SLOW, false),
    Enqueue(FAST, 20), Tick(FAST, false), Tick(FAST, false), Tick(FAST, false), Tick(FAST, false), Tick(FAST, false),
    Tick(FAST, false),
    Dequeue(READER), Tick(READER, false), Tick(READER, false), Tick(READER, false), Tick(READER, false)]

  /** What matters of a state: counters, the first slot's stamp, and where each thread is. */
  datatype Scene = Scene(head: nat, tail: nat, stamp: nat, slow: Pc<int>, fast: Pc<int>, reader: Pc<int>)

  /** The scene after `k` actions. */
  function SceneAt(k: nat): Scene {
    var slow, idle := EnqLoadHead(10, 0), Idle(Nothing);
    match k
    case 0 => Scene(0, 0, 0, idle, idle, idle)
    case 1 => Scene(0, 0, 0, EnqLoadTail(10), idle, idle)
    case 2 => Scene(0, 0, 0, slow, idle, idle)
    case 3 => Scene(0, 0, 0, slow, EnqLoadTail(20), idle)
    case 4 => Scene(0, 0, 0, slow, EnqLoadHead(20, 0), idle)
    case 5 => Scene(0, 0, 0, slow, EnqLoadStamp(20, 0), idle)
    case 6 => Scene(0, 0, 0, slow, EnqExchange(20, 0), idle)
    case 7 => Scene(0, 1, 0, slow, EnqWriteValue(20, 0), idle)
    case 8 => Scene(0, 1, 0, slow, EnqWriteStamp(0), idle)
    case 9 => Scene(0, 1, 1, slow, idle, idle)
    case 10 => Scene(0, 1, 1, slow, idle, DeqLoadHead)
    case 11 => Scene(0, 1, 1, slow, idle, DeqLoadTail(0))
    case 12 => Scene(0, 1, 1, slow, idle, DeqLoadStamp(0))
    case 13 => Scene(0, 1, 1, slow, idle, DeqExchange(0))
    case _ => Scene(1, 1, 1, slow, idle, DeqReadValue(0))
  }

  predicate ThreadAt(s: State<int>, t: Tid, pc: Pc<int>) {
    if pc.Idle? then t in s.threads ==> s.threads[t].Idle? else t in s.threads && s.threads[t] == pc
  }

  predicate Shows(s: State<int>, c: Scene) {
    && s.lapBits == 1 && |s.slots| == 2 && s.head == c.head && s.tail == c.tail && s.slots[0].stamp == c.stamp
    && ThreadAt(s, SLOW, c.slow) && ThreadAt(s, FAST, c.fast) && ThreadAt(s, READER, c.reader)
  }

  lemma IndexOfTwo()
    ensures Index(0, 1) == 0 && Index(1, 1) == 1 && Pow2(1) == 2
  {
  }

  /** The actions of the fast producer. */
  lemma FastStep(s: State<int>, k: nat)
    requires 2 <= k < 9 && Shows(s, SceneAt(k))
    ensures |s.slots| == Lap(s) && Shows(Do(s, HISTORY[k]), SceneAt(k + 1))
  {
    IndexOfTwo();
    hide Index, Pow2;
  }

  lemma OtherStep(s: State<int>, k: nat)
    requires k < 2 || 9 <= k < 14
    requires Shows(s, SceneAt(k))
    ensures |s.slots| == Lap(s) && Shows(Do(s, HISTORY[k]), SceneAt(k + 1))
  {
    IndexOfTwo();
    hide Index, Pow2;
  }

  lemma StartScene()
    ensures Shows(Init<int>(1), SceneAt(0))
  {
    assert LapBits(1, 0) == 1;
    IndexOfTwo();
  }

  lemma {:induction false} Plays(k: nat)
    requires k <= 14
    ensures Shows(Run(1, HISTORY[..k]), SceneAt(k))
  {
    if k == 0 {
      StartScene();
      assert HISTORY[..0] == [];
    } else {
      Plays(k - 1);
      assert HISTORY[..k][..k - 1] == HISTORY[..k - 1] && HISTORY[..k][k - 1] == HISTORY[k - 1];
      if 2 <= k - 1 < 9 {
        FastStep(Run(1, HISTORY[..k - 1]), k - 1);
      } else {
        OtherStep(Run(1, HISTORY[..k - 1]), k - 1);
      }
    }
    hide Do, Shows, SceneAt, Init;
  }

  /** The slow producer is told "full" although the ring is empty and could hold one value. */
  lemma FullCanBeSpurious()
    ensures var s := Run(1, HISTORY);
      && SLOW in s.threads && s.threads[SLOW].EnqLoadHead?
      && s.tail == s.head && s.tail - s.head < Lap(s) - 1
      && Access(s, SLOW, false).threads[SLOW] == Idle(Refused(10))
  {
    Plays(14);
    assert HISTORY[..14] == HISTORY;
    IndexOfTwo();
    hide Run, Index, Pow2;
  }
}

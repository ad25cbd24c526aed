/** The slab caches: eight size classes, each with a free list threaded through memory. The
    16-byte class keeps the link behind its 16 bytes; the larger classes keep their lists in
    two-word nodes that are themselves 16-byte blocks. */
module Slab {
  import B = Bits
  import P = Pages

  const CLASSES: nat := 8

  datatype Cache = Cache(totalCount: nat, freeCount: nat, freePtr: nat)

  type Memory = map<nat, nat>

  /** What a cache consists of: every block carved for it, the free ones in list order, and
      the nodes that hold that list (none for the first class). */
  datatype Shape = Shape(pages: set<nat>, blocks: set<nat>, free: seq<nat>, nodes: seq<nat>)

  function BlockSize(c: nat): nat { 16 * B.Pow2(c) }

  /** 16-byte blocks take 32 bytes, with the link. */
  function EntrySize(c: nat): nat { if c == 0 then 32 else BlockSize(c) }

  function Word(mem: Memory, a: nat): nat { if a in mem then mem[a] else 0 }

  // ---- free lists in memory ----

  ghost predicate Chain16(mem: Memory, ptr: nat, free: seq<nat>)
    decreases |free|
  {
    if free == [] then ptr == 0
    else ptr == free[0] != 0 && Chain16(mem, Word(mem, ptr + 16), free[1..])
  }

  ghost predicate ChainBig(mem: Memory, ptr: nat, nodes: seq<nat>, free: seq<nat>)
    decreases |nodes|
  {
    if nodes == [] then ptr == 0 && free == []
    else
      && free != [] && ptr == nodes[0] != 0 && Word(mem, ptr + 8) == free[0]
      && ChainBig(mem, Word(mem, ptr), nodes[1..], free[1..])
  }

  lemma {:induction false} Chain16Frame(mem: Memory, mem': Memory, ptr: nat, free: seq<nat>)
    requires Chain16(mem, ptr, free)
    requires forall i :: 0 <= i < |free| ==> Word(mem', free[i] + 16) == Word(mem, free[i] + 16)
    ensures Chain16(mem', ptr, free)
    decreases |free|
  {
    if free != [] {
      assert forall i :: 0 <= i < |free[1..]| ==> free[1..][i] == free[i + 1];
      Chain16Frame(mem, mem', Word(mem, ptr + 16), free[1..]);
    }
  }

  lemma {:induction false} ChainBigFrame(mem: Memory, mem': Memory, ptr: nat, nodes: seq<nat>, free: seq<nat>)
    requires ChainBig(mem, ptr, nodes, free)
    requires forall i :: 0 <= i < |nodes| ==>
      Word(mem', nodes[i]) == Word(mem, nodes[i]) && Word(mem', nodes[i] + 8) == Word(mem, nodes[i] + 8)
    ensures ChainBig(mem', ptr, nodes, free)
    decreases |nodes|
  {
    if nodes != [] {
      assert forall i :: 0 <= i < |nodes[1..]| ==> nodes[1..][i] == nodes[i + 1];
      ChainBigFrame(mem, mem', Word(mem, ptr), nodes[1..], free[1..]);
    }
  }

  lemma {:induction false} ChainBigLength(mem: Memory, ptr: nat, nodes: seq<nat>, free: seq<nat>)
    requires ChainBig(mem, ptr, nodes, free)
    ensures |nodes| == |free|
    decreases |nodes|
  {
    if nodes != [] { ChainBigLength(mem, Word(mem, ptr), nodes[1..], free[1..]); }
  }

  // ---- where blocks are ----

  lemma EntrySizes()
    ensures EntrySize(0) == 32 && EntrySize(1) == 32 && EntrySize(2) == 64 && EntrySize(3) == 128
    ensures EntrySize(4) == 256 && EntrySize(5) == 512 && EntrySize(6) == 1024 && EntrySize(7) == 2048
  {
  }

  /** Entries divide the page. */
  lemma EntriesPerPage(c: nat)
    requires c < CLASSES
    ensures EntrySize(c) > 0 && EntrySize(c) * (P.PAGE_SIZE / EntrySize(c)) == P.PAGE_SIZE
  {
    EntrySizes();
    hide EntrySize;
    match c
    case 0 => case 1 => case 2 => case 3 => case 4 => case 5 => case 6 => case 7 =>
  }

  lemma StepInPage(e: nat, n: nat, p: nat, s: nat, k: nat)
    requires e * n == P.PAGE_SIZE && s < n && k < e
    ensures (P.PAGE_SIZE * p + e * s + k) / P.PAGE_SIZE == p
  {
    B.MulAtLeast(e, n - s);
    assert e * n - e * s == e * (n - s);
    B.ModUnique(P.PAGE_SIZE * p + e * s + k, P.PAGE_SIZE, p, e * s + k);
  }

  /** An entry stays inside its page. */
  lemma EntryInPage(c: nat, a: nat, k: nat)
    requires c < CLASSES && EntrySize(c) > 0 && a % EntrySize(c) == 0 && k < EntrySize(c)
    ensures (a + k) / P.PAGE_SIZE == a / P.PAGE_SIZE
  {
    EntriesPerPage(c);
    var e, n := EntrySize(c), P.PAGE_SIZE / EntrySize(c);
    hide EntrySize;
    var p, s := EntrySplit(e, n, a);
    StepInPage(e, n, p, s, k);
    StepInPage(e, n, p, s, 0);
  }

  /** Page and place in the page of an entry. */
  lemma EntrySplit(e: nat, n: nat, a: nat) returns (p: nat, s: nat)
    requires e > 0 && n > 0 && e * n == P.PAGE_SIZE && a % e == 0
    ensures a == P.PAGE_SIZE * p + e * s && s < n
  {
    var q := a / e;
    p, s := q / n, q % n;
    assert a == e * q && q == n * p + s;
    Distribute(e, n, p, s);
  }

  lemma Distribute(e: nat, n: nat, p: nat, s: nat)
    ensures e * (n * p + s) == (e * n) * p + e * s
  {
    assert e * (n * p) == (e * n) * p;
  }

  /** Different entries of one class do not overlap. */
  lemma EntriesApart(c: nat, a: nat, b: nat)
    requires c < CLASSES && a % EntrySize(c) == 0 && b % EntrySize(c) == 0 && a != b
    ensures a + EntrySize(c) <= b || b + EntrySize(c) <= a
  {
    var e := EntrySize(c);
    var p, q := a / e, b / e;
    assert a == e * p && b == e * q;
    B.MulAtLeast(e, q - p);
    assert b - a == e * (q - p);
  }

  // ---- the invariant ----

  ghost predicate NoDup(s: seq<nat>) { forall i, j :: 0 <= i < j < |s| ==> s[i] != s[j] }

  /** Blocks are aligned entries of their class's own pages. */
  ghost predicate Layout(shapes: seq<Shape>) {
    && |shapes| == CLASSES
    && (forall c, a :: 0 <= c < CLASSES && a in shapes[c].blocks ==> EntryOf(shapes[c], c, a))
    && (forall c, d :: 0 <= c < d < CLASSES ==> shapes[c].pages !! shapes[d].pages)
  }

  predicate EntryOf(s: Shape, c: nat, a: nat) {
    EntrySize(c) > 0 && a > 0 && a % EntrySize(c) == 0 && a / P.PAGE_SIZE in s.pages
  }

  /** Free lists hold blocks once; nodes are 16-byte blocks in use, each for one list. */
  ghost predicate Lists(shapes: seq<Shape>) {
    && |shapes| == CLASSES && shapes[0].nodes == []
    && (forall c :: 0 <= c < CLASSES ==> ListOk(shapes[c].free, shapes[c].blocks))
    && (forall c :: 0 <= c < CLASSES ==> ListOk(shapes[c].nodes, shapes[0].blocks))
    && (forall c, i :: 0 <= c < CLASSES && 0 <= i < |shapes[c].nodes| ==> shapes[c].nodes[i] !in shapes[0].free)
    && (forall c, d, i, j :: 0 <= c < d < CLASSES && 0 <= i < |shapes[c].nodes| && 0 <= j < |shapes[d].nodes| ==>
          shapes[c].nodes[i] != shapes[d].nodes[j])
  }

  ghost predicate ListOk(s: seq<nat>, blocks: set<nat>) {
    NoDup(s) && forall i :: 0 <= i < |s| ==> s[i] in blocks
  }

  ghost predicate Linked(mem: Memory, caches: seq<Cache>, shapes: seq<Shape>) {
    && |caches| == |shapes| == CLASSES && Chain16(mem, caches[0].freePtr, shapes[0].free)
    && (forall c :: 1 <= c < CLASSES ==> ChainBig(mem, caches[c].freePtr, shapes[c].nodes, shapes[c].free))
  }

  ghost predicate Counted(caches: seq<Cache>, shapes: seq<Shape>) {
    && |caches| == |shapes| == CLASSES
    && (forall c :: 0 <= c < CLASSES ==> caches[c].freeCount == |shapes[c].free|)
  }

  ghost predicate Inv(mem: Memory, caches: seq<Cache>, shapes: seq<Shape>) {
    Layout(shapes) && Lists(shapes) && Linked(mem, caches, shapes) && Counted(caches, shapes)
  }

  ghost predicate IsNode(shapes: seq<Shape>, a: nat) { exists c :: 0 <= c < |shapes| && a in shapes[c].nodes }

  /** A block that neither a free list nor a list node holds. */
  ghost predicate Client(shapes: seq<Shape>, c: nat, a: nat) {
    c < |shapes| && a in shapes[c].blocks && a !in shapes[c].free && (c == 0 ==> !IsNode(shapes, a))
  }

  // ---- the 16-byte class ----

  function Pushed16(mem: Memory, caches: seq<Cache>, a: nat): (Memory, seq<Cache>)
    requires |caches| > 0
  {
    (mem[a + 16 := caches[0].freePtr],
     caches[0 := caches[0].(freePtr := a, freeCount := caches[0].freeCount + 1)])
  }

  function WithFree(shapes: seq<Shape>, c: nat, free: seq<nat>): seq<Shape>
    requires c < |shapes|
  {
    shapes[c := shapes[c].(free := free)]
  }

  lemma Push16Lists(shapes: seq<Shape>, a: nat)
    requires Lists(shapes) && Client(shapes, 0, a)
    ensures Lists(WithFree(shapes, 0, [a] + shapes[0].free))
  {
    var shapes' := WithFree(shapes, 0, [a] + shapes[0].free);
    assert ListOk([a] + shapes[0].free, shapes[0].blocks);
    forall c, i | 0 <= c < CLASSES && 0 <= i < |shapes[c].nodes| ensures shapes[c].nodes[i] != a {
      assert shapes[c].nodes[i] in shapes[c].nodes;
    }
    assert forall c :: 0 <= c < CLASSES ==>
      shapes'[c].nodes == shapes[c].nodes && shapes'[c].blocks == shapes[c].blocks;
    hide ListOk;
  }

  /** Nodes are entries of the first class, so their words are never a link word. */
  lemma NodeWords(shapes: seq<Shape>, c: nat, i: nat, a: nat)
    requires Layout(shapes) && Lists(shapes) && c < CLASSES && i < |shapes[c].nodes| && a % 32 == 0
    ensures shapes[c].nodes[i] % 32 == 0 && shapes[c].nodes[i] != a + 16 && shapes[c].nodes[i] + 8 != a + 16
  {
    EntrySizes();
    assert ListOk(shapes[c].nodes, shapes[0].blocks);
    assert EntryOf(shapes[0], 0, shapes[c].nodes[i]);
    hide EntrySize, Lists, Layout, ListOk;
  }

  lemma FirstClass(shapes: seq<Shape>, a: nat)
    requires Layout(shapes) && a in shapes[0].blocks
    ensures a > 0 && a % 32 == 0
  {
    EntrySizes();
    assert EntryOf(shapes[0], 0, a);
    hide EntrySize, Layout;
  }

  lemma Push16Linked(mem: Memory, caches: seq<Cache>, shapes: seq<Shape>, a: nat)
    requires Inv(mem, caches, shapes) && Client(shapes, 0, a)
    ensures var (mem', caches') := Pushed16(mem, caches, a);
      Linked(mem', caches', WithFree(shapes, 0, [a] + shapes[0].free))
  {
    hide Lists, Layout, Counted, Chain16, ChainBig;
    FirstClass(shapes, a);
    var (mem', caches') := Pushed16(mem, caches, a);
    var free := shapes[0].free;
    assert forall i :: 0 <= i < |free| ==> free[i] in free;
    Chain16Frame(mem, mem', caches[0].freePtr, free);
    Chain16Cons(mem', a, free);
    forall c | 1 <= c < CLASSES ensures ChainBig(mem', caches'[c].freePtr, shapes[c].nodes, shapes[c].free) {
      forall i | 0 <= i < |shapes[c].nodes| ensures shapes[c].nodes[i] != a + 16 && shapes[c].nodes[i] + 8 != a + 16 {
        NodeWords(shapes, c, i, a);
      }
      ChainBigFrame(mem, mem', caches[c].freePtr, shapes[c].nodes, shapes[c].free);
    }
  }

  lemma Chain16Cons(mem: Memory, a: nat, free: seq<nat>)
    requires Chain16(mem, Word(mem, a + 16), free) && a > 0
    ensures Chain16(mem, a, [a] + free)
  {
    assert ([a] + free)[1..] == free;
  }

  lemma SameBlocks(shapes: seq<Shape>, shapes': seq<Shape>)
    requires Layout(shapes) && |shapes'| == CLASSES
    requires forall c :: 0 <= c < CLASSES ==>
      shapes'[c].blocks == shapes[c].blocks && shapes'[c].pages == shapes[c].pages
    ensures Layout(shapes')
  {
    forall c, a | 0 <= c < CLASSES && a in shapes'[c].blocks ensures EntryOf(shapes'[c], c, a) {
      assert EntryOf(shapes[c], c, a);
    }
    hide EntrySize;
  }

  /** `SlabCache::free` of the 16-byte class. */
  lemma Push16(mem: Memory, caches: seq<Cache>, shapes: seq<Shape>, a: nat)
    requires Inv(mem, caches, shapes) && Client(shapes, 0, a)
    ensures var (mem', caches') := Pushed16(mem, caches, a);
      Inv(mem', caches', WithFree(shapes, 0, [a] + shapes[0].free))
  {
    hide Layout, Lists, Linked;
    Push16Lists(shapes, a);
    Push16Linked(mem, caches, shapes, a);
    SameBlocks(shapes, WithFree(shapes, 0, [a] + shapes[0].free));
  }

  function Popped16(mem: Memory, caches: seq<Cache>): seq<Cache>
    requires |caches| > 0
  {
    caches[0 := caches[0].(freePtr := Word(mem, caches[0].freePtr + 16), freeCount := Pred(caches[0].freeCount))]
  }

  /** `fetch_sub(1)`, never below zero here. */
  function Pred(n: nat): nat { if n == 0 then 0xffff_ffff_ffff_ffff else n - 1 }

  lemma Pop16(mem: Memory, caches: seq<Cache>, shapes: seq<Shape>)
    requires Inv(mem, caches, shapes) && caches[0].freePtr != 0
    ensures shapes[0].free != [] && caches[0].freePtr == shapes[0].free[0]
    ensures var shapes' := WithFree(shapes, 0, shapes[0].free[1..]);
      Inv(mem, Popped16(mem, caches), shapes') && Client(shapes', 0, caches[0].freePtr)
  {
    var free := shapes[0].free;
    var a, shapes' := caches[0].freePtr, WithFree(shapes, 0, free[1..]);
    assert free != [] && a == free[0];
    Pop16Lists(shapes);
    hide Layout, Lists, ChainBig;
    SameBlocks(shapes, shapes');
  }

  lemma Pop16Lists(shapes: seq<Shape>)
    requires Lists(shapes) && shapes[0].free != []
    ensures var shapes' := WithFree(shapes, 0, shapes[0].free[1..]);
      Lists(shapes') && Client(shapes', 0, shapes[0].free[0])
  {
    var free := shapes[0].free;
    var shapes' := WithFree(shapes, 0, free[1..]);
    assert ListOk(free, shapes[0].blocks);
    assert forall i :: 0 <= i < |free[1..]| ==> free[1..][i] == free[i + 1];
    assert ListOk(free[1..], shapes[0].blocks);
    assert forall c :: 0 <= c < CLASSES ==>
      shapes'[c].nodes == shapes[c].nodes && shapes'[c].blocks == shapes[c].blocks;
    hide ListOk;
  }

  // ---- the larger classes ----

  function PushedBig(mem: Memory, caches: seq<Cache>, c: nat, node: nat, a: nat): (Memory, seq<Cache>)
    requires c < |caches|
  {
    (mem[node + 8 := a][node := caches[c].freePtr],
     caches[c := caches[c].(freePtr := node, freeCount := caches[c].freeCount + 1)])
  }

  function WithList(shapes: seq<Shape>, c: nat, nodes: seq<nat>, free: seq<nat>): seq<Shape>
    requires c < |shapes|
  {
    shapes[c := shapes[c].(nodes := nodes, free := free)]
  }

  lemma PushBigLists(shapes: seq<Shape>, c: nat, node: nat, a: nat)
    requires Lists(shapes) && 1 <= c < CLASSES && Client(shapes, 0, node) && Client(shapes, c, a)
    ensures Lists(WithList(shapes, c, [node] + shapes[c].nodes, [a] + shapes[c].free))
  {
    var shapes' := WithList(shapes, c, [node] + shapes[c].nodes, [a] + shapes[c].free);
    assert forall d, i :: 0 <= d < CLASSES && 0 <= i < |shapes[d].nodes| ==> shapes[d].nodes[i] in shapes[d].nodes;
    assert forall d, i :: 0 <= d < CLASSES && 0 <= i < |shapes[d].nodes| ==> shapes[d].nodes[i] != node;
    assert ListOk(shapes[c].nodes, shapes[0].blocks) && ListOk(shapes[c].free, shapes[c].blocks);
    assert ListOk([node] + shapes[c].nodes, shapes[0].blocks) && ListOk([a] + shapes[c].free, shapes[c].blocks);
    hide ListOk;
  }

  lemma ChainBigCons(mem: Memory, node: nat, nodes: seq<nat>, a: nat, free: seq<nat>)
    requires ChainBig(mem, Word(mem, node), nodes, free) && node > 0 && Word(mem, node + 8) == a
    ensures ChainBig(mem, node, [node] + nodes, [a] + free)
  {
    assert ([node] + nodes)[1..] == nodes && ([a] + free)[1..] == free;
  }

  /** Words of different nodes are different words, and none is a link word. */
  lemma NodesApart(shapes: seq<Shape>, c: nat, i: nat, node: nat)
    requires Layout(shapes) && Lists(shapes) && c < CLASSES && i < |shapes[c].nodes|
    requires node % 32 == 0 && node != shapes[c].nodes[i]
    ensures var n := shapes[c].nodes[i];
      n != node && n != node + 8 && n + 8 != node && n + 8 != node + 8
  {
    NodeWords(shapes, c, i, node);
    hide Layout, Lists;
  }

  lemma PushBigLinked(mem: Memory, caches: seq<Cache>, shapes: seq<Shape>, c: nat, node: nat, a: nat)
    requires Inv(mem, caches, shapes) && 1 <= c < CLASSES && Client(shapes, 0, node) && Client(shapes, c, a)
    ensures var (mem', caches') := PushedBig(mem, caches, c, node, a);
      Linked(mem', caches', WithList(shapes, c, [node] + shapes[c].nodes, [a] + shapes[c].free))
  {
    hide Lists, Layout, Counted, Chain16, ChainBig;
    FirstClass(shapes, node);
    var (mem', caches') := PushedBig(mem, caches, c, node, a);
    FreeWordsKept(shapes, mem, mem', node);
    Chain16Frame(mem, mem', caches[0].freePtr, shapes[0].free);
    forall d | 1 <= d < CLASSES ensures ChainBig(mem', caches[d].freePtr, shapes[d].nodes, shapes[d].free) {
      forall i | 0 <= i < |shapes[d].nodes|
        ensures var n := shapes[d].nodes[i]; n != node && n != node + 8 && n + 8 != node
      {
        assert shapes[d].nodes[i] in shapes[d].nodes;
        NodesApart(shapes, d, i, node);
      }
      ChainBigFrame(mem, mem', caches[d].freePtr, shapes[d].nodes, shapes[d].free);
    }
    ChainBigCons(mem', node, shapes[c].nodes, a, shapes[c].free);
  }

  lemma FreeWordsKept(shapes: seq<Shape>, mem: Memory, mem': Memory, node: nat)
    requires Layout(shapes) && Lists(shapes) && node % 32 == 0
    requires forall w :: w != node && w != node + 8 ==> Word(mem', w) == Word(mem, w)
    ensures forall i :: 0 <= i < |shapes[0].free| ==>
      Word(mem', shapes[0].free[i] + 16) == Word(mem, shapes[0].free[i] + 16)
  {
    hide Layout;
    forall i | 0 <= i < |shapes[0].free| ensures shapes[0].free[i] % 32 == 0 {
      assert ListOk(shapes[0].free, shapes[0].blocks);
      FirstClass(shapes, shapes[0].free[i]);
    }
  }

  /** `SlabCache::free` of a larger class, once it has its node. */
  lemma PushBig(mem: Memory, caches: seq<Cache>, shapes: seq<Shape>, c: nat, node: nat, a: nat)
    requires Inv(mem, caches, shapes) && 1 <= c < CLASSES && Client(shapes, 0, node) && Client(shapes, c, a)
    ensures var (mem', caches') := PushedBig(mem, caches, c, node, a);
      Inv(mem', caches', WithList(shapes, c, [node] + shapes[c].nodes, [a] + shapes[c].free))
  {
    hide Layout, Lists, Linked, Client;
    PushBigLists(shapes, c, node, a);
    PushBigLinked(mem, caches, shapes, c, node, a);
    SameBlocks(shapes, WithList(shapes, c, [node] + shapes[c].nodes, [a] + shapes[c].free));
  }

  function PoppedBig(mem: Memory, caches: seq<Cache>, c: nat): seq<Cache>
    requires c < |caches|
  {
    caches[c := caches[c].(freePtr := Word(mem, caches[c].freePtr), freeCount := Pred(caches[c].freeCount))]
  }

  /** Taking the first node off a larger class's list: the node and its block are free to use. */
  lemma PopBig(mem: Memory, caches: seq<Cache>, shapes: seq<Shape>, c: nat)
    requires Inv(mem, caches, shapes) && 1 <= c < CLASSES && caches[c].freePtr != 0
    ensures shapes[c].nodes != [] && shapes[c].free != []
    ensures caches[c].freePtr == shapes[c].nodes[0] && Word(mem, caches[c].freePtr + 8) == shapes[c].free[0]
    ensures var shapes' := WithList(shapes, c, shapes[c].nodes[1..], shapes[c].free[1..]);
      && Inv(mem, PoppedBig(mem, caches, c), shapes')
      && Client(shapes', 0, shapes[c].nodes[0]) && Client(shapes', c, shapes[c].free[0])
  {
    hide Layout, Lists, Chain16;
    var shapes' := WithList(shapes, c, shapes[c].nodes[1..], shapes[c].free[1..]);
    assert ChainBig(mem, caches[c].freePtr, shapes[c].nodes, shapes[c].free);
    PopBigLists(shapes, c);
    SameBlocks(shapes, shapes');
    hide Client;
  }

  lemma TailOk(s: seq<nat>, blocks: set<nat>)
    requires ListOk(s, blocks) && s != []
    ensures ListOk(s[1..], blocks) && s[0] !in s[1..] && s[0] in blocks
    ensures forall i :: 0 <= i < |s[1..]| ==> s[1..][i] == s[i + 1]
  {
  }

  lemma PopBigLists(shapes: seq<Shape>, c: nat)
    requires Lists(shapes) && 1 <= c < CLASSES && shapes[c].nodes != [] && shapes[c].free != []
    ensures var shapes' := WithList(shapes, c, shapes[c].nodes[1..], shapes[c].free[1..]);
      Lists(shapes') && Client(shapes', 0, shapes[c].nodes[0]) && Client(shapes', c, shapes[c].free[0])
  {
    TailOk(shapes[c].nodes, shapes[0].blocks);
    TailOk(shapes[c].free, shapes[c].blocks);
    hide ListOk;
  }

  // ---- new blocks, and what clients write ----

  function WithBlock(shapes: seq<Shape>, c: nat, a: nat): seq<Shape>
    requires c < |shapes|
  {
    shapes[c := shapes[c].(blocks := shapes[c].blocks + {a})]
  }

  lemma AddBlock(mem: Memory, caches: seq<Cache>, shapes: seq<Shape>, c: nat, a: nat)
    requires Inv(mem, caches, shapes) && c < CLASSES && a !in shapes[c].blocks && EntryOf(shapes[c], c, a)
    ensures Inv(mem, caches, WithBlock(shapes, c, a)) && Client(WithBlock(shapes, c, a), c, a)
  {
    var shapes' := WithBlock(shapes, c, a);
    assert Layout(shapes') by {
      forall d, b | 0 <= d < CLASSES && b in shapes'[d].blocks ensures EntryOf(shapes'[d], d, b) {
        assert b != a || d != c ==> EntryOf(shapes[d], d, b);
      }
    }
    AddBlockLists(shapes, c, a);
    hide Layout, Lists, Chain16, ChainBig, Client;
  }

  lemma AddBlockLists(shapes: seq<Shape>, c: nat, a: nat)
    requires Lists(shapes) && c < CLASSES && a !in shapes[c].blocks
    ensures Lists(WithBlock(shapes, c, a)) && Client(WithBlock(shapes, c, a), c, a)
  {
    var shapes' := WithBlock(shapes, c, a);
    assert forall d :: 0 <= d < CLASSES ==> shapes'[d].free == shapes[d].free && shapes'[d].nodes == shapes[d].nodes;
    forall d | 0 <= d < CLASSES ensures ListOk(shapes[d].free, shapes'[d].blocks) {
      assert ListOk(shapes[d].free, shapes[d].blocks);
    }
    forall d | 0 <= d < CLASSES ensures ListOk(shapes[d].nodes, shapes'[0].blocks) && a !in shapes'[0].nodes {
      assert ListOk(shapes[d].nodes, shapes[0].blocks);
    }
    assert c == 0 ==> forall d :: 0 <= d < CLASSES ==> a !in shapes[d].nodes by {
      if c == 0 {
        forall d | 0 <= d < CLASSES ensures a !in shapes[d].nodes { assert ListOk(shapes[d].nodes, shapes[0].blocks); }
      }
    }
    assert a !in shapes[c].free by { assert ListOk(shapes[c].free, shapes[c].blocks); }
    hide ListOk;
  }

  function WithPage(shapes: seq<Shape>, c: nat, p: nat): seq<Shape>
    requires c < |shapes|
  {
    shapes[c := shapes[c].(pages := shapes[c].pages + {p})]
  }

  lemma AddPage(mem: Memory, caches: seq<Cache>, shapes: seq<Shape>, c: nat, p: nat)
    requires Inv(mem, caches, shapes) && c < CLASSES && forall d :: 0 <= d < CLASSES ==> p !in shapes[d].pages
    ensures Inv(mem, caches, WithPage(shapes, c, p))
  {
    var shapes' := WithPage(shapes, c, p);
    assert Layout(shapes') by {
      forall d, b | 0 <= d < CLASSES && b in shapes'[d].blocks ensures EntryOf(shapes'[d], d, b) {
        assert EntryOf(shapes[d], d, b);
      }
    }
    AddPageLists(shapes, c, p);
    hide Layout, Lists, Chain16, ChainBig;
  }

  lemma AddPageLists(shapes: seq<Shape>, c: nat, p: nat)
    requires Lists(shapes) && c < CLASSES
    ensures Lists(WithPage(shapes, c, p))
  {
    var shapes' := WithPage(shapes, c, p);
    assert forall d :: 0 <= d < CLASSES ==>
      shapes'[d].free == shapes[d].free && shapes'[d].nodes == shapes[d].nodes && shapes'[d].blocks == shapes[d].blocks;
    hide ListOk;
  }

  /** Whatever happens inside a client's block leaves the lists alone. */
  lemma ClientWrites(mem: Memory, mem': Memory, caches: seq<Cache>, shapes: seq<Shape>, c: nat, a: nat)
    requires Inv(mem, caches, shapes) && c < CLASSES && Client(shapes, c, a)
    requires forall w: nat :: !(a <= w < a + BlockSize(c)) ==> Word(mem', w) == Word(mem, w)
    ensures Inv(mem', caches, shapes)
  {
    hide Layout, Lists, Chain16, ChainBig, BlockSize, Client;
    forall i | 0 <= i < |shapes[0].free|
      ensures Word(mem', shapes[0].free[i] + 16) == Word(mem, shapes[0].free[i] + 16) {
      LinkOutside(shapes, c, a, i);
    }
    Chain16Frame(mem, mem', caches[0].freePtr, shapes[0].free);
    forall d | 1 <= d < CLASSES ensures ChainBig(mem', caches[d].freePtr, shapes[d].nodes, shapes[d].free) {
      forall i | 0 <= i < |shapes[d].nodes|
        ensures Word(mem', shapes[d].nodes[i]) == Word(mem, shapes[d].nodes[i])
        ensures Word(mem', shapes[d].nodes[i] + 8) == Word(mem, shapes[d].nodes[i] + 8)
      {
        NodeOutside(shapes, c, a, d, i);
      }
      ChainBigFrame(mem, mem', caches[d].freePtr, shapes[d].nodes, shapes[d].free);
    }
  }

  /** A client's block and an entry of the first class: different, or in different pages. */
  lemma Outside(shapes: seq<Shape>, c: nat, a: nat, b: nat, k: nat)
    requires Layout(shapes) && c < CLASSES && a in shapes[c].blocks && b in shapes[0].blocks && k < 32
    requires c == 0 ==> a != b
    ensures !(a <= b + k < a + BlockSize(c))
  {
    assert EntryOf(shapes[c], c, a) && EntryOf(shapes[0], 0, b);
    EntryInPage(0, b, k);
    assert c > 0 ==> shapes[0].pages !! shapes[c].pages;
    if c == 0 {
      EntriesApart(0, a, b);
      EntrySizes();
    } else if a <= b + k < a + BlockSize(c) {
      EntryInPage(c, a, b + k - a);
    }
    hide Layout;
  }

  lemma LinkOutside(shapes: seq<Shape>, c: nat, a: nat, i: nat)
    requires Layout(shapes) && Lists(shapes) && c < CLASSES && Client(shapes, c, a) && i < |shapes[0].free|
    ensures !(a <= shapes[0].free[i] + 16 < a + BlockSize(c))
  {
    hide Layout, BlockSize;
    assert ListOk(shapes[0].free, shapes[0].blocks) && shapes[0].free[i] in shapes[0].free;
    Outside(shapes, c, a, shapes[0].free[i], 16);
  }

  lemma NodeOutside(shapes: seq<Shape>, c: nat, a: nat, d: nat, i: nat)
    requires Layout(shapes) && Lists(shapes) && c < CLASSES && Client(shapes, c, a) && d < CLASSES
    requires i < |shapes[d].nodes|
    ensures !(a <= shapes[d].nodes[i] < a + BlockSize(c)) && !(a <= shapes[d].nodes[i] + 8 < a + BlockSize(c))
  {
    hide Layout, BlockSize;
    assert ListOk(shapes[d].nodes, shapes[0].blocks) && shapes[d].nodes[i] in shapes[d].nodes;
    Outside(shapes, c, a, shapes[d].nodes[i], 0);
    Outside(shapes, c, a, shapes[d].nodes[i], 8);
  }

  /** Blocks in use do not overlap, whatever their classes. */
  lemma BlocksApart(shapes: seq<Shape>, c: nat, a: nat, d: nat, b: nat)
    requires Layout(shapes) && c < CLASSES && d < CLASSES && a in shapes[c].blocks && b in shapes[d].blocks
    requires c != d || a != b
    ensures a + BlockSize(c) <= b || b + BlockSize(d) <= a
  {
    assert EntryOf(shapes[c], c, a) && EntryOf(shapes[d], d, b);
    if c == d {
      EntriesApart(c, a, b);
    } else {
      assert shapes[if c < d then c else d].pages !! shapes[if c < d then d else c].pages;
      if a <= b < a + BlockSize(c) { EntryInPage(c, a, b - a); }
      if b <= a < b + BlockSize(d) { EntryInPage(d, b, a - b); }
    }
    EntrySizes();
    hide Layout;
  }

  // ---- who holds what ----

  ghost predicate SameClients(shapes: seq<Shape>, shapes': seq<Shape>) {
    forall d, b :: Client(shapes', d, b) <==> Client(shapes, d, b)
  }

  /** The clients hold one block more. */
  ghost predicate OneMore(shapes: seq<Shape>, shapes': seq<Shape>, c: nat, a: nat) {
    && !Client(shapes, c, a)
    && forall d, b :: Client(shapes', d, b) <==> Client(shapes, d, b) || (d == c && b == a)
  }

  // ---- what is written ----

  /** The word is in a client's block, or in a page that a client holds. */
  ghost predicate ClientsWord(shapes: seq<Shape>, direct: set<nat>, w: nat) {
    w / P.PAGE_SIZE in direct || exists c: nat, b: nat :: InBlock(shapes, c, b, w)
  }

  ghost predicate InBlock(shapes: seq<Shape>, c: nat, b: nat, w: nat) {
    Client(shapes, c, b) && b <= w < b + BlockSize(c)
  }

  /** What clients hold is as it was. */
  ghost predicate Kept(shapes: seq<Shape>, direct: set<nat>, was: Memory, now: Memory) {
    forall w: nat :: ClientsWord(shapes, direct, w) ==> Word(now, w) == Word(was, w)
  }

  lemma KeptThen(shapes: seq<Shape>, shapes': seq<Shape>, direct: set<nat>, m0: Memory, m1: Memory, m2: Memory)
    requires Kept(shapes, direct, m0, m1) && Kept(shapes', direct, m1, m2)
    requires forall c, b :: Client(shapes, c, b) ==> Client(shapes', c, b)
    ensures Kept(shapes, direct, m0, m2)
  {
    hide Client, Word;
    forall w: nat | ClientsWord(shapes, direct, w) ensures ClientsWord(shapes', direct, w) {
      if w / P.PAGE_SIZE !in direct {
        var c: nat, b: nat :| InBlock(shapes, c, b, w);
        assert InBlock(shapes', c, b, w);
      }
    }
  }

  /** Places inside a 16-byte entry that are no client's: the link behind its bytes, or anything if
      no client holds it. */
  lemma EntryIsNobodys(shapes: seq<Shape>, direct: set<nat>, a: nat, k: nat)
    requires Layout(shapes) && a in shapes[0].blocks && k < 32 && shapes[0].pages !! direct
    requires Client(shapes, 0, a) ==> k >= 16
    ensures !ClientsWord(shapes, direct, a + k)
  {
    assert EntryOf(shapes[0], 0, a);
    EntryInPage(0, a, k);
    FirstBlock();
    hide Layout, BlockSize, EntrySize;
    var w := a + k;
    forall c: nat, b: nat ensures !InBlock(shapes, c, b, w) {
      if Client(shapes, c, b) && (c != 0 || b != a) { Outside(shapes, c, b, a, k); }
    }
  }

  lemma FirstBlock()
    ensures BlockSize(0) == 16
  {
    assert B.Pow2(0) == 1;
  }

  /** Whatever is written where only clients are leaves the lists alone. */
  lemma HeldWrites(mem: Memory, mem': Memory, caches: seq<Cache>, shapes: seq<Shape>, direct: set<nat>)
    requires Inv(mem, caches, shapes) && shapes[0].pages !! direct
    requires forall w: nat :: !ClientsWord(shapes, direct, w) ==> Word(mem', w) == Word(mem, w)
    ensures Inv(mem', caches, shapes)
  {
    hide Layout, Lists, Chain16, ChainBig, Client, ClientsWord;
    forall i | 0 <= i < |shapes[0].free|
      ensures Word(mem', shapes[0].free[i] + 16) == Word(mem, shapes[0].free[i] + 16)
    {
      FreeIsBlock(shapes, i);
      EntryIsNobodys(shapes, direct, shapes[0].free[i], 16);
    }
    Chain16Frame(mem, mem', caches[0].freePtr, shapes[0].free);
    forall d | 1 <= d < CLASSES ensures ChainBig(mem', caches[d].freePtr, shapes[d].nodes, shapes[d].free) {
      forall i | 0 <= i < |shapes[d].nodes|
        ensures Word(mem', shapes[d].nodes[i]) == Word(mem, shapes[d].nodes[i])
        ensures Word(mem', shapes[d].nodes[i] + 8) == Word(mem, shapes[d].nodes[i] + 8)
      {
        NodeIsBlock(shapes, d, i);
        EntryIsNobodys(shapes, direct, shapes[d].nodes[i], 0);
        EntryIsNobodys(shapes, direct, shapes[d].nodes[i], 8);
      }
      ChainBigFrame(mem, mem', caches[d].freePtr, shapes[d].nodes, shapes[d].free);
    }
  }

  lemma FreeIsBlock(shapes: seq<Shape>, i: nat)
    requires Lists(shapes) && i < |shapes[0].free|
    ensures shapes[0].free[i] in shapes[0].blocks
  {
    assert ListOk(shapes[0].free, shapes[0].blocks);
  }

  lemma NodeIsBlock(shapes: seq<Shape>, d: nat, i: nat)
    requires Lists(shapes) && d < CLASSES && i < |shapes[d].nodes|
    ensures shapes[d].nodes[i] in shapes[0].blocks && !Client(shapes, 0, shapes[d].nodes[i])
  {
    assert ListOk(shapes[d].nodes, shapes[0].blocks);
    assert shapes[d].nodes[i] in shapes[d].nodes;
  }

  lemma OneWrite(shapes: seq<Shape>, direct: set<nat>, mem: Memory, w: nat, v: nat)
    requires !ClientsWord(shapes, direct, w)
    ensures Kept(shapes, direct, mem, mem[w := v])
  {
    hide ClientsWord;
  }

  lemma EntryWrite(shapes: seq<Shape>, direct: set<nat>, mem: Memory, a: nat, v: nat)
    requires Layout(shapes) && a in shapes[0].blocks && shapes[0].pages !! direct
    ensures Kept(shapes, direct, mem, mem[a + 16 := v])
  {
    hide Layout, Client;
    EntryIsNobodys(shapes, direct, a, 16);
    OneWrite(shapes, direct, mem, a + 16, v);
  }

  /** A new node is written inside its 16 bytes, which were nobody's. */
  lemma NodeWrite(shapes: seq<Shape>, shapes': seq<Shape>, direct: set<nat>, mem: Memory, a: nat, v: nat, u: nat)
    requires Layout(shapes') && a in shapes'[0].blocks && shapes'[0].pages !! direct && OneMore(shapes, shapes', 0, a)
    ensures Kept(shapes, direct, mem, mem[a + 8 := v][a := u])
  {
    NodeIsNew(shapes, shapes', direct, a, 0);
    NodeIsNew(shapes, shapes', direct, a, 8);
    hide ClientsWord, Layout, OneMore;
  }

  lemma NodeIsNew(shapes: seq<Shape>, shapes': seq<Shape>, direct: set<nat>, a: nat, k: nat)
    requires Layout(shapes') && a in shapes'[0].blocks && shapes'[0].pages !! direct && k < 16
    requires OneMore(shapes, shapes', 0, a)
    ensures !ClientsWord(shapes, direct, a + k)
  {
    assert EntryOf(shapes'[0], 0, a);
    EntryInPage(0, a, k);
    hide Layout, BlockSize, EntrySize;
    var w := a + k;
    forall c: nat, b: nat ensures !InBlock(shapes, c, b, w) {
      if Client(shapes, c, b) {
        assert Client(shapes', c, b) && (c != 0 || b != a);
        Outside(shapes', c, b, a, k);
      }
    }
  }

  lemma Push16Client(shapes: seq<Shape>, a: nat)
    requires Lists(shapes) && Client(shapes, 0, a)
    ensures OneMore(WithFree(shapes, 0, [a] + shapes[0].free), shapes, 0, a)
  {
    var shapes' := WithFree(shapes, 0, [a] + shapes[0].free);
    assert forall b :: IsNode(shapes', b) <==> IsNode(shapes, b) by { SameNodes(shapes, shapes'); }
    hide IsNode;
  }

  lemma SameNodes(shapes: seq<Shape>, shapes': seq<Shape>)
    requires |shapes'| == |shapes| && forall c :: 0 <= c < |shapes| ==> shapes'[c].nodes == shapes[c].nodes
    ensures forall b :: IsNode(shapes', b) <==> IsNode(shapes, b)
  {
  }

  lemma Pop16Client(shapes: seq<Shape>)
    requires Lists(shapes) && shapes[0].free != []
    ensures OneMore(shapes, WithFree(shapes, 0, shapes[0].free[1..]), 0, shapes[0].free[0])
  {
    var free := shapes[0].free;
    var shapes' := WithFree(shapes, 0, free[1..]);
    Pop16Lists(shapes);
    hide Lists;
    SameNodes(shapes, shapes');
    assert forall b :: b in free <==> b == free[0] || b in free[1..];
    hide IsNode;
  }

  lemma PushBigClient(shapes: seq<Shape>, c: nat, node: nat, a: nat)
    requires Lists(shapes) && 1 <= c < CLASSES && Client(shapes, 0, node) && Client(shapes, c, a)
    ensures var shapes' := WithList(shapes, c, [node] + shapes[c].nodes, [a] + shapes[c].free);
      && !Client(shapes', 0, node) && !Client(shapes', c, a)
      && forall d, b :: Client(shapes, d, b) <==> Client(shapes', d, b) || (d == 0 && b == node) || (d == c && b == a)
  {
    var shapes' := WithList(shapes, c, [node] + shapes[c].nodes, [a] + shapes[c].free);
    MoreNodes(shapes, c, node, [a] + shapes[c].free);
    hide IsNode;
  }

  lemma MoreNodes(shapes: seq<Shape>, c: nat, node: nat, free: seq<nat>)
    requires c < |shapes|
    ensures forall b :: IsNode(WithList(shapes, c, [node] + shapes[c].nodes, free), b) <==>
      IsNode(shapes, b) || b == node
  {
    var shapes' := WithList(shapes, c, [node] + shapes[c].nodes, free);
    forall b ensures IsNode(shapes', b) <==> IsNode(shapes, b) || b == node {
      if IsNode(shapes, b) {
        var d :| 0 <= d < |shapes| && b in shapes[d].nodes;
        assert b in shapes'[d].nodes;
      }
      if IsNode(shapes', b) {
        var d :| 0 <= d < |shapes| && b in shapes'[d].nodes;
        assert b == node || b in shapes[d].nodes;
      }
      assert node in shapes'[c].nodes;
    }
  }

  lemma PopBigClient(shapes: seq<Shape>, c: nat)
    requires Lists(shapes) && 1 <= c < CLASSES && shapes[c].nodes != [] && shapes[c].free != []
    ensures var shapes' := WithList(shapes, c, shapes[c].nodes[1..], shapes[c].free[1..]);
      && !Client(shapes, 0, shapes[c].nodes[0]) && !Client(shapes, c, shapes[c].free[0])
      && forall d, b :: Client(shapes', d, b) <==>
           Client(shapes, d, b) || (d == 0 && b == shapes[c].nodes[0]) || (d == c && b == shapes[c].free[0])
  {
    var node, a := shapes[c].nodes[0], shapes[c].free[0];
    var shapes' := WithList(shapes, c, shapes[c].nodes[1..], shapes[c].free[1..]);
    PopBigLists(shapes, c);
    PushBigClientOn(shapes, shapes', c, node, a);
  }

  lemma PushBigClientOn(shapes: seq<Shape>, shapes': seq<Shape>, c: nat, node: nat, a: nat)
    requires Lists(shapes') && 1 <= c < CLASSES && |shapes| == CLASSES && shapes[c].nodes != [] && shapes[c].free != []
    requires shapes' == WithList(shapes, c, shapes[c].nodes[1..], shapes[c].free[1..])
    requires node == shapes[c].nodes[0] && a == shapes[c].free[0] && Client(shapes', 0, node) && Client(shapes', c, a)
    ensures && !Client(shapes, 0, node) && !Client(shapes, c, a)
      && forall d, b :: Client(shapes', d, b) <==> Client(shapes, d, b) || (d == 0 && b == node) || (d == c && b == a)
  {
    PushBigClient(shapes', c, node, a);
    assert [node] + shapes'[c].nodes == shapes[c].nodes && [a] + shapes'[c].free == shapes[c].free;
    assert shapes == WithList(shapes', c, [node] + shapes'[c].nodes, [a] + shapes'[c].free);
  }

  lemma AddBlockClient(shapes: seq<Shape>, c: nat, a: nat)
    requires Lists(shapes) && c < CLASSES && a !in shapes[c].blocks
    ensures OneMore(shapes, WithBlock(shapes, c, a), c, a)
  {
    var shapes' := WithBlock(shapes, c, a);
    AddBlockLists(shapes, c, a);
    hide Lists;
    SameNodes(shapes, shapes');
    hide IsNode;
  }

  lemma AddPageClient(shapes: seq<Shape>, c: nat, p: nat)
    requires c < |shapes|
    ensures SameClients(shapes, WithPage(shapes, c, p))
  {
    SameNodes(shapes, WithPage(shapes, c, p));
    hide IsNode;
  }

  // ---- the counters ----

  ghost predicate Totals(caches: seq<Cache>, shapes: seq<Shape>) {
    && |caches| == |shapes| == CLASSES
    && forall c :: 0 <= c < CLASSES ==> caches[c].totalCount == |shapes[c].blocks|
  }

  function Elements(s: seq<nat>): set<nat> { if s == [] then {} else Elements(s[1..]) + {s[0]} }

  lemma {:induction false} ElementsOf(s: seq<nat>)
    ensures forall x :: x in Elements(s) <==> x in s
    ensures NoDup(s) ==> |Elements(s)| == |s|
  {
    if s != [] {
      assert forall i :: 0 <= i < |s[1..]| ==> s[1..][i] == s[i + 1];
      ElementsOf(s[1..]);
      assert forall x :: x in s <==> x == s[0] || x in s[1..];
    }
  }

  /** Blocks of the class that are not on its free list. */
  function InUse(s: Shape): set<nat> { s.blocks - Elements(s.free) }

  /** In every class, total is free plus in use. */
  lemma TotalIsFreePlusUsed(mem: Memory, caches: seq<Cache>, shapes: seq<Shape>, c: nat)
    requires Inv(mem, caches, shapes) && Totals(caches, shapes) && c < CLASSES
    ensures caches[c].totalCount == caches[c].freeCount + |InUse(shapes[c])|
    ensures forall a :: a in InUse(shapes[c]) <==> a in shapes[c].blocks && a !in shapes[c].free
  {
    var s := shapes[c];
    assert ListOk(s.free, s.blocks);
    ElementsOf(s.free);
    assert Elements(s.free) <= s.blocks;
    assert s.blocks * Elements(s.free) == Elements(s.free);
    hide Layout, Lists, Linked;
  }

  /** Nodes of the classes from `c` on. */
  function Nodes(shapes: seq<Shape>, c: nat): set<nat>
    requires c <= |shapes|
    decreases |shapes| - c
  {
    if c == |shapes| then {} else Nodes(shapes, c + 1) + Elements(shapes[c].nodes)
  }

  function FreeFrom(caches: seq<Cache>, c: nat): nat
    requires c <= |caches|
    decreases |caches| - c
  {
    if c == |caches| then 0 else FreeFrom(caches, c + 1) + caches[c].freeCount
  }

  lemma {:induction false} NodesCount(mem: Memory, caches: seq<Cache>, shapes: seq<Shape>, c: nat)
    requires Inv(mem, caches, shapes) && 1 <= c <= CLASSES
    ensures |Nodes(shapes, c)| == FreeFrom(caches, c)
    ensures forall a :: a in Nodes(shapes, c) <==> exists d :: c <= d < CLASSES && a in shapes[d].nodes
    decreases CLASSES - c
  {
    if c < CLASSES {
      NodesCount(mem, caches, shapes, c + 1);
      ElementsOf(shapes[c].nodes);
      assert ListOk(shapes[c].nodes, shapes[0].blocks);
      ChainBigLength(mem, caches[c].freePtr, shapes[c].nodes, shapes[c].free);
      assert Nodes(shapes, c + 1) !! Elements(shapes[c].nodes);
      assert Nodes(shapes, c + 1) * Elements(shapes[c].nodes) == {};
    }
    hide Layout, Chain16, ChainBig, ListOk;
  }

  /** In the 16-byte class, what is in use is what clients hold plus one node for every free
      block of the larger classes. */
  lemma SixteenByteUse(mem: Memory, caches: seq<Cache>, shapes: seq<Shape>, clients: set<nat>)
    requires Inv(mem, caches, shapes) && Totals(caches, shapes)
    requires forall a :: a in clients <==> Client(shapes, 0, a)
    ensures caches[0].totalCount == caches[0].freeCount + |clients| + FreeFrom(caches, 1)
  {
    TotalIsFreePlusUsed(mem, caches, shapes, 0);
    NodesCount(mem, caches, shapes, 1);
    var nodes := Nodes(shapes, 1);
    NodesInUse(shapes, nodes);
    hide Layout, Lists, Linked, Nodes, FreeFrom, InUse;
    assert InUse(shapes[0]) == clients + nodes;
    assert clients * nodes == {};
  }

  lemma NodesInUse(shapes: seq<Shape>, nodes: set<nat>)
    requires Lists(shapes) && forall a :: a in nodes <==> exists d :: 1 <= d < CLASSES && a in shapes[d].nodes
    ensures forall a :: a in nodes <==> IsNode(shapes, a)
    ensures forall a :: a in nodes ==> a in shapes[0].blocks && a !in shapes[0].free
  {
    forall a | a in nodes ensures a in shapes[0].blocks && a !in shapes[0].free {
      var d :| 1 <= d < CLASSES && a in shapes[d].nodes;
      var i :| 0 <= i < |shapes[d].nodes| && shapes[d].nodes[i] == a;
      assert ListOk(shapes[d].nodes, shapes[0].blocks);
    }
    forall a | IsNode(shapes, a) ensures a in nodes {
      var d :| 0 <= d < |shapes| && a in shapes[d].nodes;
    }
    hide ListOk;
  }
}

/** `zalloc` and `zfree`: the slab caches on top of the page allocator, run sequentially.
    Virtual and physical addresses coincide. */
module MemoryManager {
  import opened Wrappers
  import opened Slab
  import P = Pages
  import B = Bits

  /** Running out of memory for a list node is a panic; nothing is promised then. */
  datatype Outcome<T> = Done(value: T) | OutOfMemory | Unsupported | Panic

  /** Slab pages and pages given to clients are live and apart. */
  ghost predicate Housed(shapes: seq<Shape>, direct: set<nat>, live: set<nat>) {
    && |shapes| == CLASSES && direct <= live
    && forall c :: 0 <= c < CLASSES ==> shapes[c].pages <= live && shapes[c].pages !! direct
  }

  /** Totals count the blocks, but for `owed[c]` new ones in class `c`. */
  ghost predicate Balanced(caches: seq<Cache>, shapes: seq<Shape>, owed: seq<nat>) {
    && |caches| == |shapes| == |owed| == CLASSES
    && forall d :: 0 <= d < CLASSES ==> caches[d].totalCount + owed[d] == |shapes[d].blocks|
  }

  /** No free region is `n` pages long. */
  predicate NoRoom(list: seq<nat>, n: nat) { forall i :: 0 <= i < |list| ==> P.Size(list[i]) < n }

  const NOTHING_OWED: seq<nat> := [0, 0, 0, 0, 0, 0, 0, 0]

  ghost predicate BlocksSame(was: seq<Shape>, now: seq<Shape>, first: nat) {
    && |was| == |now| == CLASSES
    && forall d :: first <= d < CLASSES ==> now[d].blocks == was[d].blocks && now[d].pages == was[d].pages
  }

  /** The larger classes are as they were. */
  ghost predicate HigherSame(was: seq<Cache>, now: seq<Cache>, shapesWas: seq<Shape>, shapesNow: seq<Shape>) {
    && |was| == |now| == |shapesWas| == |shapesNow| == CLASSES
    && forall d :: 1 <= d < CLASSES ==> now[d] == was[d] && shapesNow[d] == shapesWas[d]
  }

  lemma Parts(mem: Memory, caches: seq<Cache>, shapes: seq<Shape>)
    requires Inv(mem, caches, shapes)
    ensures Lists(shapes) && Layout(shapes) && |caches| == |shapes| == CLASSES
  {
  }

  // ---- filling a page ----

  /** Every block of class `c` in the page at `base` is below `limit`. */
  ghost predicate Filled(shapes: seq<Shape>, c: nat, base: nat, limit: nat) {
    && c < |shapes| && base > 0 && base % P.PAGE_SIZE == 0 && base / P.PAGE_SIZE in shapes[c].pages
    && forall a :: a in shapes[c].blocks && a / P.PAGE_SIZE == base / P.PAGE_SIZE ==> a < limit
  }

  lemma EntryNumber(c: nat, base: nat, i: nat)
    requires c < CLASSES && EntrySize(c) > 0 && base % P.PAGE_SIZE == 0 && i < P.PAGE_SIZE / EntrySize(c)
    ensures (base + i * EntrySize(c)) % EntrySize(c) == 0
    ensures (base + i * EntrySize(c)) / P.PAGE_SIZE == base / P.PAGE_SIZE
  {
    EntriesPerPage(c);
    var e, n, p := EntrySize(c), P.PAGE_SIZE / EntrySize(c), base / P.PAGE_SIZE;
    hide EntrySize;
    StepInPage(e, n, p, i, 0);
    assert base + i * e == P.PAGE_SIZE * p + e * i + 0;
    assert P.PAGE_SIZE * p + e * i == e * (n * p + i) by {
      assert e * (n * p + i) == (e * n) * p + e * i;
    }
    B.ModUnique(base + i * e, e, n * p + i, 0);
  }

  lemma NextEntry(mem: Memory, caches: seq<Cache>, shapes: seq<Shape>, c: nat, base: nat, i: nat)
    requires Inv(mem, caches, shapes) && c < CLASSES && EntrySize(c) > 0 && i < P.PAGE_SIZE / EntrySize(c)
    requires Filled(shapes, c, base, base + i * EntrySize(c))
    ensures var a := base + i * EntrySize(c); var shapes' := WithBlock(shapes, c, a);
      && a !in shapes[c].blocks && Inv(mem, caches, shapes') && OneMore(shapes, shapes', c, a)
      && Filled(shapes', c, base, base + (i + 1) * EntrySize(c))
  {
    hide Inv, OneMore;
    EntryNumber(c, base, i);
    var a := base + i * EntrySize(c);
    assert base + (i + 1) * EntrySize(c) == a + EntrySize(c);
    hide EntrySize;
    Parts(mem, caches, shapes);
    AddBlock(mem, caches, shapes, c, a);
    AddBlockClient(shapes, c, a);
  }

  lemma EmptyPage(mem: Memory, caches: seq<Cache>, shapes: seq<Shape>, c: nat, base: nat)
    requires Inv(mem, caches, shapes) && c < CLASSES && base > 0 && base % P.PAGE_SIZE == 0
    requires forall d :: 0 <= d < CLASSES ==> base / P.PAGE_SIZE !in shapes[d].pages
    ensures var shapes' := WithPage(shapes, c, base / P.PAGE_SIZE);
      && Inv(mem, caches, shapes') && SameClients(shapes, shapes') && Filled(shapes', c, base, base)
  {
    hide Inv, Client;
    Parts(mem, caches, shapes);
    forall a | a in shapes[c].blocks ensures a / P.PAGE_SIZE != base / P.PAGE_SIZE {
      assert EntryOf(shapes[c], c, a);
    }
    AddPage(mem, caches, shapes, c, base / P.PAGE_SIZE);
    AddPageClient(shapes, c, base / P.PAGE_SIZE);
    hide EntrySize;
  }

  lemma OnePage(p: nat)
    ensures P.PagesFor(P.PAGE_SIZE) == 1 && P.Span(p, P.PagesFor(P.PAGE_SIZE)) == {p}
  {
    assert P.Span(p, 0) == {};
  }

  lemma CountedUp(mem: Memory, caches: seq<Cache>, shapes: seq<Shape>, c: nat, n: nat, owed: seq<nat>)
    requires Inv(mem, caches, shapes) && c < CLASSES && |owed| == CLASSES && Balanced(caches, shapes, owed[c := n])
    requires owed[c] == 0
    ensures var caches' := caches[c := caches[c].(totalCount := caches[c].totalCount + n)];
      Inv(mem, caches', shapes) && Balanced(caches', shapes, owed)
  {
    hide Lists, Layout, Chain16, ChainBig;
  }

  const FILL: nat := 0xCCCC_CCCC_CCCC_CCCC

  ghost predicate Poisoned(was: Memory, now: Memory, a: nat, size: nat) {
    forall w: nat :: Word(now, w) == if a <= w < a + size then FILL else Word(was, w)
  }

  /** `write_bytes`. */
  function Overwritten(m: Memory, a: nat, size: nat): Memory {
    if size == 0 then m else Overwritten(m, a, size - 1)[a + size - 1 := FILL]
  }

  lemma {:induction false} OverwrittenIs(m: Memory, a: nat, size: nat)
    ensures Poisoned(m, Overwritten(m, a, size), a, size)
  {
    if size > 0 {
      OverwrittenIs(m, a, size - 1);
      var less := Overwritten(m, a, size - 1);
      forall w: nat ensures Word(Overwritten(m, a, size), w) == if a <= w < a + size then FILL else Word(m, w) {
        assert Word(less, w) == if a <= w < a + size - 1 then FILL else Word(m, w);
      }
    }
  }

  lemma KeptSame(shapes: seq<Shape>, direct: set<nat>, m: Memory)
    ensures Kept(shapes, direct, m, m)
  {
    hide ClientsWord;
  }

  /** Writing anywhere in a 16-byte entry that no client holds. */
  lemma KeptBeside(shapes: seq<Shape>, direct: set<nat>, was: Memory, now: Memory, a: nat)
    requires Layout(shapes) && a in shapes[0].blocks && shapes[0].pages !! direct && !Client(shapes, 0, a)
    requires forall w: nat :: !(a <= w < a + 32) ==> Word(now, w) == Word(was, w)
    ensures Kept(shapes, direct, was, now)
  {
    hide Layout, Client, ClientsWord;
    forall w: nat | ClientsWord(shapes, direct, w) ensures !(a <= w < a + 32) {
      if a <= w < a + 32 { EntryIsNobodys(shapes, direct, a, w - a); }
    }
  }

  lemma PageWords(shapes: seq<Shape>, direct: set<nat>, base: nat, size: nat)
    requires base % P.PAGE_SIZE == 0 && P.Span(base / P.PAGE_SIZE, P.PagesFor(size)) <= direct
    ensures forall w: nat :: base <= w < base + size ==> ClientsWord(shapes, direct, w)
  {
    hide InBlock, P.Span;
    forall w: nat | base <= w < base + size ensures w / P.PAGE_SIZE in direct { InSpan(base, size, w); }
  }

  lemma InSpan(base: nat, size: nat, w: nat)
    requires base % P.PAGE_SIZE == 0
    ensures base <= w < base + size ==> w / P.PAGE_SIZE in P.Span(base / P.PAGE_SIZE, P.PagesFor(size))
  {
    P.SpanIs(base / P.PAGE_SIZE, P.PagesFor(size));
    hide P.Span;
    assert base <= w < base + size ==> P.Within(w / P.PAGE_SIZE, base / P.PAGE_SIZE, P.PagesFor(size));
  }

  /** A freed block has the fill byte all over, and what clients still hold is as it was. */
  lemma FreedKeeps(shapes: seq<Shape>, shapes': seq<Shape>, direct: set<nat>, c: nat, a: nat, size: nat,
                   m0: Memory, m1: Memory, m2: Memory)
    requires Layout(shapes) && c < CLASSES && Client(shapes, c, a) && OneMore(shapes', shapes, c, a)
    requires shapes[c].pages !! direct && size <= BlockSize(c)
    requires Poisoned(m0, m1, a, size) && Kept(shapes, direct, m1, m2)
    ensures Kept(shapes', direct, m0, m2)
    ensures forall w: nat :: a <= w < a + size ==> Word(m2, w) == FILL
  {
    hide Layout, Client, BlockSize, Word;
    BlockWords(shapes, direct, c, a, size);
    forall w: nat | ClientsWord(shapes', direct, w)
      ensures ClientsWord(shapes, direct, w) && !(a <= w < a + BlockSize(c))
    {
      OthersWord(shapes, shapes', direct, c, a, w);
    }
    hide ClientsWord;
  }

  lemma OthersWord(shapes: seq<Shape>, shapes': seq<Shape>, direct: set<nat>, c: nat, a: nat, w: nat)
    requires Layout(shapes) && c < CLASSES && Client(shapes, c, a) && OneMore(shapes', shapes, c, a)
    requires shapes[c].pages !! direct && ClientsWord(shapes', direct, w)
    ensures ClientsWord(shapes, direct, w) && !(a <= w < a + BlockSize(c))
  {
    hide BlockSize;
    if w / P.PAGE_SIZE in direct {
      if a <= w < a + BlockSize(c) { BlockInPage(shapes, c, a, w); }
    } else {
      var d: nat, b: nat :| InBlock(shapes', d, b, w);
      assert InBlock(shapes, d, b, w);
      BlocksApart(shapes, c, a, d, b);
    }
  }

  lemma BlockInPage(shapes: seq<Shape>, c: nat, a: nat, w: nat)
    requires Layout(shapes) && c < CLASSES && a in shapes[c].blocks && a <= w < a + BlockSize(c)
    ensures w / P.PAGE_SIZE in shapes[c].pages
  {
    assert EntryOf(shapes[c], c, a);
    FirstBlock();
    EntryInPage(c, a, w - a);
  }

  /** Freed pages are filled, and what clients still hold is as it was. */
  lemma PagesFreedKeep(shapes: seq<Shape>, direct: set<nat>, direct': set<nat>, base: nat, size: nat,
                       m0: Memory, m1: Memory)
    requires Layout(shapes) && base % P.PAGE_SIZE == 0 && forall c :: 0 <= c < CLASSES ==> shapes[c].pages !! direct
    requires P.Span(base / P.PAGE_SIZE, P.PagesFor(size)) <= direct
    requires direct' == direct - P.Span(base / P.PAGE_SIZE, P.PagesFor(size)) && Poisoned(m0, m1, base, size)
    ensures Kept(shapes, direct', m0, m1)
    ensures forall w: nat :: base <= w < base + size ==> Word(m1, w) == FILL
  {
    hide BlockSize, P.Span, Word, Layout;
    forall w: nat | ClientsWord(shapes, direct', w) ensures !(base <= w < base + size) {
      InSpan(base, size, w);
      if w / P.PAGE_SIZE !in direct' {
        var c: nat, b: nat :| InBlock(shapes, c, b, w);
        BlockPage(shapes, c, b, w);
      }
    }
  }

  lemma BlockPage(shapes: seq<Shape>, c: nat, b: nat, w: nat)
    requires Layout(shapes) && InBlock(shapes, c, b, w)
    ensures c < CLASSES && w / P.PAGE_SIZE in shapes[c].pages
  {
    BlockInPage(shapes, c, b, w);
  }

  lemma BlockWords(shapes: seq<Shape>, direct: set<nat>, c: nat, a: nat, size: nat)
    requires Client(shapes, c, a) && size <= BlockSize(c)
    ensures forall w: nat :: a <= w < a + size ==> ClientsWord(shapes, direct, w)
  {
    forall w: nat | a <= w < a + size ensures ClientsWord(shapes, direct, w) { assert InBlock(shapes, c, a, w); }
  }

  class MemoryManager {
    const pages: P.PageAllocator
    var mem: Memory
    var caches: seq<Cache>
    ghost var shapes: seq<Shape>
    /** Pages handed to clients as pages. */
    ghost var direct: set<nat>

    ghost predicate Good()
      reads this, pages
    {
      pages.Valid() && Inv(mem, caches, shapes) && Housed(shapes, direct, pages.live)
    }

    ghost predicate Valid()
      reads this, pages
    {
      Good() && Balanced(caches, shapes, NOTHING_OWED)
    }

    constructor (pages: P.PageAllocator)
      requires pages.Valid() && pages.live == {}
      ensures Valid() && this.pages == pages && direct == {} && forall c, a :: !Client(shapes, c, a)
    {
      this.pages := pages;
      mem := map[];
      caches := seq(CLASSES, _ => Cache(0, 0, 0));
      shapes := seq(CLASSES, _ => Shape({}, {}, [], []));
      direct := {};
    }

    ghost function Supply(): nat
      requires |caches| > 0
      reads this, pages
    {
      NodesLeft(caches, pages.list)
    }

    /** The caches with their length, which everything below indexes by. */
    lemma Lengths()
      requires Good()
      ensures |caches| == |shapes| == CLASSES
    {
      Parts(mem, caches, shapes);
    }

    /** No block can be had exactly if the free list is empty and no page is left. */
    lemma SupplyNone()
      requires Good()
      ensures |caches| == CLASSES
      ensures Supply() == 0 <==> caches[0].freePtr == 0 && NoRoom(pages.list, 1)
    {
      Lengths();
      FirstFree(mem, caches, shapes);
      NoneListed(pages.list);
      hide Inv, P.Conserved, P.Listed;
    }

    /** `SlabCache::free` of the 16-byte class. */
    method Free16(a: nat)
      requires Good() && Client(shapes, 0, a)
      modifies this`mem, this`caches, this`shapes
      ensures Good() && OneMore(shapes, old(shapes), 0, a) && BlocksSame(old(shapes), shapes, 0)
      ensures HigherSame(old(caches), caches, old(shapes), shapes)
      ensures caches[0].totalCount == old(caches)[0].totalCount && caches[0].freePtr == a != 0
      ensures caches[0].freeCount == old(caches)[0].freeCount + 1
      ensures Kept(old(shapes), direct, old(mem), mem)
      ensures forall w: nat :: w != a + 16 ==> Word(mem, w) == Word(old(mem), w)
    {
      hide Inv, Client, OneMore, Kept;
      Parts(mem, caches, shapes);
      ClientIsBlock(shapes, 0, a);
      EntryWrite(shapes, direct, mem, a, caches[0].freePtr);
      FirstClass16(shapes, a);
      Push16(mem, caches, shapes, a);
      Push16Client(shapes, a);
      mem := mem[a + 16 := caches[0].freePtr];
      caches := caches[0 := caches[0].(freePtr := a, freeCount := caches[0].freeCount + 1)];
      shapes := WithFree(shapes, 0, [a] + shapes[0].free);
    }

    /** A page for class `c`. */
    method TakePage(c: nat) returns (r: Option<nat>)
      requires Good() && c < CLASSES
      modifies this`shapes, pages
      ensures Good() && SameClients(old(shapes), shapes)
      ensures r.None? <==> NoRoom(old(pages.list), 1)
      ensures r.None? ==> shapes == old(shapes) && pages.list == old(pages.list)
      ensures r.Some? ==>
        shapes == WithPage(old(shapes), c, r.value / P.PAGE_SIZE) && Filled(shapes, c, r.value, r.value)
      ensures r.Some? ==> |P.Listed(pages.list)| == |P.Listed(old(pages.list))| - 1
    {
      hide Inv, Client, P.Conserved, P.Listed;
      OnePage(0);
      var page := pages.PgAlloc(P.PAGE_SIZE, P.PAGE_SIZE);
      if page.None? { return None; }
      OnePage(page.value / P.PAGE_SIZE);
      P.CardMinus(P.Listed(old(pages.list)), {page.value / P.PAGE_SIZE});
      EmptyPage(mem, caches, shapes, c, page.value);
      shapes := WithPage(shapes, c, page.value / P.PAGE_SIZE);
      return Some(page.value);
    }

    /** Fills a page with free 16-byte blocks. */
    method Expand16(ghost owed: seq<nat>) returns (ok: bool)
      requires Good() && Balanced(caches, shapes, owed) && owed[0] == 0
      modifies this`mem, this`caches, this`shapes, pages
      ensures Good() && Balanced(caches, shapes, owed) && SameClients(old(shapes), shapes)
      ensures HigherSame(old(caches), caches, old(shapes), shapes)
      ensures if ok then caches[0].freePtr != 0 else NoRoom(pages.list, 1)
      ensures !ok <==> NoRoom(old(pages.list), 1)
      ensures !ok ==> caches == old(caches) && pages.list == old(pages.list)
      ensures Supply() == old(Supply())
      ensures Kept(old(shapes), direct, old(mem), mem)
    {
      hide Inv, Client, P.Conserved, P.Listed, Filled, Kept;
      KeptSame(shapes, direct, mem);
      EntrySizes();
      hide EntrySize;
      var entries := P.PAGE_SIZE / 32;
      var blob := TakePage(0);
      if blob.None? { return false; }
      for i := 0 to entries
        invariant Good() && SameClients(old(shapes), shapes)
        invariant HigherSame(old(caches), caches, old(shapes), shapes)
        invariant Balanced(caches, shapes, owed[0 := i]) && Filled(shapes, 0, blob.value, blob.value + i * EntrySize(0))
        invariant i > 0 ==> caches[0].freePtr != 0
        invariant Supply() == old(Supply()) - 128 + i
        invariant Kept(old(shapes), direct, old(mem), mem)
      {
        ghost var was := mem;
        var a := blob.value + i * 32;
        NextEntry(mem, caches, shapes, 0, blob.value, i);
        shapes := WithBlock(shapes, 0, a);
        ghost var with := shapes;
        Free16(a);
        FilledSame(with, shapes, 0, blob.value, blob.value + (i + 1) * EntrySize(0));
        KeptThen(old(shapes), with, direct, old(mem), was, mem);
      }
      CountedUp(mem, caches, shapes, 0, entries, owed);
      caches := caches[0 := caches[0].(totalCount := caches[0].totalCount + entries)];
      return true;
    }

    /** `SlabCache::alloc` of the 16-byte class. */
    method Alloc16(ghost owed: seq<nat>) returns (r: Option<nat>)
      requires Good() && Balanced(caches, shapes, owed) && owed[0] == 0
      modifies this`mem, this`caches, this`shapes, pages
      ensures Good() && Balanced(caches, shapes, owed) && HigherSame(old(caches), caches, old(shapes), shapes)
      ensures r.Some? ==> OneMore(old(shapes), shapes, 0, r.value)
      ensures r.None? ==> SameClients(old(shapes), shapes) && NoRoom(pages.list, 1) && old(caches)[0].freePtr == 0
      ensures r.None? <==> old(Supply()) == 0
      ensures r.Some? ==> Supply() == old(Supply()) - 1
      ensures Kept(old(shapes), direct, old(mem), mem)
    {
      hide Inv, Client, P.Conserved, P.Listed, Kept;
      KeptSame(shapes, direct, mem);
      while caches[0].freePtr == 0
        invariant Good() && Balanced(caches, shapes, owed) && HigherSame(old(caches), caches, old(shapes), shapes)
        invariant SameClients(old(shapes), shapes) && (old(caches)[0].freePtr != 0 ==> caches == old(caches))
        invariant Supply() == old(Supply()) && Kept(old(shapes), direct, old(mem), mem)
        decreases if caches[0].freePtr == 0 then 1 else 0
      {
        SupplyNone();
        ghost var was, held := mem, shapes;
        var ok := Expand16(owed);
        KeptThen(old(shapes), held, direct, old(mem), was, mem);
        if !ok { return None; }
      }
      var a := caches[0].freePtr;
      Parts(mem, caches, shapes);
      Pop16(mem, caches, shapes);
      Pop16Client(shapes);
      PoppedIs16(mem, caches, shapes);
      caches := caches[0 := caches[0].(freePtr := Word(mem, a + 16), freeCount := caches[0].freeCount - 1)];
      shapes := WithFree(shapes, 0, shapes[0].free[1..]);
      return Some(a);
    }

    /** `SlabCache::free` of a larger class; false is the panic. */
    method FreeBig(c: nat, a: nat, ghost owed: seq<nat>) returns (ok: bool)
      requires Good() && 1 <= c < CLASSES && Client(shapes, c, a) && Balanced(caches, shapes, owed) && owed[0] == 0
      modifies this`mem, this`caches, this`shapes, pages
      ensures ok ==> Good() && Balanced(caches, shapes, owed) && OneMore(shapes, old(shapes), c, a)
      ensures ok ==> BlocksSame(old(shapes), shapes, 1) && caches[c].freePtr != 0
      ensures !ok ==> NoRoom(pages.list, 1)
      ensures ok <==> old(Supply()) > 0
      ensures ok ==> Supply() == old(Supply()) - 1
      ensures ok ==> forall d :: 1 <= d < CLASSES && d != c ==> caches[d] == old(caches)[d]
      ensures Kept(old(shapes), direct, old(mem), mem)
    {
      hide Inv, Client, P.Conserved, P.Listed, Kept;
      var node := Alloc16(owed);
      if node.None? { return false; }
      Parts(mem, caches, shapes);
      ClientIsBlock(shapes, 0, node.value);
      NodeWrite(old(shapes), shapes, direct, mem, node.value, a, caches[c].freePtr);
      ghost var linked := mem[node.value + 8 := a][node.value := caches[c].freePtr];
      KeptThen(old(shapes), old(shapes), direct, old(mem), mem, linked);
      FirstClass16(shapes, node.value);
      PushBig(mem, caches, shapes, c, node.value, a);
      PushBigClient(shapes, c, node.value, a);
      mem := mem[node.value + 8 := a][node.value := caches[c].freePtr];
      caches := caches[c := caches[c].(freePtr := node.value, freeCount := caches[c].freeCount + 1)];
      shapes := WithList(shapes, c, [node.value] + shapes[c].nodes, [a] + shapes[c].free);
      return true;
    }

    /** One turn of that filling: entry `i` of the new page goes on the free list. */
    method FreeEntry(c: nat, blob: nat, i: nat) returns (ok: bool)
      requires Good() && 1 <= c < CLASSES && EntrySize(c) > 0 && i < P.PAGE_SIZE / EntrySize(c)
      requires Balanced(caches, shapes, NOTHING_OWED[c := i]) && Filled(shapes, c, blob, blob + i * EntrySize(c))
      modifies this`mem, this`caches, this`shapes, pages
      ensures ok ==> Good() && SameClients(old(shapes), shapes) && caches[c].freePtr != 0
      ensures !ok ==> NoRoom(pages.list, 1)
      ensures ok <==> old(Supply()) > 0
      ensures ok ==> Supply() == old(Supply()) - 1
      ensures ok ==> Balanced(caches, shapes, NOTHING_OWED[c := i + 1])
      ensures ok ==> Filled(shapes, c, blob, blob + (i + 1) * EntrySize(c))
      ensures Kept(old(shapes), direct, old(mem), mem)
    {
      hide Inv, Client, P.Conserved, P.Listed, Filled, EntrySize, Kept;
      KeptSame(shapes, direct, mem);
      var a := blob + i * EntrySize(c);
      NextEntry(mem, caches, shapes, c, blob, i);
      shapes := WithBlock(shapes, c, a);
      ghost var with := shapes;
      ok := FreeBig(c, a, NOTHING_OWED[c := i + 1]);
      KeptThen(old(shapes), with, direct, old(mem), old(mem), mem);
      if ok { FilledSame(with, shapes, c, blob, blob + (i + 1) * EntrySize(c)); }
    }

    /** Fills a page with free blocks of class `c`. */
    method ExpandBig(c: nat) returns (r: Outcome<()>)
      requires Valid() && 1 <= c < CLASSES
      modifies this`mem, this`caches, this`shapes, pages
      ensures r.Done? || r.OutOfMemory? ==> Valid() && SameClients(old(shapes), shapes)
      ensures if r.Done? then caches[c].freePtr != 0 else NoRoom(pages.list, 1)
      ensures !r.Unsupported? && EntrySize(c) > 0
      ensures r.OutOfMemory? <==> NoRoom(old(pages.list), 1)
      ensures r.OutOfMemory? ==> caches == old(caches) && pages.list == old(pages.list)
      ensures r.Panic? <==> !NoRoom(old(pages.list), 1) && TooFewNodes(c, old(Supply()))
      ensures Kept(old(shapes), direct, old(mem), mem)
    {
      hide Inv, Client, P.Conserved, P.Listed, Filled, EntrySize, Kept;
      KeptSame(shapes, direct, mem);
      EntriesPerPage(c);
      var entry := EntrySize(c);
      var entries := P.PAGE_SIZE / entry;
      var blob := TakePage(c);
      if blob.None? { return OutOfMemory; }
      for i := 0 to entries
        invariant Good() && SameClients(old(shapes), shapes)
        invariant Balanced(caches, shapes, NOTHING_OWED[c := i])
          && Filled(shapes, c, blob.value, blob.value + i * EntrySize(c))
        invariant i > 0 ==> caches[c].freePtr != 0
        invariant Supply() == old(Supply()) - 128 - i
        invariant Kept(old(shapes), direct, old(mem), mem)
      {
        ghost var was, held := mem, shapes;
        var ok := FreeEntry(c, blob.value, i);
        KeptThen(old(shapes), held, direct, old(mem), was, mem);
        if !ok { return Panic; }
      }
      CountedUp(mem, caches, shapes, c, entries, NOTHING_OWED);
      caches := caches[c := caches[c].(totalCount := caches[c].totalCount + entries)];
      return Done(());
    }

    /** `SlabCache::alloc` of a larger class: the node goes back to the 16-byte class. */
    method AllocBig(c: nat) returns (r: Outcome<nat>)
      requires Valid() && 1 <= c < CLASSES
      modifies this`mem, this`caches, this`shapes, pages
      ensures r.Done? ==> Valid() && OneMore(old(shapes), shapes, c, r.value)
      ensures r.OutOfMemory? ==> Valid() && SameClients(old(shapes), shapes)
      ensures !r.Done? ==> NoRoom(pages.list, 1) && old(caches)[c].freePtr == 0
      ensures !r.Unsupported?
      ensures r.OutOfMemory? <==> old(caches)[c].freePtr == 0 && NoRoom(old(pages.list), 1)
      ensures r.Panic? <==>
        old(caches)[c].freePtr == 0 && !NoRoom(old(pages.list), 1) && TooFewNodes(c, old(Supply()))
      ensures Kept(old(shapes), direct, old(mem), mem)
    {
      hide Inv, Client, P.Conserved, P.Listed, TooFewNodes, Kept;
      KeptSame(shapes, direct, mem);
      while caches[c].freePtr == 0
        invariant Valid() && SameClients(old(shapes), shapes) && (old(caches)[c].freePtr != 0 ==> caches == old(caches))
        invariant if caches[c].freePtr == 0 then caches == old(caches) && pages.list == old(pages.list)
          else old(caches)[c].freePtr != 0 || (!NoRoom(old(pages.list), 1) && !TooFewNodes(c, old(Supply())))
        invariant Kept(old(shapes), direct, old(mem), mem)
        decreases if caches[c].freePtr == 0 then 1 else 0
      {
        ghost var was, held := mem, shapes;
        var e := ExpandBig(c);
        KeptThen(old(shapes), held, direct, old(mem), was, mem);
        if e.OutOfMemory? { return OutOfMemory; }
        if e.Panic? { return Panic; }
      }
      ghost var was, held := mem, shapes;
      var a := TakeNode(c);
      KeptThen(old(shapes), held, direct, old(mem), was, mem);
      return Done(a);
    }

    /** Pops the first node, reads its block out of it and gives the node back. */
    method TakeNode(c: nat) returns (a: nat)
      requires Good() && 1 <= c < CLASSES == |caches| && caches[c].freePtr != 0
      modifies this`mem, this`caches, this`shapes
      ensures Good() && OneMore(old(shapes), shapes, c, a) && BlocksSame(old(shapes), shapes, 0)
      ensures |caches| == |old(caches)| == CLASSES
      ensures forall d :: 0 <= d < CLASSES ==> caches[d].totalCount == old(caches)[d].totalCount
      ensures Kept(old(shapes), direct, old(mem), mem)
    {
      hide Inv, TwoMore, OneMore, WithList, Word, Client, Kept;
      Parts(mem, caches, shapes);
      var node := caches[c].freePtr;
      PoppedNode(mem, caches, shapes, c);
      ghost var rest := WithList(shapes, c, shapes[c].nodes[1..], shapes[c].free[1..]);
      NodeIsNobodys(shapes, rest, node, c, Word(mem, node + 8));
      caches := caches[c := caches[c].(freePtr := Word(mem, node), freeCount := caches[c].freeCount - 1)];
      shapes := WithList(shapes, c, shapes[c].nodes[1..], shapes[c].free[1..]);
      a := Word(mem, node + 8);
      ghost var popped := shapes;
      FirstBlockSize();
      BlockWords(shapes, direct, 0, node, 16);
      Poison(node, 16);
      Free16(node);
      KeptBeside(old(shapes), direct, old(mem), mem, node);
      OneIsLeft(old(shapes), popped, shapes, c, node, a);
    }

    /** The fill byte that `zfree` writes, where only clients are. */
    method Poison(a: nat, size: nat)
      requires Good() && forall w: nat :: a <= w < a + size ==> ClientsWord(shapes, direct, w)
      modifies this`mem
      ensures Good() && Poisoned(old(mem), mem, a, size)
    {
      hide Inv, ClientsWord;
      Lengths();
      var mem' := Overwritten(mem, a, size);
      OverwrittenIs(mem, a, size);
      HeldWrites(mem, mem', caches, shapes, direct);
      mem := mem';
    }

    /** The slab class for a layout, by the loop over the caches; `CLASSES` if there is none. */
    method FindClass(size: nat, align: nat) returns (c: nat)
      ensures c == ClassFor(size, align)
    {
      hide BlockSize;
      var need := if size < align then align else size;
      NoClass(need);
      if need > 0xffff { return CLASSES; }
      c := 0;
      while c < CLASSES && BlockSize(c) < need
        invariant c <= CLASSES && ClassFrom(need, 0) == ClassFrom(need, c)
      {
        c := c + 1;
      }
    }

    /** `zalloc`: a slab block, or whole pages when no class is large enough. */
    method Zalloc(size: nat, align: nat, ghost k: nat) returns (r: Outcome<nat>)
      requires Valid() && align == B.Pow2(k)
      modifies this, pages
      ensures !r.Panic? ==> Valid() && !r.Unsupported?
      ensures r.OutOfMemory? ==> SameClients(old(shapes), shapes) && direct == old(direct)
      ensures !r.Done? ==>
        if ClassFor(size, align) < CLASSES then NoRoom(pages.list, 1)
        else align > P.PAGE_SIZE || NoRoom(pages.list, P.PagesFor(size))
      ensures r.OutOfMemory? <==> CannotServe(size, align, old(caches), old(pages.list))
      ensures r.Panic? <==>
        && 1 <= ClassFor(size, align) < CLASSES && old(caches)[ClassFor(size, align)].freePtr == 0
        && !NoRoom(old(pages.list), 1) && TooFewNodes(ClassFor(size, align), old(Supply()))
      ensures r.Done? ==>
        && r.value > 0 && r.value % align == 0 && Held(r.value, size, align)
        && var c := ClassFor(size, align);
           if c < CLASSES then
             OneMore(old(shapes), shapes, c, r.value) && size <= BlockSize(c) && direct == old(direct)
           else
             && SameClients(old(shapes), shapes) && r.value % P.PAGE_SIZE == 0
             && direct == old(direct) + P.Span(r.value / P.PAGE_SIZE, P.PagesFor(size))
             && P.Span(r.value / P.PAGE_SIZE, P.PagesFor(size)) !! old(pages.live)
             && size <= P.PagesFor(size) * P.PAGE_SIZE
      ensures Kept(old(shapes), old(direct), old(mem), mem)
    {
      hide Inv, Client, P.Conserved, BlockSize, P.Span, TooFewNodes, Supply, Kept;
      KeptSame(shapes, direct, mem);
      var c := FindClass(size, align);
      if c < CLASSES {
        r := ZallocBlock(size, align, k, c);
      } else {
        r := ZallocPages(size, align, k);
      }
    }

    /** A block of class `c`, the class of the layout. */
    method ZallocBlock(size: nat, align: nat, ghost k: nat, c: nat) returns (r: Outcome<nat>)
      requires Valid() && align == B.Pow2(k) && c == ClassFor(size, align) < CLASSES
      modifies this`mem, this`caches, this`shapes, pages
      ensures !r.Panic? ==> Valid() && !r.Unsupported?
      ensures r.OutOfMemory? ==> SameClients(old(shapes), shapes)
      ensures !r.Done? ==> NoRoom(pages.list, 1)
      ensures r.OutOfMemory? <==> old(caches)[c].freePtr == 0 && NoRoom(old(pages.list), 1)
      ensures r.Panic? <==>
        c >= 1 && old(caches)[c].freePtr == 0 && !NoRoom(old(pages.list), 1) && TooFewNodes(c, old(Supply()))
      ensures r.Done? ==>
        && r.value > 0 && r.value % align == 0 && Client(shapes, c, r.value)
        && OneMore(old(shapes), shapes, c, r.value) && size <= BlockSize(c)
      ensures Kept(old(shapes), direct, old(mem), mem)
    {
      hide Inv, Client, P.Conserved, BlockSize, P.Span, P.Listed, TooFewNodes, Kept;
      ClassFits(size, align);
      SupplyNone();
      if c == 0 {
        var a := Alloc16(NOTHING_OWED);
        if a.None? { return OutOfMemory; }
        BlockAligned(mem, caches, shapes, 0, a.value, k);
        return Done(a.value);
      } else {
        r := AllocBig(c);
        if r.Done? { BlockAligned(mem, caches, shapes, c, r.value, k); }
      }
    }

    /** Whole pages, for what no class holds. */
    method ZallocPages(size: nat, align: nat, ghost k: nat) returns (r: Outcome<nat>)
      requires Valid() && align == B.Pow2(k) && ClassFor(size, align) == CLASSES
      modifies this`direct, pages
      ensures Valid() && (r.Done? || r.OutOfMemory?)
      ensures r.OutOfMemory? <==> align > P.PAGE_SIZE || NoRoom(old(pages.list), P.PagesFor(size))
      ensures r.OutOfMemory? ==> direct == old(direct) && pages.list == old(pages.list)
      ensures r.Done? ==>
        && r.value > 0 && r.value % align == 0 && Held(r.value, size, align) && r.value % P.PAGE_SIZE == 0
        && direct == old(direct) + P.Span(r.value / P.PAGE_SIZE, P.PagesFor(size))
        && P.Span(r.value / P.PAGE_SIZE, P.PagesFor(size)) !! old(pages.live)
        && size <= P.PagesFor(size) * P.PAGE_SIZE
    {
      hide Inv, Client, P.Conserved, P.Span, ClassFor, Balanced;
      var a := pages.PgAlloc(size, align);
      if a.None? { return OutOfMemory; }
      PageAligned(a.value, k, align);
      direct := direct + P.Span(a.value / P.PAGE_SIZE, P.PagesFor(size));
      return Done(a.value);
    }

    /** `zfree` with the layout of the allocation: the block goes back to its class. */
    method Zfree(base: nat, size: nat, align: nat) returns (r: Outcome<()>)
      requires Valid() && Held(base, size, align)
      modifies this, pages
      ensures r.Done? || (r.Panic? && NoRoom(pages.list, 1))
      ensures r.Panic? <==>
        1 <= ClassFor(size, align) < CLASSES && old(caches)[0].freePtr == 0 && NoRoom(old(pages.list), 1)
      ensures r.Done? ==> Valid()
      ensures r.Done? ==> Kept(shapes, direct, old(mem), mem)
      ensures r.Done? ==> forall w: nat :: base <= w < base + size ==> Word(mem, w) == FILL
      ensures r.Done? ==>
        var c := ClassFor(size, align);
        if c < CLASSES then OneMore(shapes, old(shapes), c, base) && direct == old(direct)
        else
          && SameClients(old(shapes), shapes) && direct == old(direct) - P.Span(base / P.PAGE_SIZE, P.PagesFor(size))
          && pages.live == old(pages.live) - P.Span(base / P.PAGE_SIZE, P.PagesFor(size))
    {
      hide Inv, Client, P.Conserved, BlockSize, P.Span, Kept, Poisoned, ClientsWord;
      var c := FindClass(size, align);
      ClassFits(size, align);
      Parts(mem, caches, shapes);
      HeldWords(base, size, align);
      Poison(base, size);
      ghost var filled := mem;
      Lengths();
      if c == 0 {
        Free16(base);
        FreedKeeps(old(shapes), shapes, direct, c, base, size, old(mem), filled, mem);
      } else if c < CLASSES {
        SupplyNone();
        var ok := FreeBig(c, base, NOTHING_OWED);
        if !ok { return Panic; }
        FreedKeeps(old(shapes), shapes, direct, c, base, size, old(mem), filled, mem);
      } else {
        pages.PgDealloc(base, size);
        direct := direct - P.Span(base / P.PAGE_SIZE, P.PagesFor(size));
        PagesFreedKeep(shapes, old(direct), direct, base, size, old(mem), mem);
      }
      return Done(());
    }

    /** What a client holds is all its own. */
    lemma HeldWords(base: nat, size: nat, align: nat)
      requires Good() && Held(base, size, align)
      ensures forall w: nat :: base <= w < base + size ==> ClientsWord(shapes, direct, w)
    {
      hide Inv, P.Conserved, BlockSize, ClientsWord;
      ClassFits(size, align);
      if ClassFor(size, align) < CLASSES {
        BlockWords(shapes, direct, ClassFor(size, align), base, size);
      } else {
        PageWords(shapes, direct, base, size);
      }
    }

    /** The client holds what it frees: a block of the layout's class, or pages. */
    ghost predicate Held(base: nat, size: nat, align: nat)
      reads this
    {
      var c := ClassFor(size, align);
      if c < CLASSES then Client(shapes, c, base)
      else
        && base > 0 && base % P.PAGE_SIZE == 0 && base / P.PAGE_SIZE + P.PagesFor(size) < P.TWO32
        && P.Span(base / P.PAGE_SIZE, P.PagesFor(size)) <= direct
    }

    /** No two things clients hold overlap: blocks of any classes are apart, and none lies in
        a page handed out as a page. */
    lemma NothingOverlaps(c: nat, a: nat, d: nat, b: nat)
      requires Valid() && Client(shapes, c, a)
      ensures Client(shapes, d, b) && (c != d || a != b) ==> a + BlockSize(c) <= b || b + BlockSize(d) <= a
      ensures forall w :: a <= w < a + BlockSize(c) ==> w / P.PAGE_SIZE !in direct
    {
      Parts(mem, caches, shapes);
      assert a in shapes[c].blocks && c < CLASSES;
      if Client(shapes, d, b) && (c != d || a != b) { BlocksApart(shapes, c, a, d, b); }
      assert EntryOf(shapes[c], c, a);
      hide Inv, Client, Layout;
      forall w | a <= w < a + BlockSize(c) ensures w / P.PAGE_SIZE !in direct {
        EntrySizes();
        EntryInPage(c, a, w - a);
      }
    }

    /** The counters of every class, for any set of 16-byte blocks that clients hold. */
    lemma CountersAddUp(c: nat, clients: set<nat>)
      requires Valid() && c < CLASSES && forall a :: a in clients <==> Client(shapes, 0, a)
      ensures caches[c].totalCount == caches[c].freeCount + |InUse(shapes[c])|
      ensures caches[0].totalCount == caches[0].freeCount + |clients| + FreeFrom(caches, 1)
    {
      assert Totals(caches, shapes);
      hide Inv, Client;
      TotalIsFreePlusUsed(mem, caches, shapes, c);
      SixteenByteUse(mem, caches, shapes, clients);
    }
  }

  lemma FirstFree(mem: Memory, caches: seq<Cache>, shapes: seq<Shape>)
    requires Inv(mem, caches, shapes)
    ensures |caches| == CLASSES && (caches[0].freeCount == 0 <==> caches[0].freePtr == 0)
  {
  }

  lemma RegionFirst(w: nat)
    ensures P.Size(w) > 0 <==> P.Base(w) in P.Region(w)
  {
    P.SpanIs(P.Base(w), P.Size(w));
    assert P.Within(P.Base(w), P.Base(w), P.Size(w)) <==> P.Size(w) > 0;
    hide P.Base, P.Size, P.Span;
  }

  lemma NoneListed(list: seq<nat>)
    ensures |P.Listed(list)| == 0 <==> NoRoom(list, 1)
  {
    if P.Listed(list) == {} {
      forall i | 0 <= i < |list| ensures P.Size(list[i]) < 1 {
        P.ListedMember(list, P.Base(list[i]));
        RegionFirst(list[i]);
      }
    }
    if NoRoom(list, 1) {
      forall p ensures p !in P.Listed(list) {
        P.ListedMember(list, p);
        forall i | 0 <= i < |list| ensures p !in P.Region(list[i]) { P.SpanIs(P.Base(list[i]), P.Size(list[i])); }
      }
    }
    hide P.Listed, P.Base, P.Size, P.Span;
  }

  /** How many 16-byte blocks can still be had: those on the free list, and 128 for every page. */
  ghost function NodesLeft(caches: seq<Cache>, list: seq<nat>): nat
    requires |caches| > 0
  {
    caches[0].freeCount + 128 * |P.Listed(list)|
  }

  /** A new page of class `c` takes a node for every entry, and the page itself no longer counts. */
  predicate TooFewNodes(c: nat, supply: nat) {
    EntrySize(c) > 0 && supply < 128 + P.PAGE_SIZE / EntrySize(c)
  }

  /** Nothing on the class's list and no page for it, or no run of pages. */
  predicate CannotServe(size: nat, align: nat, caches: seq<Cache>, list: seq<nat>)
    requires |caches| == CLASSES
  {
    var c := ClassFor(size, align);
    if c < CLASSES then caches[c].freePtr == 0 && NoRoom(list, 1)
    else align > P.PAGE_SIZE || NoRoom(list, P.PagesFor(size))
  }

  function ClassFrom(need: nat, c: nat): (r: nat)
    requires c <= CLASSES
    ensures c <= r <= CLASSES
    decreases CLASSES - c
  {
    if c == CLASSES || need <= BlockSize(c) then c else ClassFrom(need, c + 1)
  }

  /** The first class whose blocks hold both the size and the alignment. */
  function ClassFor(size: nat, align: nat): (c: nat)
    ensures c <= CLASSES
  {
    ClassFrom(if size < align then align else size, 0)
  }

  lemma {:induction false} ClassFits(size: nat, align: nat)
    ensures ClassFor(size, align) < CLASSES ==>
      size <= BlockSize(ClassFor(size, align)) && align <= BlockSize(ClassFor(size, align))
    ensures ClassFor(size, align) < CLASSES <==> size <= 2048 && align <= 2048
  {
    var need := if size < align then align else size;
    FirstFit(need, 0);
    assert BlockSize(7) == 2048 by { EntrySizes(); }
  }

  lemma {:induction false} FirstFit(need: nat, c: nat)
    requires c <= CLASSES
    ensures ClassFrom(need, c) < CLASSES ==> need <= BlockSize(ClassFrom(need, c))
    ensures c < CLASSES ==> (ClassFrom(need, c) < CLASSES <==> need <= BlockSize(7))
    decreases CLASSES - c
  {
    hide BlockSize;
    if c < CLASSES {
      FirstFit(need, c + 1);
      SizesGrow(c);
    }
  }

  lemma SizesGrow(c: nat)
    requires c < CLASSES
    ensures BlockSize(c) <= BlockSize(7)
  {
    B.Pow2Add(c, 7 - c);
    B.MulAtLeast(B.Pow2(c), B.Pow2(7 - c));
  }

  lemma {:induction false} EarlierTooSmall(need: nat, c: nat, d: nat)
    requires c <= CLASSES && c <= d < ClassFrom(need, c)
    ensures BlockSize(d) < need
    decreases CLASSES - c
  {
    if c < d { EarlierTooSmall(need, c + 1, d); }
  }

  /** Block sizes are 16, 32, ... 2048, and a layout gets the smallest that its size and its
      alignment both fit, if any. */
  lemma ClassIsLeast(size: nat, align: nat)
    ensures var c, need := ClassFor(size, align), if size < align then align else size;
      && (c == 0 <==> need <= 16) && (c == 1 <==> 16 < need <= 32) && (c == 2 <==> 32 < need <= 64)
      && (c == 3 <==> 64 < need <= 128) && (c == 4 <==> 128 < need <= 256) && (c == 5 <==> 256 < need <= 512)
      && (c == 6 <==> 512 < need <= 1024) && (c == 7 <==> 1024 < need <= 2048) && (c == CLASSES <==> 2048 < need)
  {
    var c, need := ClassFor(size, align), if size < align then align else size;
    ClassFits(size, align);
    if c < CLASSES { FirstFit(need, 0); }
    if 0 < c < CLASSES { EarlierTooSmall(need, 0, c - 1); }
    EntrySizes();
    assert BlockSize(0) == 16 by { assert B.Pow2(0) == 1; }
    hide ClassFor, ClassFrom;
  }

  lemma NoClass(need: nat)
    ensures need > 0xffff ==> ClassFrom(need, 0) == CLASSES
  {
    FirstFit(need, 0);
    assert BlockSize(7) == 2048 by { EntrySizes(); }
    hide BlockSize;
  }

  lemma PowerDivides(k: nat, n: nat, a: nat)
    requires k <= n && a % B.Pow2(n) == 0
    ensures a % B.Pow2(k) == 0
  {
    hide B.Pow2;
    B.Pow2Add(k, n - k);
    Divides(a, B.Pow2(k), B.Pow2(n - k));
  }

  lemma Divides(a: nat, x: nat, y: nat)
    requires x > 0 && y > 0 && x * y > 0 && a % (x * y) == 0
    ensures a % x == 0
  {
    var q := a / (x * y);
    assert a == (x * y) * q == x * (y * q);
    B.ModUnique(a, x, y * q, 0);
  }

  lemma {:induction false} PowerOrder(k: nat, n: nat)
    requires B.Pow2(k) <= B.Pow2(n)
    ensures k <= n
  {
    if k > 0 && n > 0 { PowerOrder(k - 1, n - 1); }
  }

  lemma BlockAligned(mem: Memory, caches: seq<Cache>, shapes: seq<Shape>, c: nat, a: nat, k: nat)
    requires Inv(mem, caches, shapes) && c < CLASSES && Client(shapes, c, a) && B.Pow2(k) <= BlockSize(c)
    ensures a > 0 && a % B.Pow2(k) == 0
  {
    Parts(mem, caches, shapes);
    assert EntryOf(shapes[c], c, a);
    hide Inv, Client, Layout;
    BlockPower(c);
    PowerOrder(k, 4 + c);
    PowerDivides(k, if c == 0 then 5 else 4 + c, a);
  }

  lemma BlockPower(c: nat)
    ensures BlockSize(c) == B.Pow2(4 + c) && EntrySize(c) == B.Pow2(if c == 0 then 5 else 4 + c)
  {
    B.Pow2Add(4, c);
    assert B.Pow2(4) == 16 && B.Pow2(5) == 32;
  }

  lemma PageAligned(a: nat, k: nat, align: nat)
    requires a % P.PAGE_SIZE == 0 && align == B.Pow2(k) && align <= P.PAGE_SIZE
    ensures a % align == 0
  {
    assert B.Pow2(12) == P.PAGE_SIZE by { B.Pow2Add(8, 4); assert B.Pow2(8) == 256 && B.Pow2(4) == 16; }
    PowerOrder(k, 12);
    PowerDivides(k, 12, a);
  }

  lemma PoppedIs16(mem: Memory, caches: seq<Cache>, shapes: seq<Shape>)
    requires Inv(mem, caches, shapes) && shapes[0].free != []
    ensures caches[0].freeCount > 0
    ensures Popped16(mem, caches)
         == caches[0 := caches[0].(freePtr := Word(mem, caches[0].freePtr + 16), freeCount := caches[0].freeCount - 1)]
  {
  }

  lemma FirstBlockSize()
    ensures BlockSize(0) == 16
  {
    assert B.Pow2(0) == 1;
  }

  /** The clients hold a 16-byte block and a block of class `c` more. */
  ghost predicate TwoMore(shapes: seq<Shape>, shapes': seq<Shape>, node: nat, c: nat, a: nat) {
    && !Client(shapes, 0, node) && !Client(shapes, c, a)
    && forall d, b :: Client(shapes', d, b) <==> Client(shapes, d, b) || (d == 0 && b == node) || (d == c && b == a)
  }

  lemma NodeIsNobodys(shapes: seq<Shape>, shapes': seq<Shape>, node: nat, c: nat, a: nat)
    requires TwoMore(shapes, shapes', node, c, a) && Client(shapes', 0, node) && BlocksSame(shapes, shapes', 0)
    ensures !Client(shapes, 0, node) && |shapes| > 0 && node in shapes[0].blocks
  {
  }

  lemma ClientIsBlock(shapes: seq<Shape>, c: nat, a: nat)
    requires Client(shapes, c, a)
    ensures c < |shapes| && a in shapes[c].blocks
  {
  }

  /** The pop of a larger class, with all that it changes. */
  lemma PoppedNode(mem: Memory, caches: seq<Cache>, shapes: seq<Shape>, c: nat)
    requires Inv(mem, caches, shapes) && 1 <= c < CLASSES && |caches| == |shapes| == CLASSES && caches[c].freePtr != 0
    ensures caches[c].freeCount > 0 && shapes[c].nodes != [] && shapes[c].free != []
    ensures var node := caches[c].freePtr;
      var caches' := caches[c := caches[c].(freePtr := Word(mem, node), freeCount := caches[c].freeCount - 1)];
      var shapes' := WithList(shapes, c, shapes[c].nodes[1..], shapes[c].free[1..]);
      && Inv(mem, caches', shapes') && TwoMore(shapes, shapes', node, c, Word(mem, node + 8))
      && Client(shapes', 0, node) && BlocksSame(shapes, shapes', 0)
  {
    hide Inv, Client;
    Parts(mem, caches, shapes);
    PopBig(mem, caches, shapes, c);
    PopBigClient(shapes, c);
    PoppedIsBig(mem, caches, shapes, c);
  }

  lemma OneIsLeft(was: seq<Shape>, popped: seq<Shape>, now: seq<Shape>, c: nat, node: nat, a: nat)
    requires TwoMore(was, popped, node, c, a) && OneMore(now, popped, 0, node) && c != 0
    ensures OneMore(was, now, c, a)
  {
    hide Client;
  }

  lemma PoppedIsBig(mem: Memory, caches: seq<Cache>, shapes: seq<Shape>, c: nat)
    requires Inv(mem, caches, shapes) && c < CLASSES && shapes[c].free != []
    ensures caches[c].freeCount > 0
    ensures PoppedBig(mem, caches, c)
         == caches[c := caches[c].(freePtr := Word(mem, caches[c].freePtr), freeCount := caches[c].freeCount - 1)]
  {
  }

  lemma FirstClass16(shapes: seq<Shape>, a: nat)
    requires Layout(shapes) && Client(shapes, 0, a)
    ensures a != 0
  {
    FirstClass(shapes, a);
    hide Layout;
  }

  lemma FilledSame(was: seq<Shape>, now: seq<Shape>, c: nat, base: nat, limit: nat)
    requires Filled(was, c, base, limit) && BlocksSame(was, now, c)
    ensures Filled(now, c, base, limit)
  {
  }
}

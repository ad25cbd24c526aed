/** The page allocator: free regions packed into 64-bit words, page number in the low half
    and length in the high half. */
module Pages {
  import opened Wrappers
  import opened Bits

  const PAGE_SIZE: nat := 0x1000
  const MAX_FREE_PAIRS: nat := 1024
  const TWO32: nat := 0x1_0000_0000
  const TWO64: nat := 0x1_0000_0000_0000_0000

  // ---- packed words ----

  /** `base | (size << 32)` in 64 bits. */
  function Pack(base: nat, size: nat): nat { BitOr(base, (size * TWO32) % TWO64) }

  /** `data & 0xFFFF_FFFF`. */
  function Base(data: nat): nat { BitAnd(data, TWO32 - 1) }

  /** `data >> 32`. */
  function Size(data: nat): nat { data / TWO32 }

  lemma Pow2Of32()
    ensures Pow2(32) == TWO32
  {
    Pow2Add(8, 8);
    Pow2Add(16, 16);
    assert Pow2(8) == 256;
  }

  lemma PackFields(base: nat, size: nat)
    requires base < TWO32 && size < TWO32
    ensures Base(Pack(base, size)) == base && Size(Pack(base, size)) == size
  {
    Pow2Of32();
    hide BitOr, BitAnd, Pow2;
    OrShifted(base, size, 32);
    var w := base + size * TWO32;
    assert Pack(base, size) == w;
    AndMask(w, 32);
    ModUnique(w, TWO32, size, base);
  }

  /** `(size + align_m1) & !align_m1`. */
  function RoundUp(size: nat): nat
    requires BitAnd(size + PAGE_SIZE - 1, PAGE_SIZE - 1) <= size + PAGE_SIZE - 1
  {
    size + PAGE_SIZE - 1 - BitAnd(size + PAGE_SIZE - 1, PAGE_SIZE - 1)
  }

  /** Masking finds the least number of whole pages. */
  lemma RoundUpIsLeast(size: nat)
    ensures BitAnd(size + PAGE_SIZE - 1, PAGE_SIZE - 1) <= size + PAGE_SIZE - 1
    ensures RoundUp(size) == PagesFor(size) * PAGE_SIZE && size <= RoundUp(size) < size + PAGE_SIZE
  {
    assert Pow2(12) == PAGE_SIZE by { Pow2Add(4, 4); Pow2Add(8, 4); assert Pow2(4) == 16; }
    AndMask(size + PAGE_SIZE - 1, 12);
  }

  function PagesFor(size: nat): nat { (size + PAGE_SIZE - 1) / PAGE_SIZE }

  // ---- sets of pages ----

  predicate Within(p: nat, base: nat, n: nat) { base <= p < base + n }

  function Span(base: nat, n: nat): set<nat> { if n == 0 then {} else Span(base, n - 1) + {base + n - 1} }

  lemma {:induction false} SpanIs(base: nat, n: nat)
    ensures |Span(base, n)| == n
    ensures forall p :: p in Span(base, n) <==> Within(p, base, n)
  {
    if n > 0 {
      SpanIs(base, n - 1);
      forall p ensures p in Span(base, n) <==> Within(p, base, n) {
        assert p in Span(base, n - 1) <==> Within(p, base, n - 1);
      }
    }
  }

  /** Two adjoining spans are one. */
  lemma SpanJoin(base: nat, m: nat, n: nat)
    ensures Span(base, m) + Span(base + m, n) == Span(base, m + n) && Span(base, m) !! Span(base + m, n)
  {
    SpanIs(base, m);
    SpanIs(base + m, n);
    SpanIs(base, m + n);
    forall p ensures p in Span(base, m + n) <==> p in Span(base, m) || p in Span(base + m, n) {
      assert Within(p, base, m + n) <==> Within(p, base, m) || Within(p, base + m, n);
    }
    hide Span;
  }

  function Region(w: nat): set<nat> { Span(Base(w), Size(w)) }

  ghost function Listed(list: seq<nat>): set<nat> {
    if list == [] then {} else Listed(list[..|list| - 1]) + Region(list[|list| - 1])
  }

  lemma {:induction false} ListedMember(list: seq<nat>, p: nat)
    ensures p in Listed(list) <==> exists i :: 0 <= i < |list| && p in Region(list[i])
  {
    if list != [] {
      ListedMember(list[..|list| - 1], p);
      if p in Listed(list) && p !in Region(list[|list| - 1]) {
        var i :| 0 <= i < |list| - 1 && p in Region(list[..|list| - 1][i]);
        assert p in Region(list[i]);
      }
    }
  }

  /** A region that cannot overflow its word. */
  predicate Fits(w: nat) { 0 < Base(w) && Base(w) + Size(w) < TWO32 }

  ghost predicate Apart(list: seq<nat>) {
    forall i, j :: 0 <= i < j < |list| ==> Region(list[i]) !! Region(list[j])
  }

  /** Replacing region `i` by one inside what is not listed elsewhere. */
  lemma Replaced(list: seq<nat>, i: nat, w: nat)
    requires i < |list| && Apart(list) && Region(w) !! (Listed(list) - Region(list[i]))
    ensures Apart(list[i := w]) && Listed(list[i := w]) == Listed(list) - Region(list[i]) + Region(w)
    ensures Region(list[i]) <= Listed(list)
  {
    var list' := list[i := w];
    forall j | 0 <= j < |list| && j != i ensures Region(list[j]) !! Region(w) && Region(list[j]) !! Region(list[i]) {
      forall p | p in Region(list[j]) ensures p !in Region(w) && p !in Region(list[i]) {
        ListedMember(list, p);
      }
    }
    forall p ensures p in Listed(list') <==> p in Listed(list) - Region(list[i]) + Region(w) {
      ListedMember(list, p);
      ListedMember(list', p);
      if p in Listed(list) && p !in Region(list[i]) {
        var j :| 0 <= j < |list| && p in Region(list[j]);
        assert p in Region(list'[j]);
      }
      if p in Region(w) { assert p in Region(list'[i]); }
    }
    forall p | p in Region(list[i]) ensures p in Listed(list) { ListedMember(list, p); }
  }

  lemma Pushed(list: seq<nat>, w: nat)
    requires Apart(list) && Region(w) !! Listed(list)
    ensures Apart(list + [w]) && Listed(list + [w]) == Listed(list) + Region(w)
  {
    var list' := list + [w];
    assert list'[..|list|] == list;
    forall i | 0 <= i < |list| ensures Region(list[i]) !! Region(w) {
      forall p | p in Region(list[i]) ensures p !in Region(w) { ListedMember(list, p); }
    }
  }

  lemma CardMinus(a: set<nat>, b: set<nat>)
    requires b <= a
    ensures |a - b| == |a| - |b|
  {
    assert a * b == b;
  }

  lemma CardPlus(a: set<nat>, b: set<nat>)
    requires a !! b
    ensures |a + b| == |a| + |b|
  {
    assert a * b == {};
  }

  /** Taking pages from the front of region `i`. */
  lemma Taken(list: seq<nat>, i: nat, pages: nat)
    requires i < |list| && Apart(list) && Fits(list[i]) && pages <= Size(list[i])
    ensures var w := list[i]; var w' := Pack(Base(w) + pages, Size(w) - pages);
      && Fits(w') && Apart(list[i := w']) && Span(Base(w), pages) <= Listed(list)
      && Listed(list[i := w']) == Listed(list) - Span(Base(w), pages)
  {
    hide Pack, Base, Size, Listed, Span, Apart;
    var w := list[i];
    var w' := Pack(Base(w) + pages, Size(w) - pages);
    PackFields(Base(w) + pages, Size(w) - pages);
    SpanJoin(Base(w), pages, Size(w) - pages);
    Replaced(list, i, w');
  }

  /** Giving back pages that adjoin region `i` on either side. */
  lemma Merged(list: seq<nat>, i: nat, base: nat, pages: nat)
    requires i < |list| && Apart(list) && Fits(list[i]) && 0 < base && base + pages < TWO32
    requires Span(base, pages) !! Listed(list)
    requires Base(list[i]) + Size(list[i]) == base || base + pages == Base(list[i])
    ensures var w := list[i]; var first := if Base(w) + Size(w) == base then Base(w) else base;
      var w' := Pack(first, Size(w) + pages);
      && Fits(w') && Apart(list[i := w']) && Listed(list[i := w']) == Listed(list) + Span(base, pages)
  {
    hide Pack, Base, Size, Listed, Span, Apart;
    var w := list[i];
    var first := if Base(w) + Size(w) == base then Base(w) else base;
    var w' := Pack(first, Size(w) + pages);
    PackFields(first, Size(w) + pages);
    SpanJoin(Base(w), Size(w), pages);
    SpanJoin(base, pages, Size(w));
    assert Region(w') == Region(w) + Span(base, pages);
    Replaced(list, i, w');
  }

  // ---- the allocator ----

  /** Listed, live and lost pages share nothing, are together what was there at boot, and the
      byte counters count them. */
  ghost predicate Conserved(list: seq<nat>, freePages: nat, lostSize: nat, live: set<nat>, lost: set<nat>,
                            boot: set<nat>) {
    && |list| <= MAX_FREE_PAIRS && (forall i :: 0 <= i < |list| ==> Fits(list[i])) && Apart(list)
    && Listed(list) !! live && Listed(list) !! lost && live !! lost
    && Listed(list) + live + lost == boot
    && freePages == PAGE_SIZE * (|Listed(list)| + |lost|) && lostSize == PAGE_SIZE * |lost|
  }

  lemma TakeConserves(list: seq<nat>, i: nat, pages: nat, freePages: nat, lostSize: nat,
                      live: set<nat>, lost: set<nat>, boot: set<nat>)
    requires Conserved(list, freePages, lostSize, live, lost, boot) && i < |list| && pages <= Size(list[i])
    ensures var w := list[i]; var w' := Pack(Base(w) + pages, Size(w) - pages);
      && Base(w) > 0 && Base(w) + pages < TWO32 && pages * PAGE_SIZE <= freePages
      && Span(Base(w), pages) <= Listed(list) && Span(Base(w), pages) !! live
      && Listed(list[i := w']) == Listed(list) - Span(Base(w), pages)
      && Conserved(list[i := w'], freePages - pages * PAGE_SIZE, lostSize, live + Span(Base(w), pages), lost, boot)
  {
    hide Conserved, Pack, Base, Size, Listed, Span, Apart;
    var w := list[i];
    var w' := Pack(Base(w) + pages, Size(w) - pages);
    ListFacts(list, {}, freePages, lostSize, live, lost, boot);
    Taken(list, i, pages);
    SpanIs(Base(w), pages);
    GrantConserves(list, list[i := w'], Span(Base(w), pages), freePages, lostSize, live, lost, boot);
  }

  /** Any way of unlisting granted pages conserves them. */
  lemma GrantConserves(list: seq<nat>, list': seq<nat>, pages: set<nat>, freePages: nat, lostSize: nat,
                       live: set<nat>, lost: set<nat>, boot: set<nat>)
    requires Conserved(list, freePages, lostSize, live, lost, boot) && pages <= Listed(list)
    requires |list'| <= MAX_FREE_PAIRS && (forall i :: 0 <= i < |list'| ==> Fits(list'[i])) && Apart(list')
    requires Listed(list') == Listed(list) - pages
    ensures |pages| * PAGE_SIZE <= freePages && pages !! live
    ensures Conserved(list', freePages - |pages| * PAGE_SIZE, lostSize, live + pages, lost, boot)
  {
    hide Listed, Apart, Fits;
    CardMinus(Listed(list), pages);
    Regroup(Listed(list), live, lost, pages);
  }

  /** Moving pages from one part to another. */
  lemma Regroup(from: set<nat>, to: set<nat>, rest: set<nat>, pages: set<nat>)
    requires pages <= from && from !! to && from !! rest && to !! rest
    ensures pages !! to && (from - pages) + (to + pages) + rest == from + to + rest
    ensures (from - pages) !! (to + pages) && (from - pages) !! rest && (to + pages) !! rest
  {
  }

  /** Any way of listing the returned pages conserves them. */
  lemma GiveConserves(list: seq<nat>, list': seq<nat>, pages: set<nat>, freePages: nat, lostSize: nat,
                      live: set<nat>, lost: set<nat>, boot: set<nat>)
    requires Conserved(list, freePages, lostSize, live, lost, boot) && pages <= live
    requires |list'| <= MAX_FREE_PAIRS && (forall i :: 0 <= i < |list'| ==> Fits(list'[i])) && Apart(list')
    requires Listed(list') == Listed(list) + pages
    ensures Conserved(list', freePages + |pages| * PAGE_SIZE, lostSize, live - pages, lost, boot)
  {
    hide Listed, Apart;
    CardPlus(Listed(list), pages);
  }

  lemma LoseConserves(list: seq<nat>, pages: set<nat>, freePages: nat, lostSize: nat,
                      live: set<nat>, lost: set<nat>, boot: set<nat>)
    requires Conserved(list, freePages, lostSize, live, lost, boot) && pages <= live
    ensures Conserved(list, freePages + |pages| * PAGE_SIZE, lostSize + |pages| * PAGE_SIZE, live - pages,
      lost + pages, boot)
  {
    hide Listed, Apart;
    CardPlus(lost, pages);
  }

  /** A region strictly below page 2^32 that leaves out page zero. */
  predicate Usable(r: (nat, nat)) { 0 < r.0 && r.0 + r.1 < TWO32 }

  function Available(regions: seq<(nat, nat)>): set<nat> {
    if regions == [] then {}
      else Available(regions[..|regions| - 1]) + Span(regions[|regions| - 1].0, regions[|regions| - 1].1)
  }

  lemma NothingConserved()
    ensures Conserved([], 0, 0, {}, {}, {})
  {
  }

  lemma BootCounts(list: seq<nat>, freePages: nat, boot: set<nat>)
    requires Conserved(list, freePages, 0, {}, {}, boot)
    ensures freePages == PAGE_SIZE * |boot|
  {
    assert Listed(list) + {} + {} == Listed(list);
  }

  lemma {:induction false} AvailableApart(regions: seq<(nat, nat)>, k: nat, j: nat)
    requires k <= j < |regions|
    requires forall i, j :: 0 <= i < j < |regions| ==>
      Span(regions[i].0, regions[i].1) !! Span(regions[j].0, regions[j].1)
    ensures Available(regions[..k]) !! Span(regions[j].0, regions[j].1)
  {
    if k > 0 {
      AvailableApart(regions, k - 1, j);
      assert regions[..k][..k - 1] == regions[..k - 1];
    }
  }

  lemma BootConserves(list: seq<nat>, regions: seq<(nat, nat)>, k: nat, freePages: nat)
    requires k < |regions| && |list| == k < MAX_FREE_PAIRS && Usable(regions[k])
    requires forall i, j :: 0 <= i < j < |regions| ==>
      Span(regions[i].0, regions[i].1) !! Span(regions[j].0, regions[j].1)
    requires Conserved(list, freePages, 0, {}, {}, Available(regions[..k]))
    ensures Conserved(list + [Pack(regions[k].0, regions[k].1)], freePages + regions[k].1 * PAGE_SIZE, 0, {}, {},
                      Available(regions[..k + 1]))
  {
    var (b, n) := regions[k];
    AvailableApart(regions, k, k);
    assert regions[..k + 1][..k] == regions[..k];
    hide Pack, Base, Size, Listed, Span, Apart;
    var free := Listed(list);
    assert free == Available(regions[..k]);
    PackFields(b, n);
    Pushed(list, Pack(b, n));
    SpanIs(b, n);
    CardPlus(free, Span(b, n));
  }

  /** The first region that is long enough. */
  predicate FirstFit(list: seq<nat>, pages: nat, i: nat) {
    i < |list| && Size(list[i]) >= pages && forall j :: 0 <= j < i ==> Size(list[j]) < pages
  }

  /** Region `i` without its first pages. */
  function ShrunkAt(list: seq<nat>, i: nat, pages: nat): seq<nat>
    requires i < |list| && pages <= Size(list[i])
  {
    list[i := Pack(Base(list[i]) + pages, Size(list[i]) - pages)]
  }

  /** The pages at `base` were the first of the first region that is long enough. */
  ghost predicate TakenFirstFit(was: seq<nat>, now: seq<nat>, pages: nat, base: nat) {
    exists i: nat :: FirstFit(was, pages, i) && base == Base(was[i]) && now == ShrunkAt(was, i, pages)
  }

  /** The pages end where the region begins, or begin where it ends. */
  predicate Adjoins(w: nat, b: nat, n: nat) { Base(w) + Size(w) == b || b + n == Base(w) }

  function Joined(w: nat, b: nat, n: nat): nat { Pack(if Base(w) + Size(w) == b then Base(w) else b, Size(w) + n) }

  predicate FirstAdjoining(list: seq<nat>, b: nat, n: nat, i: nat) {
    i < |list| && Adjoins(list[i], b, n) && forall j :: 0 <= j < i ==> !Adjoins(list[j], b, n)
  }

  /** Where returned pages go: into the first region they adjoin, else to a region of their own at
      the end, else they are lost. */
  ghost predicate Returned(was: seq<nat>, b: nat, n: nat, now: seq<nat>, lostWas: set<nat>, lostNow: set<nat>) {
    if exists i: nat :: FirstAdjoining(was, b, n, i) then
      lostNow == lostWas && exists i: nat :: FirstAdjoining(was, b, n, i) && now == was[i := Joined(was[i], b, n)]
    else if |was| < MAX_FREE_PAIRS then lostNow == lostWas && now == was + [Pack(b, n)]
    else lostNow == lostWas + Span(b, n) && now == was
  }

  class PageAllocator {
    /** `mem_list`: packed words; an exhausted region stays with length zero. */
    var list: seq<nat>
    /** In bytes, as the source counts. */
    var freePages: nat
    var lostSize: nat
    var nFragments: nat
    ghost const boot: set<nat>
    ghost var live: set<nat>
    ghost var lost: set<nat>

    ghost predicate Valid()
      reads this
    {
      Conserved(list, freePages, lostSize, live, lost, boot)
    }

    /** `init_first`: one word per available region of the memory map; more regions than words
        is a panic. */
    constructor (regions: seq<(nat, nat)>)
      requires |regions| <= MAX_FREE_PAIRS && forall i :: 0 <= i < |regions| ==> Usable(regions[i])
      requires forall i, j :: 0 <= i < j < |regions| ==>
        Span(regions[i].0, regions[i].1) !! Span(regions[j].0, regions[j].1)
      ensures Valid() && live == {} && lost == {} && lostSize == 0
      ensures boot == Available(regions) && freePages == PAGE_SIZE * |boot|
    {
      hide Conserved, Pack, Base, Size, Listed, Span, Fits;
      list, freePages, lostSize, nFragments, live, lost := [], 0, 0, 0, {}, {};
      boot := Available(regions);
      new;
      NothingConserved();
      assert Available([]) == {};
      for k := 0 to |regions|
        invariant |list| == k && live == {} && lost == {} && lostSize == 0
        invariant Conserved(list, freePages, 0, {}, {}, Available(regions[..k]))
      {
        BootConserves(list, regions, k, freePages);
        list := list + [Pack(regions[k].0, regions[k].1)];
        freePages := freePages + regions[k].1 * PAGE_SIZE;
      }
      nFragments := |list|;
      assert regions[..|regions|] == regions;
      BootCounts(list, freePages, boot);
    }

    /** `MemFreePair::alloc` on region `i`: take from the front. */
    method TakeFrom(i: nat, pages: nat) returns (r: Option<nat>)
      requires Valid() && i < |list|
      modifies this`list, this`live, this`freePages
      ensures Valid()
      ensures r.None? <==> Size(old(list)[i]) < pages
      ensures r.None? ==> list == old(list) && live == old(live) && freePages == old(freePages)
      ensures r.Some? ==> Granted(r.value, pages, old(list), old(live)) && r.value == Base(old(list)[i])
      ensures r.Some? ==> list == ShrunkAt(old(list), i, pages)
    {
      hide Conserved, Pack, Base, Size, Listed, Span;
      var w := list[i];
      if Size(w) < pages { return None; }
      TakeConserves(list, i, pages, freePages, lostSize, live, lost, boot);
      list := ShrunkAt(list, i, pages);
      live := live + Span(Base(w), pages);
      freePages := freePages - pages * PAGE_SIZE;
      return Some(Base(w));
    }

    /** The pages were free, not page zero, and are now live. */
    ghost predicate Granted(base: nat, pages: nat, was: seq<nat>, wasLive: set<nat>)
      reads this
    {
      && base > 0 && base + pages < TWO32 && Span(base, pages) <= Listed(was) && live == wasLive + Span(base, pages)
      && Span(base, pages) !! wasLive && Listed(list) == Listed(was) - Span(base, pages)
    }

    /** First fit. Pages are refused only for an alignment above a page, or when no region is
        long enough. */
    method PgAlloc(size: nat, align: nat) returns (r: Option<nat>)
      requires Valid()
      modifies this`list, this`live, this`freePages
      ensures Valid()
      ensures r.None? <==> align > PAGE_SIZE || forall i :: 0 <= i < |old(list)| ==> Size(old(list)[i]) < PagesFor(size)
      ensures r.None? ==> list == old(list) && live == old(live) && freePages == old(freePages)
      ensures r.Some? ==> r.value > 0 && r.value % PAGE_SIZE == 0
                          && Granted(r.value / PAGE_SIZE, PagesFor(size), old(list), old(live))
      ensures r.Some? ==> TakenFirstFit(old(list), list, PagesFor(size), r.value / PAGE_SIZE)
    {
      hide Conserved, Base, Size, Listed, Span;
      if align > PAGE_SIZE { return None; }
      RoundUpIsLeast(size);
      var bytes := RoundUp(size);
      var pages := PagesFor(bytes);
      assert pages == PagesFor(size);
      for i := 0 to |list|
        invariant Valid() && list == old(list) && live == old(live) && freePages == old(freePages)
        invariant forall j :: 0 <= j < i ==> Size(list[j]) < pages
      {
        var v := TakeFrom(i, pages);
        if v.Some? {
          assert FirstFit(old(list), pages, i);
          return Some(v.value * PAGE_SIZE);
        }
      }
      return None;
    }

    /** The caller returns pages it was given. */
    method PgDealloc(base: nat, size: nat)
      requires Valid() && base % PAGE_SIZE == 0 && 0 < base && base / PAGE_SIZE + PagesFor(size) < TWO32
      requires Span(base / PAGE_SIZE, PagesFor(size)) <= live
      modifies this`list, this`live, this`lost, this`freePages, this`lostSize, this`nFragments
      ensures Valid() && live == old(live) - Span(base / PAGE_SIZE, PagesFor(size))
      ensures freePages == old(freePages) + PagesFor(size) * PAGE_SIZE
      ensures Returned(old(list), base / PAGE_SIZE, PagesFor(size), list, old(lost), lost)
      ensures nFragments == |old(list)|
    {
      hide Conserved, Pack, Base, Size, Listed, Span, Apart, Fits;
      RoundUpIsLeast(size);
      var bytes := RoundUp(size);
      var b, n := base / PAGE_SIZE, bytes / PAGE_SIZE;
      assert n == PagesFor(size);
      var entry := Pack(b, n);
      ghost var was := list;
      SpanIs(b, n);
      freePages := freePages + bytes;
      nFragments := |list|;
      for i := 0 to |list|
        invariant list == was && lost == old(lost) && live == old(live) && lostSize == old(lostSize)
        invariant freePages == old(freePages) + n * PAGE_SIZE && nFragments == |was|
        invariant forall j :: 0 <= j < i ==> !Adjoins(list[j], b, n)
      {
        var w := TryMerge(list[i], entry, i, b, n, old(freePages));
        if w.Some? {
          assert FirstAdjoining(was, b, n, i) && w.value == Joined(was[i], b, n);
          list := list[i := w.value];
          live := live - Span(b, n);
          return;
        }
      }
      if |list| < MAX_FREE_PAIRS {
        PushConserves(list, b, n, old(freePages), lostSize, live, lost, boot);
        list := list + [entry];
        live := live - Span(b, n);
      } else {
        LoseConserves(list, Span(b, n), old(freePages), lostSize, live, lost, boot);
        ListFacts(list, Span(b, n), old(freePages), lostSize, live, lost, boot);
        lostSize := lostSize + bytes;
        lost := lost + Span(b, n);
        live := live - Span(b, n);
      }
    }

    /** `try_merge` of the new entry into region `i`. */
    method TryMerge(w: nat, other: nat, ghost i: nat, ghost b: nat, ghost n: nat,
                    ghost was: nat) returns (r: Option<nat>)
      requires Conserved(list, was, lostSize, live, lost, boot) && i < |list| && w == list[i] && other == Pack(b, n)
      requires 0 < b && b + n < TWO32 && Span(b, n) <= live
      ensures r.Some? ==> Conserved(list[i := r.value], was + n * PAGE_SIZE, lostSize, live - Span(b, n), lost, boot)
      ensures r.Some? <==> Adjoins(w, b, n)
      ensures r.Some? ==> r.value == Joined(w, b, n)
    {
      hide Conserved, Pack, Base, Size, Listed, Span, Apart, Fits;
      PackFields(b, n);
      var base0, size0, base1, size1 := Base(w), Size(w), Base(other), Size(other);
      if base0 + size0 == base1 {
        MergeConserves(list, i, b, n, was, lostSize, live, lost, boot);
        return Some(Pack(base0, size0 + size1));
      } else if base1 + size1 == base0 {
        MergeConserves(list, i, b, n, was, lostSize, live, lost, boot);
        return Some(Pack(base1, size0 + size1));
      } else {
        return None;
      }
    }
  }

  lemma ListFacts(list: seq<nat>, pages: set<nat>, freePages: nat, lostSize: nat,
                  live: set<nat>, lost: set<nat>, boot: set<nat>)
    requires Conserved(list, freePages, lostSize, live, lost, boot) && pages <= live
    ensures |list| <= MAX_FREE_PAIRS && Apart(list) && pages !! Listed(list)
    ensures forall i :: 0 <= i < |list| ==> Fits(list[i])
  {
  }

  lemma MergeConserves(list: seq<nat>, i: nat, b: nat, n: nat, freePages: nat, lostSize: nat,
                       live: set<nat>, lost: set<nat>, boot: set<nat>)
    requires Conserved(list, freePages, lostSize, live, lost, boot) && i < |list|
    requires 0 < b && b + n < TWO32 && Span(b, n) <= live
    requires Base(list[i]) + Size(list[i]) == b || b + n == Base(list[i])
    ensures var w := list[i]; var first := if Base(w) + Size(w) == b then Base(w) else b;
      Conserved(list[i := Pack(first, Size(w) + n)], freePages + n * PAGE_SIZE, lostSize, live - Span(b, n), lost, boot)
  {
    hide Conserved, Pack, Base, Size, Listed, Span, Apart, Fits;
    var w := list[i];
    var first := if Base(w) + Size(w) == b then Base(w) else b;
    SpanIs(b, n);
    ListFacts(list, Span(b, n), freePages, lostSize, live, lost, boot);
    Merged(list, i, b, n);
    GiveConserves(list, list[i := Pack(first, Size(w) + n)], Span(b, n), freePages, lostSize, live, lost, boot);
  }

  lemma PushConserves(list: seq<nat>, b: nat, n: nat, freePages: nat, lostSize: nat,
                      live: set<nat>, lost: set<nat>, boot: set<nat>)
    requires Conserved(list, freePages, lostSize, live, lost, boot) && |list| < MAX_FREE_PAIRS
    requires 0 < b && b + n < TWO32 && Span(b, n) <= live
    ensures Conserved(list + [Pack(b, n)], freePages + n * PAGE_SIZE, lostSize, live - Span(b, n), lost, boot)
  {
    hide Pack, Base, Size, Listed, Span, Apart;
    PackFields(b, n);
    SpanIs(b, n);
    Pushed(list, Pack(b, n));
    GiveConserves(list, list + [Pack(b, n)], Span(b, n), freePages, lostSize, live, lost, boot);
  }
}

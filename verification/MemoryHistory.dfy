/** Whole histories of `zalloc` and `zfree`: what is held at any time is exactly what was
    allocated and not freed, and no two holdings share a byte. */
module MemoryHistory {
  import opened Wrappers
  import opened Slab
  import opened Manager = MemoryManager
  import P = Pages
  import B = Bits

  /** A block or run of pages that a client was given, with its layout. */
  datatype Holding = Holding(base: nat, size: nat, align: nat)

  /** The client frees holdings by their place among those it has. */
  datatype Request = Alloc(size: nat, alignBits: nat) | Free(index: nat)

  function Class(h: Holding): nat { ClassFor(h.size, h.align) }

  predicate IsBlock(h: Holding) { Class(h) < CLASSES }

  predicate IsBlockAt(h: Holding, c: nat, a: nat) { IsBlock(h) && Class(h) == c && h.base == a }

  function PagesOf(h: Holding): set<nat> {
    if IsBlock(h) then {} else P.Span(h.base / P.PAGE_SIZE, P.PagesFor(h.size))
  }

  predicate InExtent(h: Holding, w: nat) { h.base <= w < h.base + h.size }

  predicate Different(h: Holding, g: Holding) {
    !(IsBlock(h) && IsBlockAt(g, Class(h), h.base)) && PagesOf(h) !! PagesOf(g)
  }

  predicate Proper(h: Holding) {
    && h.base > 0 && h.align > 0 && h.base % h.align == 0
    && (!IsBlock(h) ==> h.base % P.PAGE_SIZE == 0 && h.base / P.PAGE_SIZE + P.PagesFor(h.size) < P.TWO32)
  }

  ghost predicate HoldsBlock(held: seq<Holding>, c: nat, a: nat) {
    exists i :: 0 <= i < |held| && IsBlockAt(held[i], c, a)
  }

  ghost predicate HoldsPage(held: seq<Holding>, p: nat) { exists i :: 0 <= i < |held| && p in PagesOf(held[i]) }

  /** The holdings are the clients' blocks and pages, each once. */
  ghost predicate Accounts(held: seq<Holding>, shapes: seq<Shape>, direct: set<nat>) {
    && (forall c, a :: Client(shapes, c, a) <==> HoldsBlock(held, c, a))
    && (forall p :: p in direct <==> HoldsPage(held, p))
    && (forall i :: 0 <= i < |held| ==> Proper(held[i]))
    && (forall i, j :: 0 <= i < j < |held| ==> Different(held[i], held[j]))
  }

  lemma HoldsMore(held: seq<Holding>, h: Holding)
    ensures forall c, a :: HoldsBlock(held + [h], c, a) <==> HoldsBlock(held, c, a) || IsBlockAt(h, c, a)
    ensures forall p :: HoldsPage(held + [h], p) <==> HoldsPage(held, p) || p in PagesOf(h)
  {
    var more := held + [h];
    hide IsBlockAt, PagesOf;
    forall c, a ensures HoldsBlock(more, c, a) <==> HoldsBlock(held, c, a) || IsBlockAt(h, c, a) {
      if HoldsBlock(held, c, a) {
        var i :| 0 <= i < |held| && IsBlockAt(held[i], c, a);
        assert IsBlockAt(more[i], c, a);
      }
      if IsBlockAt(h, c, a) { assert IsBlockAt(more[|held|], c, a); }
    }
    forall p ensures HoldsPage(more, p) <==> HoldsPage(held, p) || p in PagesOf(h) {
      if HoldsPage(held, p) {
        var i :| 0 <= i < |held| && p in PagesOf(held[i]);
        assert p in PagesOf(more[i]);
      }
      if p in PagesOf(h) { assert p in PagesOf(more[|held|]); }
    }
  }

  /** A grant of something nobody held. */
  lemma AllocAccounts(held: seq<Holding>, shapes: seq<Shape>, direct: set<nat>,
                      shapes': seq<Shape>, direct': set<nat>, h: Holding)
    requires Accounts(held, shapes, direct) && Proper(h)
    requires if IsBlock(h) then OneMore(shapes, shapes', Class(h), h.base) && direct' == direct
             else SameClients(shapes, shapes') && direct' == direct + PagesOf(h) && PagesOf(h) !! direct
    ensures Accounts(held + [h], shapes', direct')
  {
    hide Client, Class, PagesOf, Proper, HoldsBlock, HoldsPage;
    HoldsMore(held, h);
    if IsBlock(h) { BlockHasNoPages(h); }
    forall i | 0 <= i < |held| ensures Different(held[i], h) {
      assert forall p :: p in PagesOf(held[i]) ==> p in direct by { HeldPages(held, i); }
      HeldBlock(held, i);
    }
  }

  lemma HeldPages(held: seq<Holding>, i: nat)
    requires i < |held|
    ensures forall p :: p in PagesOf(held[i]) ==> HoldsPage(held, p)
  {
    hide PagesOf;
  }

  lemma HeldBlock(held: seq<Holding>, i: nat)
    requires i < |held|
    ensures IsBlock(held[i]) ==> HoldsBlock(held, Class(held[i]), held[i].base)
  {
    hide Class;
    assert IsBlock(held[i]) ==> IsBlockAt(held[i], Class(held[i]), held[i].base);
  }

  lemma BlockHasNoPages(h: Holding)
    requires IsBlock(h)
    ensures PagesOf(h) == {}
  {
  }

  function Without(held: seq<Holding>, k: nat): seq<Holding>
    requires k < |held|
  {
    held[..k] + held[k + 1..]
  }

  /** Where place `i` was before place `k` was left out. */
  function Before(i: nat, k: nat): nat { if i < k then i else i + 1 }

  lemma WithoutAt(held: seq<Holding>, k: nat)
    requires k < |held|
    ensures |Without(held, k)| == |held| - 1
    ensures forall i :: 0 <= i < |held| - 1 ==> Without(held, k)[i] == held[Before(i, k)]
  {
  }

  ghost predicate AllDifferent(held: seq<Holding>) {
    forall i, j :: 0 <= i < |held| && 0 <= j < |held| && i != j ==> Different(held[i], held[j])
  }

  lemma BlocksLess(held: seq<Holding>, k: nat, c: nat, a: nat)
    requires k < |held| && AllDifferent(held)
    ensures HoldsBlock(Without(held, k), c, a) <==> HoldsBlock(held, c, a) && !IsBlockAt(held[k], c, a)
  {
    var less := Without(held, k);
    WithoutAt(held, k);
    hide Class, PagesOf, Without;
    if HoldsBlock(less, c, a) {
      var i :| 0 <= i < |less| && IsBlockAt(less[i], c, a);
      assert IsBlockAt(held[Before(i, k)], c, a) && Different(held[Before(i, k)], held[k]);
    }
    if HoldsBlock(held, c, a) && !IsBlockAt(held[k], c, a) {
      var j :| 0 <= j < |held| && IsBlockAt(held[j], c, a);
      assert IsBlockAt(less[if j < k then j else j - 1], c, a);
    }
  }

  lemma PagesLess(held: seq<Holding>, k: nat, p: nat)
    requires k < |held| && AllDifferent(held)
    ensures HoldsPage(Without(held, k), p) <==> HoldsPage(held, p) && p !in PagesOf(held[k])
  {
    var less := Without(held, k);
    WithoutAt(held, k);
    hide IsBlock, PagesOf, Without;
    if HoldsPage(less, p) {
      var i :| 0 <= i < |less| && p in PagesOf(less[i]);
      assert p in PagesOf(held[Before(i, k)]) && Different(held[Before(i, k)], held[k]);
    }
    if HoldsPage(held, p) && p !in PagesOf(held[k]) {
      var j :| 0 <= j < |held| && p in PagesOf(held[j]);
      assert p in PagesOf(less[if j < k then j else j - 1]);
    }
  }

  lemma DifferentBothWays(held: seq<Holding>)
    requires forall i, j :: 0 <= i < j < |held| ==> Different(held[i], held[j])
    ensures AllDifferent(held)
  {
    hide PagesOf, Class;
  }

  lemma FreeAccounts(held: seq<Holding>, shapes: seq<Shape>, direct: set<nat>,
                     shapes': seq<Shape>, direct': set<nat>, k: nat)
    requires Accounts(held, shapes, direct) && k < |held|
    requires var h := held[k];
      if IsBlock(h) then OneMore(shapes', shapes, Class(h), h.base) && direct' == direct
      else SameClients(shapes, shapes') && direct' == direct - PagesOf(h)
    ensures Accounts(Without(held, k), shapes', direct')
  {
    hide Client, Class, PagesOf, Proper, HoldsBlock, HoldsPage, Different, Without;
    DifferentBothWays(held);
    WithoutAt(held, k);
    if IsBlock(held[k]) { BlockHasNoPages(held[k]); }
    forall c, a ensures Client(shapes', c, a) <==> HoldsBlock(Without(held, k), c, a) { BlocksLess(held, k, c, a); }
    forall p ensures p in direct' <==> HoldsPage(Without(held, k), p) { PagesLess(held, k, p); }
  }

  lemma PageOfByte(h: Holding, w: nat)
    requires Proper(h) && !IsBlock(h) && InExtent(h, w)
    ensures w / P.PAGE_SIZE in PagesOf(h)
  {
    P.SpanIs(h.base / P.PAGE_SIZE, P.PagesFor(h.size));
    assert P.Within(w / P.PAGE_SIZE, h.base / P.PAGE_SIZE, P.PagesFor(h.size));
    hide P.Span;
  }

  /** Two holdings share no byte. */
  lemma HoldingsApart(manager: Manager.MemoryManager, held: seq<Holding>, i: nat, j: nat)
    requires manager.Valid() && Accounts(held, manager.shapes, manager.direct) && i < j < |held|
    ensures forall w :: !(InExtent(held[i], w) && InExtent(held[j], w))
  {
    var h, g := held[i], held[j];
    assert Different(h, g) && Proper(h) && Proper(g);
    HeldBlock(held, i);
    HeldBlock(held, j);
    HeldPages(held, i);
    HeldPages(held, j);
    ClassFits(h.size, h.align);
    ClassFits(g.size, g.align);
    hide Inv, Client, PagesOf, HoldsBlock, HoldsPage, BlockSize, ClassFor;
    forall w ensures !(InExtent(h, w) && InExtent(g, w)) {
      if IsBlock(h) {
        manager.NothingOverlaps(Class(h), h.base, Class(g), g.base);
        if !IsBlock(g) && InExtent(g, w) { PageOfByte(g, w); }
      } else if IsBlock(g) {
        manager.NothingOverlaps(Class(g), g.base, Class(h), h.base);
        if InExtent(h, w) { PageOfByte(h, w); }
      } else {
        if InExtent(h, w) { PageOfByte(h, w); }
        if InExtent(g, w) { PageOfByte(g, w); }
      }
    }
  }

  /** What one request, granted or not, makes of the holdings. */
  function After(held: seq<Holding>, r: Request, grant: Option<nat>): seq<Holding> {
    match r
    case Alloc(size, bits) => if grant.Some? then held + [Holding(grant.value, size, B.Pow2(bits))] else held
    case Free(k) => if k < |held| then Without(held, k) else held
  }

  /** What has been granted and not freed. */
  function Outstanding(requests: seq<Request>, grants: seq<Option<nat>>): seq<Holding>
    requires |grants| == |requests|
  {
    if requests == [] then []
    else
      var n := |requests| - 1;
      After(Outstanding(requests[..n], grants[..n]), requests[n], grants[n])
  }

  lemma OutstandingNext(requests: seq<Request>, grants: seq<Option<nat>>, k: nat, grant: Option<nat>)
    requires k == |grants| < |requests|
    ensures Outstanding(requests[..k + 1], grants + [grant])
         == After(Outstanding(requests[..k], grants), requests[k], grant)
  {
    assert requests[..k + 1][..k] == requests[..k] && (grants + [grant])[..k] == grants;
  }

  /** The allocator between two requests. */
  datatype Moment = Moment(
    mem: Memory, caches: seq<Cache>, shapes: seq<Shape>, direct: set<nat>,
    list: seq<nat>, freePages: nat, lostSize: nat, live: set<nat>, lost: set<nat>)

  ghost function Now(manager: Manager.MemoryManager): Moment
    reads manager, manager.pages
  {
    Moment(manager.mem, manager.caches, manager.shapes, manager.direct, manager.pages.list, manager.pages.freePages,
           manager.pages.lostSize, manager.pages.live, manager.pages.lost)
  }

  /** Lists, pages and counters are in order, and the clients have exactly the holdings. */
  ghost predicate Settled(m: Moment, boot: set<nat>, held: seq<Holding>) {
    && P.Conserved(m.list, m.freePages, m.lostSize, m.live, m.lost, boot)
    && Inv(m.mem, m.caches, m.shapes) && Housed(m.shapes, m.direct, m.live)
    && Balanced(m.caches, m.shapes, NOTHING_OWED) && Accounts(held, m.shapes, m.direct)
  }

  /** The request needs more list nodes than can be had. */
  ghost predicate Panics(r: Request, held: seq<Holding>, m: Moment) {
    && |m.caches| == CLASSES
    && match r
       case Alloc(size, bits) =>
         var c := ClassFor(size, B.Pow2(bits));
         && 1 <= c < CLASSES && m.caches[c].freePtr == 0
         && !NoRoom(m.list, 1) && TooFewNodes(c, NodesLeft(m.caches, m.list))
       case Free(k) =>
         k < |held| && 1 <= Class(held[k]) < CLASSES && m.caches[0].freePtr == 0 && NoRoom(m.list, 1)
  }

  /** An allocation is refused exactly if its class, or the page allocator, has nothing for it. */
  ghost predicate Answers(r: Request, grant: Option<nat>, m: Moment) {
    match r
    case Alloc(size, bits) =>
      |m.caches| == CLASSES && (grant.None? <==> CannotServe(size, B.Pow2(bits), m.caches, m.list))
    case Free(_) => grant.None?
  }

  /** What was held in front of request `k`. */
  function HeldAt(requests: seq<Request>, grants: seq<Option<nat>>, k: nat): seq<Holding>
    requires k <= |grants| <= |requests|
  {
    Outstanding(requests[..k], grants[..k])
  }

  ghost predicate Served(requests: seq<Request>, grants: seq<Option<nat>>, trail: seq<Moment>, k: nat)
    requires k < |grants| <= |requests| && |trail| == |grants| + 1
  {
    Answers(requests[k], grants[k], trail[k]) && !Panics(requests[k], HeldAt(requests, grants, k), trail[k])
  }

  /** Every request so far was answered from the state it met, and every state is in order. */
  ghost predicate Follows(boot: set<nat>, requests: seq<Request>, grants: seq<Option<nat>>, trail: seq<Moment>) {
    && |grants| <= |requests| && |trail| == |grants| + 1
    && (forall k :: 0 <= k < |grants| ==> Served(requests, grants, trail, k))
    && (forall k :: 0 <= k <= |grants| ==> Settled(trail[k], boot, HeldAt(requests, grants, k)))
  }

  lemma FollowsNext(boot: set<nat>, requests: seq<Request>, grants: seq<Option<nat>>, trail: seq<Moment>,
                    grant: Option<nat>, m: Moment)
    requires Follows(boot, requests, grants, trail) && |grants| < |requests|
    requires var k := |grants|; var held := HeldAt(requests, grants, k);
      && Answers(requests[k], grant, trail[k]) && !Panics(requests[k], held, trail[k])
      && Settled(m, boot, After(held, requests[k], grant))
    ensures Follows(boot, requests, grants + [grant], trail + [m])
    ensures HeldAt(requests, grants + [grant], |grants| + 1)
         == After(HeldAt(requests, grants, |grants|), requests[|grants|], grant)
  {
    hide Answers, Panics, Settled, After, Outstanding;
    var k, grants', trail' := |grants|, grants + [grant], trail + [m];
    assert grants[..k] == grants == grants'[..k] && grants' == grants'[..k + 1];
    OutstandingNext(requests, grants, k, grant);
    forall j | 0 <= j <= k ensures HeldAt(requests, grants', j) == HeldAt(requests, grants, j) {
      assert grants'[..j] == grants[..j];
    }
    forall j | 0 <= j < k + 1 ensures Served(requests, grants', trail', j) {
      if j < k { assert Served(requests, grants, trail, j); }
    }
  }

  /** Applies the requests in order, and reports what each was granted. At any time the holdings
      are exactly what was granted and not freed, they are exactly what the clients have, and in
      the end no two share a byte. A request whose list nodes cannot be had is a panic, and the
      history ends there. */
  method Replay(manager: Manager.MemoryManager, requests: seq<Request>)
    returns (ok: bool, held: seq<Holding>, grants: seq<Option<nat>>, ghost trail: seq<Moment>)
    requires manager.Valid() && manager.direct == {} && forall c, a :: !Client(manager.shapes, c, a)
    modifies manager, manager.pages
    ensures Follows(manager.pages.boot, requests, grants, trail)
    ensures trail[0] == old(Now(manager)) && held == HeldAt(requests, grants, |grants|)
    ensures if ok then |grants| == |requests| && trail[|requests|] == Now(manager)
            else |grants| < |requests| && Panics(requests[|grants|], held, trail[|grants|])
    ensures ok ==> manager.Valid() && Accounts(held, manager.shapes, manager.direct)
    ensures ok ==> forall i, j, w :: 0 <= i < j < |held| ==> !(InExtent(held[i], w) && InExtent(held[j], w))
    ensures ok ==> forall c :: 0 <= c < CLASSES ==>
      manager.caches[c].totalCount == manager.caches[c].freeCount + |InUse(manager.shapes[c])|
  {
    hide Inv, Client, Accounts, After, Panics, Answers, Housed, P.Conserved;
    held, grants, trail := [], [], [Now(manager)];
    NothingHeld(manager.shapes);
    for k := 0 to |requests|
      invariant manager.Valid() && Accounts(held, manager.shapes, manager.direct)
      invariant |grants| == k && Follows(manager.pages.boot, requests, grants, trail)
      invariant held == HeldAt(requests, grants, k) && trail[0] == old(Now(manager)) && trail[k] == Now(manager)
    {
      var grant;
      ok, held, grant := Serve(manager, requests[k], held);
      if !ok { return; }
      FollowsNext(manager.pages.boot, requests, grants, trail, grant, Now(manager));
      grants, trail := grants + [grant], trail + [Now(manager)];
    }
    forall i, j | 0 <= i < j < |held| ensures forall w :: !(InExtent(held[i], w) && InExtent(held[j], w)) {
      HoldingsApart(manager, held, i, j);
    }
    forall c | 0 <= c < CLASSES
      ensures manager.caches[c].totalCount == manager.caches[c].freeCount + |InUse(manager.shapes[c])|
    {
      TotalIsFreePlusUsed(manager.mem, manager.caches, manager.shapes, c);
    }
    ok := true;
  }

  lemma NothingHeld(shapes: seq<Shape>)
    requires forall c, a :: !Client(shapes, c, a)
    ensures Accounts([], shapes, {})
  {
    hide Client;
  }

  method Serve(manager: Manager.MemoryManager, r: Request, held: seq<Holding>)
    returns (ok: bool, now: seq<Holding>, grant: Option<nat>)
    requires manager.Valid() && Accounts(held, manager.shapes, manager.direct)
    modifies manager, manager.pages
    ensures !ok <==> Panics(r, held, old(Now(manager)))
    ensures now == if ok then After(held, r, grant) else held
    ensures ok ==> manager.Valid() && Accounts(now, manager.shapes, manager.direct)
    ensures ok ==> Answers(r, grant, old(Now(manager)))
  {
    manager.Lengths();
    match r {
      case Alloc(size, bits) => ok, now, grant := ServeAlloc(manager, held, size, bits);
      case Free(index) =>
        if index >= |held| { return true, held, None; }
        grant := None;
        ok, now := ServeFree(manager, held, index);
    }
  }

  method ServeAlloc(manager: Manager.MemoryManager, held: seq<Holding>, size: nat, bits: nat)
    returns (ok: bool, now: seq<Holding>, grant: Option<nat>)
    requires manager.Valid() && Accounts(held, manager.shapes, manager.direct)
    modifies manager, manager.pages
    ensures !ok <==> Panics(Alloc(size, bits), held, old(Now(manager)))
    ensures now == if ok then After(held, Alloc(size, bits), grant) else held
    ensures ok ==> manager.Valid() && Accounts(now, manager.shapes, manager.direct)
    ensures ok ==> Answers(Alloc(size, bits), grant, old(Now(manager)))
  {
    hide Inv, Client, Accounts, HoldsBlock, HoldsPage, P.Conserved, ClassFor, CannotServe, TooFewNodes, NodesLeft;
    manager.Lengths();
    var r := manager.Zalloc(size, B.Pow2(bits), bits);
    match r {
      case Done(base) =>
        var h := Holding(base, size, B.Pow2(bits));
        AllocAccounts(held, old(manager.shapes), old(manager.direct), manager.shapes, manager.direct, h);
        return true, held + [h], Some(base);
      case OutOfMemory =>
        SameAccounts(held, old(manager.shapes), manager.shapes, manager.direct);
        return true, held, None;
      case Panic => return false, held, None;
      case Unsupported => assert false;
    }
  }

  lemma SameAccounts(held: seq<Holding>, shapes: seq<Shape>, shapes': seq<Shape>, direct: set<nat>)
    requires Accounts(held, shapes, direct) && SameClients(shapes, shapes')
    ensures Accounts(held, shapes', direct)
  {
    hide Client, HoldsBlock, HoldsPage, Different, Proper;
  }

  method ServeFree(manager: Manager.MemoryManager, held: seq<Holding>, index: nat) returns (ok: bool, now: seq<Holding>)
    requires manager.Valid() && Accounts(held, manager.shapes, manager.direct) && index < |held|
    modifies manager, manager.pages
    ensures !ok <==> Panics(Free(index), held, old(Now(manager)))
    ensures now == if ok then Without(held, index) else held
    ensures ok ==> manager.Valid() && Accounts(now, manager.shapes, manager.direct)
  {
    hide Inv, Client, HoldsBlock, HoldsPage, P.Conserved, ClassFor, Different;
    manager.Lengths();
    var h := held[index];
    HeldBlock(held, index);
    HeldPages(held, index);
    var r := manager.Zfree(h.base, h.size, h.align);
    if r.Panic? { return false, held; }
    FreeAccounts(held, old(manager.shapes), old(manager.direct), manager.shapes, manager.direct, index);
    return true, Without(held, index);
  }
}

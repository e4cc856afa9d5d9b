/**
 * The heap as kernel/memory.c drives it: free blocks, live blocks and the frontier that kbrk moves.
 * What every request keeps, over any run.
 */
module HeapStates {
  import opened MachineTypes
  import opened Dyadic
  import opened FreeBlocks

  const HEAP_BASE := 0xC300_0000

  /** The heap stays below the windows of page_dir_clone. */
  const HEAP_LIMIT := 0xCCCC_0000

  const PAGE_LEVEL := 9

  const MAX_REQUEST := 0x40000

  /** The chain that serves a request: the least one whose blocks are large enough. */
  ghost predicate IsLevelOf(size: nat, level: nat) {
    1 <= level && size <= ListSize(level) && (level > 1 ==> ListSize(level - 1) < size)
  }

  lemma LevelExists(size: nat)
    requires size <= MAX_REQUEST
    ensures exists k: nat :: k <= TOP_LEVEL && IsLevelOf(size, k)
  {
    TopSize();
    var k: nat := 1;
    while ListSize(k) < size
      invariant 1 <= k <= TOP_LEVEL && (k > 1 ==> ListSize(k - 1) < size)
    {
      k := k + 1;
    }
    assert IsLevelOf(size, k);
  }

  ghost function LevelOf(size: nat): (k: nat)
    requires size <= MAX_REQUEST
    ensures k <= TOP_LEVEL && IsLevelOf(size, k)
  {
    LevelExists(size);
    var k: nat :| k <= TOP_LEVEL && IsLevelOf(size, k);
    k
  }

  lemma TopSize()
    ensures ListSize(PAGE_LEVEL) == PAGE_SIZE && ListSize(TOP_LEVEL) == MAX_REQUEST
  {
    assert ListSize(3) == 64;
    assert ListSize(6) == 512;
    assert ListSize(9) == 4096;
    assert ListSize(12) == 0x8000;
  }

  /** A block handed out is at least the request, and under twice it unless it is the smallest. */
  lemma BlockFitsRequest(size: nat)
    requires size <= MAX_REQUEST
    ensures size <= ListSize(LevelOf(size))
    ensures ListSize(LevelOf(size)) < 2 * size || ListSize(LevelOf(size)) == 16
  {
  }

  type Request = size: nat | size <= MAX_REQUEST

  type Live = map<nat, Request>

  /** The block handed out for a live request. */
  ghost function LiveBlock(live: Live, addr: nat): Block
    requires addr in live
  {
    Block(LevelOf(live[addr]), addr)
  }

  ghost predicate Holds(live: Live, x: nat) {
    exists a {:trigger LiveBlock(live, a)} :: a in live && LiveBlock(live, a).Contains(x)
  }

  datatype Heap = Heap(free: set<Block>, live: Live, frontier: nat)

  ghost predicate LiveApart(live: Live) {
    && (forall a :: a in live ==> LiveBlock(live, a).Proper())
    && (forall a, b, x: nat {:trigger LiveBlock(live, a).Contains(x), LiveBlock(live, b).Contains(x)} ::
          a in live && b in live && LiveBlock(live, a).Contains(x) && LiveBlock(live, b).Contains(x) ==> a == b)
  }

  /** Free and live blocks partition the memory from the base to the frontier. */
  ghost predicate Partition(h: Heap) {
    && (forall x: nat :: Covers(h.free, x) ==> !Holds(h.live, x))
    && (forall x: nat :: HEAP_BASE <= x < h.frontier <==> Covers(h.free, x) || Holds(h.live, x))
  }

  ghost predicate Inv(h: Heap) {
    && HEAP_BASE <= h.frontier <= HEAP_LIMIT && Multiple(h.frontier, PAGE_LEVEL)
    && AtRest(h.free) && LiveApart(h.live) && Partition(h)
  }

  /** kbrk(1) and the list_put of its page. */
  ghost function Grow(h: Heap): Heap
    requires Multiple(h.frontier, PAGE_LEVEL)
  {
    h.(free := Put(h.free, Block(PAGE_LEVEL, h.frontier)), frontier := h.frontier + PAGE_SIZE)
  }

  lemma GrowInv(h: Heap)
    requires Inv(h) && h.frontier + PAGE_SIZE <= HEAP_LIMIT
    ensures Inv(Grow(h)) && Apart(h.free, Block(PAGE_LEVEL, h.frontier)) && Block(PAGE_LEVEL, h.frontier).Proper()
    ensures forall x: nat :: Covers(Grow(h).free, x) <==> Covers(h.free, x) || h.frontier <= x < h.frontier + PAGE_SIZE
  {
    TopSize();
    PutCorrect(h.free, Block(PAGE_LEVEL, h.frontier));
    OneSizeAbove(h.frontier, PAGE_LEVEL);
  }

  /** The heap after n pages. */
  ghost function Grown(h: Heap, n: nat): (g: Heap)
    requires Multiple(h.frontier, PAGE_LEVEL)
    ensures Multiple(g.frontier, PAGE_LEVEL) && g.live == h.live && g.frontier == h.frontier + n * PAGE_SIZE
  {
    if n == 0 then h
    else
      TopSize();
      OneSizeAbove(Grown(h, n - 1).frontier, PAGE_LEVEL);
      Grow(Grown(h, n - 1))
  }

  lemma {:induction false} GrownInv(h: Heap, n: nat)
    requires Inv(h) && h.frontier + n * PAGE_SIZE <= HEAP_LIMIT
    ensures Inv(Grown(h, n))
    ensures forall x: nat :: Covers(Grown(h, n).free, x) <==> Covers(h.free, x) || h.frontier <= x < h.frontier + n * PAGE_SIZE
  {
    if n > 0 {
      GrownInv(h, n - 1);
      GrowInv(Grown(h, n - 1));
    }
  }

  /** From any page some multiple of a larger size lies less than that size ahead. */
  lemma {:induction false} NextMultiple(a: nat, k: nat) returns (e: nat)
    requires Multiple(a, PAGE_LEVEL) && PAGE_LEVEL <= k
    ensures Multiple(e, k) && a <= e <= a + ListSize(k) - PAGE_SIZE
    decreases k
  {
    TopSize();
    if k == PAGE_LEVEL {
      e := a;
    } else {
      e := NextMultiple(a, k - 1);
      OneSizeAbove(e, k - 1);
      if !Multiple(e, k) {
        HalfWay(e, k - 1);
        HalfWay(e + ListSize(k - 1), k - 1);
        e := e + ListSize(k - 1);
      }
    }
  }

  /** The most pages a request can need: one, or what reaches the end of the next aligned block. */
  ghost predicate Enough(level: nat, pages: nat) {
    pages >= 1 && (level > PAGE_LEVEL ==> pages * PAGE_SIZE >= 2 * ListSize(level) - PAGE_SIZE)
  }

  /** After that many pages the request can be served. */
  lemma EnoughPages(h: Heap, pages: nat, level: nat)
    requires Inv(h) && h.frontier + pages * PAGE_SIZE <= HEAP_LIMIT
    requires 1 <= level <= TOP_LEVEL && Enough(level, pages)
    ensures Take(Grown(h, pages).free, level).Took?
  {
    TopSize();
    GrownInv(h, pages);
    var g := Grown(h, pages);
    var b;
    if level <= PAGE_LEVEL {
      b := Block(level, h.frontier);
      Shrink(Block(PAGE_LEVEL, h.frontier), level);
    } else {
      var e := NextMultiple(h.frontier, level);
      b := Block(level, e);
    }
    assert WhollyFree(g.free, b);
    TakeComplete(g.free, level);
  }

  /** A request served after growing the heap by just as many pages as it takes. */
  ghost predicate Allocates(h: Heap, size: nat, pages: nat, addr: nat, h': Heap)
    requires Multiple(h.frontier, PAGE_LEVEL) && size <= MAX_REQUEST
  {
    && (forall m: nat :: m < pages ==> Take(Grown(h, m).free, LevelOf(size)).Nothing?)
    && Take(Grown(h, pages).free, LevelOf(size)) == Took(addr, h'.free)
    && h'.live == h.live[addr := size] && h'.frontier == h.frontier + pages * PAGE_SIZE
  }

  /** At most 2 * 2^(i - 9) - 1 pages for a block of level i above a page's. */
  function MostPages(level: nat): (pages: nat)
    requires 1 <= level
    ensures Enough(level, pages)
  {
    if level <= PAGE_LEVEL then 1
    else
      WholePages(level);
      assert ListSize(level) / PAGE_SIZE >= 1;
      2 * (ListSize(level) / PAGE_SIZE) - 1
  }

  /** Fewer pages than that are not more than enough. */
  lemma MostPagesIsLeast(level: nat, pages: nat)
    requires 1 <= level && (pages > 1 ==> !Enough(level, pages - 1))
    ensures pages <= MostPages(level)
  {
  }

  /** A served request needs at most the pages up to the end of the next aligned block. */
  lemma AllocatesPromptly(h: Heap, size: nat, pages: nat, addr: nat, h': Heap)
    requires Inv(h) && size <= MAX_REQUEST && h.frontier + pages * PAGE_SIZE <= HEAP_LIMIT
    requires Allocates(h, size, pages, addr, h')
    ensures pages <= MostPages(LevelOf(size))
    ensures pages * PAGE_SIZE <= if LevelOf(size) <= PAGE_LEVEL then PAGE_SIZE else 2 * ListSize(LevelOf(size)) - PAGE_SIZE
  {
    if LevelOf(size) > PAGE_LEVEL { WholePages(LevelOf(size)); }
    if pages > 1 && Enough(LevelOf(size), pages - 1) {
      EnoughPages(h, pages - 1, LevelOf(size));
      assert false;
    }
    MostPagesIsLeast(LevelOf(size), pages);
  }

  /** Blocks of a page and more are whole pages. */
  lemma {:induction false} WholePages(level: nat)
    requires level >= PAGE_LEVEL
    ensures ListSize(level) % PAGE_SIZE == 0
  {
    TopSize();
    if level > PAGE_LEVEL {
      WholePages(level - 1);
      assert ListSize(level) == 2 * ListSize(level - 1);
    }
  }

  /** One more live block, whose bytes were not held. */
  lemma AddLive(live: Live, addr: nat, size: nat)
    requires size <= MAX_REQUEST && LiveApart(live) && Block(LevelOf(size), addr).Proper()
    requires forall x: nat :: Block(LevelOf(size), addr).Contains(x) ==> !Holds(live, x)
    ensures addr !in live && LiveApart(live[addr := size])
    ensures forall x: nat :: Holds(live[addr := size], x) <==> Holds(live, x) || Block(LevelOf(size), addr).Contains(x)
    ensures forall a :: a in live ==> LiveBlock(live, a).Disjoint(Block(LevelOf(size), addr))
  {
    var b, live' := Block(LevelOf(size), addr), live[addr := size];
    assert b.Contains(addr);
    assert addr in live ==> LiveBlock(live, addr).Contains(addr);
    assert LiveBlock(live', addr) == b;
    assert forall a :: a in live ==> LiveBlock(live', a) == LiveBlock(live, a);
    forall x: nat
      ensures Holds(live', x) <==> Holds(live, x) || b.Contains(x)
    {
      if Holds(live, x) {
        var a :| a in live && LiveBlock(live, a).Contains(x);
        assert LiveBlock(live', a).Contains(x);
      }
      if b.Contains(x) { assert LiveBlock(live', addr).Contains(x); }
    }
  }

  /** What is taken from free memory becomes live; nothing else changes hands. */
  lemma TakenInv(g: Heap, size: nat, addr: nat, h': Heap)
    requires Inv(g) && size <= MAX_REQUEST && Take(g.free, LevelOf(size)) == Took(addr, h'.free)
    requires h'.live == g.live[addr := size] && h'.frontier == g.frontier
    ensures Inv(h') && addr !in g.live && Block(LevelOf(size), addr).Proper()
    ensures HEAP_BASE <= addr && addr + ListSize(LevelOf(size)) <= h'.frontier
    ensures Put(h'.free, Block(LevelOf(size), addr)) == g.free
    ensures forall a :: a in g.live ==> LiveBlock(g.live, a).Disjoint(Block(LevelOf(size), addr))
  {
    var b := Block(LevelOf(size), addr);
    PutUndoesTake(g.free, b.level, addr, h'.free);
    assert forall x: nat :: b.Contains(x) ==> Covers(g.free, x) && !Holds(g.live, x);
    AddLive(g.live, addr, size);
    assert b.Contains(addr) && b.Contains(b.End() - 1);
  }

  /** A request is served with a block disjoint from all live ones, inside the heap. */
  lemma AllocatesInv(h: Heap, size: nat, pages: nat, addr: nat, h': Heap)
    requires Inv(h) && size <= MAX_REQUEST && h.frontier + pages * PAGE_SIZE <= HEAP_LIMIT
    requires Allocates(h, size, pages, addr, h')
    ensures Inv(h') && addr !in h.live
    ensures HEAP_BASE <= addr && addr + ListSize(LevelOf(size)) <= h'.frontier
    ensures forall a :: a in h.live ==> LiveBlock(h.live, a).Disjoint(Block(LevelOf(size), addr))
  {
    GrownInv(h, pages);
    TakenInv(Grown(h, pages), size, addr, h');
  }

  /** A live block given back. */
  ghost function Freed(h: Heap, addr: nat): Heap
    requires addr in h.live && LiveBlock(h.live, addr).Aligned()
  {
    h.(free := Put(h.free, LiveBlock(h.live, addr)), live := h.live - {addr})
  }

  lemma DropLive(live: Live, addr: nat, live': Live)
    requires LiveApart(live) && addr in live
    requires live' == live - {addr}
    ensures LiveApart(live')
    ensures forall x: nat :: Holds(live, x) <==> Holds(live', x) || LiveBlock(live, addr).Contains(x)
    ensures forall x: nat :: Holds(live', x) ==> !LiveBlock(live, addr).Contains(x)
  {
    assert forall a :: a in live' ==> LiveBlock(live', a) == LiveBlock(live, a);
    forall x: nat
      ensures Holds(live, x) <==> Holds(live', x) || LiveBlock(live, addr).Contains(x)
    {
      if a :| a in live && LiveBlock(live, a).Contains(x) {
        if a != addr { assert LiveBlock(live', a).Contains(x); }
      }
      if a :| a in live' && LiveBlock(live', a).Contains(x) { assert LiveBlock(live, a).Contains(x); }
    }
    forall x: nat | Holds(live', x)
      ensures !LiveBlock(live, addr).Contains(x)
    {
      var a :| a in live' && LiveBlock(live', a).Contains(x);
      assert LiveBlock(live, a).Contains(x);
    }
  }

  lemma FreedInv(h: Heap, addr: nat)
    requires Inv(h) && addr in h.live
    ensures Apart(h.free, LiveBlock(h.live, addr)) && Inv(Freed(h, addr))
  {
    var b := LiveBlock(h.live, addr);
    assert Apart(h.free, b) by {
      forall x: nat | b.Contains(x)
        ensures !Covers(h.free, x)
      {
        assert Holds(h.live, x);
      }
    }
    PutCorrect(h.free, b);
    DropLive(h.live, addr, Freed(h, addr).live);
  }

  /** The free blocks, and so every chain, depend on nothing but the live blocks and the frontier. */
  lemma LiveDetermineFree(g: Heap, h: Heap)
    requires Inv(g) && Inv(h) && g.live == h.live && g.frontier == h.frontier
    ensures g.free == h.free
  {
    assert forall x: nat :: Covers(g.free, x) <==> HEAP_BASE <= x < g.frontier && !Holds(g.live, x);
    assert forall x: nat :: Covers(h.free, x) <==> HEAP_BASE <= x < g.frontier && !Holds(g.live, x);
    SameBytesSameBlocks(g.free, h.free);
  }

  /** An allocation that did not grow the heap, undone by its free, leaves no trace. */
  lemma FreeUndoesAlloc(h: Heap, size: nat, addr: nat, h': Heap)
    requires Inv(h) && size <= MAX_REQUEST && Allocates(h, size, 0, addr, h')
    ensures Inv(h') && addr in h'.live && Freed(h', addr) == h
  {
    AllocatesInv(h, size, 0, addr, h');
    FreedInv(h', addr);
    var back := Freed(h', addr);
    assert back.live == h.live && back.frontier == h.frontier;
    LiveDetermineFree(back, h);
  }

  /** Two live blocks given back, one after the other. */
  ghost function FreedTwo(h: Heap, a: nat, b: nat): (h': Heap)
    requires Inv(h) && a in h.live && b in h.live && a != b
    ensures Inv(h') && h'.frontier == h.frontier && h'.live == h.live - {a, b}
  {
    FreedInv(h, a);
    FreedInv(Freed(h, a), b);
    assert h.live - {a} - {b} == h.live - {a, b};
    Freed(Freed(h, a), b)
  }

  /** The order of two frees does not matter. */
  lemma FreesCommute(h: Heap, a: nat, b: nat)
    requires Inv(h) && a in h.live && b in h.live && a != b
    ensures FreedTwo(h, a, b) == FreedTwo(h, b, a)
  {
    var ab, ba := FreedTwo(h, a, b), FreedTwo(h, b, a);
    assert {a, b} == {b, a};
    LiveDetermineFree(ab, ba);
  }

  /** One request: an allocation, as long as the heap stays below its limit, or a free. */
  ghost predicate Step(h: Heap, h': Heap) {
    || (exists size: nat, pages: nat, addr: nat :: AllocStep(h, size, pages, addr, h'))
    || (exists addr: nat :: FreeStep(h, addr, h'))
  }

  ghost predicate AllocStep(h: Heap, size: nat, pages: nat, addr: nat, h': Heap) {
    && size <= MAX_REQUEST && Multiple(h.frontier, PAGE_LEVEL) && h.frontier + pages * PAGE_SIZE <= HEAP_LIMIT
    && Allocates(h, size, pages, addr, h')
  }

  ghost predicate FreeStep(h: Heap, addr: nat, h': Heap) {
    addr in h.live && LiveBlock(h.live, addr).Aligned() && h' == Freed(h, addr)
  }

  const EMPTY_HEAP: Heap := Heap({}, map[], HEAP_BASE)

  lemma BootInv()
    ensures Inv(EMPTY_HEAP)
  {
    ResidueIsRemainder(HEAP_BASE, PAGE_LEVEL);
    TopSize();
  }

  /** A request keeps the invariant. */
  lemma StepInv(h: Heap, h': Heap)
    requires Inv(h) && Step(h, h')
    ensures Inv(h')
  {
    if size: nat, pages: nat, addr: nat :| AllocStep(h, size, pages, addr, h') {
      AllocatesInv(h, size, pages, addr, h');
    } else {
      var addr: nat :| FreeStep(h, addr, h');
      FreedInv(h, addr);
    }
  }

  /** Over any run from boot, free and live blocks partition the heap and free blocks are coalesced. */
  lemma {:induction false} RunInv(run: seq<Heap>)
    requires run != [] && run[0] == EMPTY_HEAP
    requires forall i :: 0 <= i < |run| - 1 ==> Step(run[i], run[i + 1])
    ensures Inv(run[|run| - 1])
    decreases |run|
  {
    if |run| == 1 {
      BootInv();
    } else {
      RunInv(run[..|run| - 1]);
      assert Step(run[|run| - 2], run[|run| - 2 + 1]);
      StepInv(run[|run| - 2], run[|run| - 1]);
    }
  }
}

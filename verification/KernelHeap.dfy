/** kernel/memory.c and the front end of kernel/kmalloc.c: kbrk, mem_alloc, mem_free, kmalloc, kfree. */
module KernelHeap {
  import opened MachineTypes
  import opened Dyadic
  import opened FreeBlocks
  import opened Chains
  import opened Kmalloc
  import opened HeapStates
  import opened PoolBound

  /** The bytes asked for by some of the live requests. */
  ghost function RequestedBy(live: Live, some: set<nat>): nat
    requires some <= live.Keys
  {
    if some == {} then 0
    else
      var a :| a in some;
      live[a] + RequestedBy(live, some - {a})
  }

  ghost function Requested(live: Live): nat {
    RequestedBy(live, live.Keys)
  }

  /** Whichever request is counted first. */
  lemma {:induction false} RequestedWithout(live: Live, some: set<nat>, a: nat)
    requires a in some && some <= live.Keys
    ensures RequestedBy(live, some) == live[a] + RequestedBy(live, some - {a})
  {
    var b :| b in some && RequestedBy(live, some) == live[b] + RequestedBy(live, some - {b});
    if a != b {
      RequestedWithout(live, some - {b}, a);
      RequestedWithout(live, some - {a}, b);
      assert some - {b} - {a} == some - {a} - {b};
    }
  }

  lemma {:induction false} RequestedAlike(live: Live, live': Live, some: set<nat>)
    requires some <= live.Keys && some <= live'.Keys && forall a :: a in some ==> live[a] == live'[a]
    ensures RequestedBy(live, some) == RequestedBy(live', some)
  {
    if a :| a in some {
      RequestedWithout(live, some, a);
      RequestedWithout(live', some, a);
      RequestedAlike(live, live', some - {a});
    }
  }

  /** Counting one more request keeps the sum. */
  lemma CountOneMore(live: Live, addr: nat, size: nat)
    requires addr !in live && size <= MAX_REQUEST
    ensures Requested(live[addr := size]) == Requested(live) + size
  {
    var live' := live[addr := size];
    RequestedWithout(live', live'.Keys, addr);
    assert live'.Keys - {addr} == live.Keys;
    RequestedAlike(live, live', live.Keys);
  }

  /** Counting one off keeps it too. */
  lemma CountOneLess(live: Live, addr: nat)
    requires addr in live
    ensures Requested(live - {addr}) == Requested(live) - live[addr]
  {
    var live' := live - {addr};
    RequestedWithout(live, live.Keys, addr);
    assert live.Keys - {addr} == live'.Keys;
    RequestedAlike(live, live', live'.Keys);
  }

  /** The heap and the count that kmalloc and kfree keep of it. */
  datatype Memory = Memory(heap: Heap, stats: uint32)

  /** The count is the sum of the live requests, in 32 bits. */
  ghost predicate Counted(m: Memory) {
    m.stats == Wrap(Requested(m.heap.live))
  }

  ghost predicate CountedAlloc(m: Memory, size: nat, pages: nat, addr: nat, m': Memory) {
    AllocStep(m.heap, size, pages, addr, m'.heap) && m'.stats == Wrap(m.stats + size)
  }

  ghost predicate CountedFree(m: Memory, addr: nat, m': Memory) {
    FreeStep(m.heap, addr, m'.heap) && m'.stats == Wrap(m.stats - m.heap.live[addr])
  }

  /** One kmalloc, or one kfree that gives back the size it was asked for. */
  ghost predicate CountedStep(m: Memory, m': Memory) {
    || (exists size: nat, pages: nat, addr: nat :: CountedAlloc(m, size, pages, addr, m'))
    || (exists addr: nat :: CountedFree(m, addr, m'))
  }

  /** Over any run from boot the count is the sum of the live requests, in 32 bits. */
  lemma {:induction false} RunCounts(run: seq<Memory>)
    requires run != [] && run[0] == Memory(EMPTY_HEAP, 0)
    requires forall i :: 0 <= i < |run| - 1 ==> CountedStep(run[i], run[i + 1])
    ensures Inv(run[|run| - 1].heap) && Counted(run[|run| - 1])
    decreases |run|
  {
    if |run| == 1 {
      BootInv();
    } else {
      RunCounts(run[..|run| - 1]);
      assert CountedStep(run[|run| - 2], run[|run| - 2 + 1]);
      StepCounts(run[|run| - 2], run[|run| - 1]);
    }
  }

  lemma AllocKeeps(m: Memory, size: nat, pages: nat, addr: nat, m': Memory)
    requires Inv(m.heap) && CountedAlloc(m, size, pages, addr, m')
    ensures Inv(m'.heap) && addr !in m.heap.live
  {
    AllocatesInv(m.heap, size, pages, addr, m'.heap);
  }

  lemma AllocCounts(m: Memory, size: nat, m': Memory, addr: nat)
    requires addr !in m.heap.live && size <= MAX_REQUEST && Counted(m)
    requires m'.heap.live == m.heap.live[addr := size] && m'.stats == Wrap(m.stats + size)
    ensures Counted(m')
  {
    CountOneMore(m.heap.live, addr, size);
    WrapOnce(Requested(m.heap.live), size);
  }

  lemma AllocKeepsCount(m: Memory, size: nat, pages: nat, addr: nat, m': Memory)
    requires Inv(m.heap) && CountedAlloc(m, size, pages, addr, m') && Counted(m)
    ensures Inv(m'.heap) && Counted(m')
  {
    assert addr !in m.heap.live by { AllocKeeps(m, size, pages, addr, m'); }
    AllocCounts(m, size, m', addr);
    AllocKeeps(m, size, pages, addr, m');
  }

  lemma FreeCounts(m: Memory, addr: nat, m': Memory)
    requires Inv(m.heap) && CountedFree(m, addr, m') && Counted(m)
    ensures Inv(m'.heap) && Counted(m')
  {
    var size: int := m.heap.live[addr];
    WrapOnce(Requested(m.heap.live), -size);
    FreedInv(m.heap, addr);
    CountOneLess(m.heap.live, addr);
  }

  lemma StepCounts(m: Memory, m': Memory)
    requires Inv(m.heap) && CountedStep(m, m') && Counted(m)
    ensures Inv(m'.heap) && Counted(m')
  {
    if size: nat, pages: nat, addr: nat :| CountedAlloc(m, size, pages, addr, m') {
      AllocKeepsCount(m, size, pages, addr, m');
    } else {
      var addr: nat :| CountedFree(m, addr, m');
      FreeCounts(m, addr, m');
    }
  }

  /** Free memory above the heap's base is addressable. */
  lemma FreeIsAddressable(h: Heap)
    requires Inv(h)
    ensures Addressable(h.free)
  {
    forall b | b in h.free
      ensures 0 < b.addr && b.End() <= WORD
    {
      assert b.Contains(b.addr) && b.Contains(b.End() - 1);
      assert Covers(h.free, b.addr) && Covers(h.free, b.End() - 1);
    }
  }

  /** The free blocks of any heap up to this frontier, and one request's splitting, fit in the node array. */
  ghost predicate Roomy(n: nat, frontier: nat)
    requires frontier >= HEAP_BASE
  {
    MostFree(n, frontier) + TOP_LEVEL - 1 < NODES
  }

  lemma RoomToTake(h: Heap, frontier: nat, list: nat)
    requires Inv(h) && h.frontier <= frontier && Roomy(|h.live|, frontier) && 1 <= list
    ensures |h.free| + 1 < NODES
    ensures forall c :: BestFit(h.free, list, c) ==> |Carved(h.free, list, c)| < NODES
  {
    FreeBound(h);
    forall c | BestFit(h.free, list, c)
      ensures |Carved(h.free, list, c)| < NODES
    {
      TakeIs(h.free, list, c);
      TakeCorrect(h.free, list, c.addr, Carved(h.free, list, c));
    }
  }

  /** A request belongs to one level. */
  lemma LevelUnique(size: nat, i: nat, j: nat)
    requires IsLevelOf(size, i) && IsLevelOf(size, j)
    ensures i == j
  {
    if i < j - 1 { SizesGrow(i, j - 1); }
    if j < i - 1 { SizesGrow(j, i - 1); }
  }

  /** The heap does not serve a level with fewer than n more pages. */
  ghost predicate NoneServed(h: Heap, level: nat, n: nat)
    requires Multiple(h.frontier, PAGE_LEVEL)
  {
    forall m: nat :: m < n ==> Take(Grown(h, m).free, level).Nothing?
  }

  lemma OneMoreUnserved(h: Heap, level: nat, n: nat)
    requires Multiple(h.frontier, PAGE_LEVEL) && NoneServed(h, level, n) && Take(Grown(h, n).free, level).Nothing?
    ensures NoneServed(h, level, n + 1)
  {
  }

  /** Putting blocks of chains back gives blocks of chains. */
  lemma {:induction false} PutLevels(free: set<Block>, b: Block)
    requires b.Aligned() && b.level <= TOP_LEVEL && forall c :: c in free ==> c.level <= TOP_LEVEL
    ensures forall c :: c in Put(free, b) ==> c.level <= TOP_LEVEL
    decreases TOP_LEVEL - b.level
  {
    if b.level < TOP_LEVEL && b.Buddy() in free {
      BuddyPair(b);
      PutLevels(free - {b.Buddy()}, b.Parent());
    }
  }

  lemma {:induction false} GrownLevels(h: Heap, n: nat)
    requires Inv(h)
    ensures forall c :: c in Grown(h, n).free ==> c.level <= TOP_LEVEL
  {
    if n == 0 {
      assert forall c :: c in h.free ==> c.Proper();
    } else {
      GrownLevels(h, n - 1);
      PutLevels(Grown(h, n - 1).free, Block(PAGE_LEVEL, Grown(h, n - 1).frontier));
    }
  }

  /** A request of more than 2^18 bytes is not served from any heap, however many pages it grows by: mem_alloc does not return. */
  lemma OversizedNeverServed(h: Heap, size: nat, level: nat, n: nat)
    requires Inv(h) && size > MAX_REQUEST && (IsLevelOf(size, level) || level == NODES)
    ensures level > TOP_LEVEL && NoneServed(h, level, n)
  {
    TopSize();
    if level < TOP_LEVEL { SizesGrow(level, TOP_LEVEL); }
    forall m: nat | m < n
      ensures Take(Grown(h, m).free, level).Nothing?
    {
      GrownLevels(h, m);
      TakesNothing(Grown(h, m).free, level);
    }
  }

  /** With enough pages for its level, a request is served if and only if it is not oversized. */
  lemma ServedIffNotOversized(h: Heap, size: nat, level: nat, pages: nat)
    requires Inv(h) && IsLevelOf(size, level) && Enough(level, pages)
    requires size <= MAX_REQUEST ==> h.frontier + pages * PAGE_SIZE <= HEAP_LIMIT
    ensures Take(Grown(h, pages).free, level).Took? <==> size <= MAX_REQUEST
  {
    TopSize();
    if size <= MAX_REQUEST {
      if TOP_LEVEL < level - 1 { SizesGrow(TOP_LEVEL, level - 1); }
      EnoughPages(h, pages, level);
    } else {
      OversizedNeverServed(h, size, level, pages + 1);
    }
  }

  /** Level 28 is the last whose size fits in a word. */
  lemma {:induction false} WordSizes(k: nat)
    requires k <= 28
    ensures ListSize(k) <= 0x8000_0000 && (ListSize(k) == 0x8000_0000 <==> k == 28)
    decreases 28 - k
  {
    if k < 28 {
      WordSizes(k + 1);
    } else {
      TopSize();
      assert ListSize(18) == 0x20_0000;
      assert ListSize(21) == 0x100_0000;
      assert ListSize(24) == 0x800_0000;
      assert ListSize(27) == 0x4000_0000;
    }
  }

  /** What is taken after n pages, having been refused before, serves the request. */
  lemma ServedHere(h: Heap, size: nat, n: nat, addr: nat, h': Heap)
    requires Inv(h) && size <= MAX_REQUEST && h.frontier + n * PAGE_SIZE <= HEAP_LIMIT && NoneServed(h, LevelOf(size), n)
    requires Take(Grown(h, n).free, LevelOf(size)) == Took(addr, h'.free)
    requires h'.live == h.live[addr := size] && h'.frontier == h.frontier + n * PAGE_SIZE
    ensures Allocates(h, size, n, addr, h') && Inv(h') && addr !in h.live
  {
    AllocatesInv(h, size, n, addr, h');
  }

  /** While a request is not served, fewer pages came than it can need. */
  lemma MorePagesToCome(h: Heap, level: nat, n: nat)
    requires Inv(h) && 1 <= level <= TOP_LEVEL && n <= MostPages(level) && h.frontier + MostPages(level) * PAGE_SIZE <= HEAP_LIMIT
    requires NoneServed(h, level, n + 1)
    ensures n < MostPages(level)
  {
    if n == MostPages(level) { EnoughPages(h, n, level); }
  }

  /** Memory after n bytes from an address on were set. */
  function Filled(bytes: map<nat, uint8>, buf: nat, value: uint8, n: nat): map<nat, uint8> {
    if n == 0 then bytes else Filled(bytes, buf, value, n - 1)[buf + n - 1 := value]
  }

  /** Just these bytes have the value, and the others are what they were. */
  lemma {:induction false} FilledAt(bytes: map<nat, uint8>, buf: nat, value: uint8, n: nat, x: nat)
    ensures var bytes' := Filled(bytes, buf, value, n);
            if buf <= x < buf + n then x in bytes' && bytes'[x] == value
            else (x in bytes' <==> x in bytes) && (x in bytes ==> bytes'[x] == bytes[x])
  {
    if n > 0 { FilledAt(bytes, buf, value, n - 1, x); }
  }

  /** The bytes asked for lie in the heap. */
  lemma InReach(h: Heap, size: nat, pages: nat, addr: nat, h': Heap)
    requires Inv(h) && size <= MAX_REQUEST && h.frontier + pages * PAGE_SIZE <= HEAP_LIMIT && Allocates(h, size, pages, addr, h')
    ensures addr + size <= HEAP_LIMIT
  {
    AllocatesInv(h, size, pages, addr, h');
  }

  /** A new block is zero, and no byte of a live request is changed for it. */
  lemma NewBlockZeroed(h: Heap, size: nat, pages: nat, addr: nat, h': Heap, bytes: map<nat, uint8>, a: nat, x: nat)
    requires Inv(h) && size <= MAX_REQUEST && h.frontier + pages * PAGE_SIZE <= HEAP_LIMIT && Allocates(h, size, pages, addr, h')
    ensures var bytes' := Filled(bytes, addr, 0, size);
            && (addr <= x < addr + size ==> x in bytes' && bytes'[x] == 0)
            && (a in h.live && a <= x < a + h.live[a] ==> (x in bytes' <==> x in bytes) && (x in bytes ==> bytes'[x] == bytes[x]))
  {
    FilledAt(bytes, addr, 0, size, x);
    AllocatesInv(h, size, pages, addr, h');
    if a in h.live && a <= x < a + h.live[a] {
      BlockFitsRequest(size);
      BlockFitsRequest(h.live[a]);
      assert LiveBlock(h.live, a).Contains(x);
    }
  }

  class KernelMemory {
    const alloc: MemAllocator
    var heap: uint32
    var stats: uint32
    var bytes: map<nat, uint8>  // what the heap's memory holds, where it was written

    ghost var live: Live

    ghost function State(): Heap
      reads this`heap, this`live, alloc
    {
      Heap(alloc.free, live, heap)
    }

    ghost predicate Valid()
      reads this`heap, this`live, alloc, alloc.heads, alloc.nodes
    {
      alloc.Valid() && alloc.held == {} && Inv(State())
    }

    /** The part of mem_init that concerns the heap. */
    constructor ()
      ensures Valid() && State() == EMPTY_HEAP && stats == 0
      ensures fresh(alloc) && fresh(alloc.heads) && fresh(alloc.nodes)
    {
      alloc := new MemAllocator();
      heap, stats := HEAP_BASE, 0;
      live := map[];
      BootInv();
    }

    /** The frontier moves up by whole pages; the old one is returned. */
    method Kbrk(pages: uint32) returns (res: uint32)
      requires heap + pages * PAGE_SIZE < WORD
      modifies this`heap
      ensures res == old(heap) && heap == old(heap) + pages * PAGE_SIZE
    {
      res := heap;
      var i: uint32 := 0;
      while i < pages
        invariant i <= pages && heap == res + i * PAGE_SIZE
      {
        heap := heap + PAGE_SIZE;
        i := i + 1;
      }
    }

    /** The loop of mem_alloc, for any size: past 2^31 the doubled block size wraps to 0 and it runs out. */
    method AllocLevel(size: uint32) returns (i: uint16)
      ensures size <= 0x8000_0000 ==> IsLevelOf(size, i)
      ensures size > 0x8000_0000 ==> i == NODES
    {
      var blockSize: uint32 := ListSize(1);
      i := 1;
      while i < NODES && size > blockSize
        invariant 1 <= i <= NODES && blockSize == if i <= 28 then ListSize(i) else 0
        invariant i > 28 ==> size > 0x8000_0000
        invariant 1 < i <= 28 ==> ListSize(i - 1) < size
        decreases NODES - i
      {
        if i <= 28 { WordSizes(i); }
        i, blockSize := i + 1, Wrap(2 * blockSize);
      }
      if i <= 28 { WordSizes(i); }
    }

    /** Growing the heap and trying again, mem_alloc has come n pages from the heap h. */
    ghost predicate Serving(h: Heap, size: nat, n: nat)
      requires size <= MAX_REQUEST
      reads this`heap, this`live, alloc, alloc.heads, alloc.nodes
    {
      && alloc.Valid() && alloc.held == {}
      && Inv(h) && n <= MostPages(LevelOf(size))
      && h.frontier + MostPages(LevelOf(size)) * PAGE_SIZE <= HEAP_LIMIT
      && Roomy(|h.live|, h.frontier + MostPages(LevelOf(size)) * PAGE_SIZE)
      && State() == Grown(h, n)
      && NoneServed(h, LevelOf(size), n)
    }

    /** A request may be served when heap and pool have room for it. */
    ghost predicate CanServe(size: nat)
      requires size <= MAX_REQUEST
      reads this`heap, this`live, alloc, alloc.heads, alloc.nodes
    {
      && alloc.Valid() && alloc.held == {} && Inv(State())
      && heap + MostPages(LevelOf(size)) * PAGE_SIZE <= HEAP_LIMIT
      && Roomy(|live|, heap + MostPages(LevelOf(size)) * PAGE_SIZE)
    }

    /** After n pages the request was served with the block at an address. */
    ghost predicate Served(h: Heap, size: nat, n: nat, addr: nat)
      requires Inv(h) && size <= MAX_REQUEST
      reads this`heap, this`live, alloc, alloc.heads, alloc.nodes
    {
      && alloc.Valid() && alloc.held == {}
      && h.frontier + n * PAGE_SIZE <= HEAP_LIMIT && Allocates(h, size, n, addr, State())
      && Inv(State()) && addr !in h.live && live == h.live[addr := size]
    }

    /** mem_alloc(size): ends after at most MostPages calls of kbrk, with the request served. */
    method MemAlloc(size: uint32, ghost h: Heap, ghost n: nat) returns (result: uint32, ghost pages: nat)
      requires size <= MAX_REQUEST && Serving(h, size, n)
      modifies this`heap, this`live, alloc, alloc.heads, alloc.nodes
      ensures pages <= MostPages(LevelOf(size)) && Served(h, size, pages, result)
      decreases MostPages(LevelOf(size)) - n, 1
    {
      result := Attempt(size, h, n);
      pages := n;
      if result == 0 {
        result, pages := AddPageAndRetry(size, h, n);
      }
    }

    /** The second half: one more page, and the recursive call. */
    method AddPageAndRetry(size: uint32, ghost h: Heap, ghost n: nat) returns (result: uint32, ghost pages: nat)
      requires size <= MAX_REQUEST && Serving(h, size, n) && |alloc.free| + 1 < NODES && NoneServed(h, LevelOf(size), n + 1)
      modifies this`heap, this`live, alloc, alloc.heads, alloc.nodes
      ensures pages <= MostPages(LevelOf(size)) && Served(h, size, pages, result)
      decreases MostPages(LevelOf(size)) - n, 0
    {
      AddPage(size, h, n);
      result, pages := MemAlloc(size, h, n + 1);
    }

    /** The first half of mem_alloc: the request is served with the heap as it is, or cannot be. */
    method Attempt(size: uint32, ghost h: Heap, ghost n: nat) returns (result: uint32)
      requires size <= MAX_REQUEST && Serving(h, size, n)
      modifies this`live, alloc, alloc.heads, alloc.nodes
      ensures result != 0 ==> Served(h, size, n, result)
      ensures result == 0 ==> Serving(h, size, n) && NoneServed(h, LevelOf(size), n + 1) && |alloc.free| + 1 < NODES
    {
      var i := AllocLevel(size);
      assert i == LevelOf(size) by { LevelUnique(size, i, LevelOf(size)); }
      result := 0;
      if i != NODES {
        result := TryGet(i, size, h, n);
      }
    }

    /** The attempt of mem_alloc at a level. */
    method TryGet(i: uint16, size: uint32, ghost h: Heap, ghost n: nat) returns (result: uint32)
      requires size <= MAX_REQUEST && Serving(h, size, n) && i == LevelOf(size)
      modifies this`live, alloc, alloc.heads, alloc.nodes
      ensures result != 0 ==> Served(h, size, n, result)
      ensures result == 0 ==> Serving(h, size, n) && NoneServed(h, LevelOf(size), n + 1) && |alloc.free| + 1 < NODES
    {
      ghost var g := Grown(h, n);
      result := GetFrom(i, size, h, n);
      if result != 0 {
        live := live[result := size];
        ServedHere(h, size, n, result, State());
      } else {
        OneMoreUnserved(h, i, n);
      }
    }

    /** The call of list_get by mem_alloc. */
    method GetFrom(i: uint16, size: uint32, ghost h: Heap, ghost n: nat) returns (result: uint32)
      requires size <= MAX_REQUEST && Serving(h, size, n) && i == LevelOf(size)
      modifies alloc, alloc.heads, alloc.nodes
      ensures alloc.Valid() && alloc.held == {}
      ensures result == 0 ==> Take(Grown(h, n).free, i).Nothing? && alloc.free == old(alloc.free) && |alloc.free| + 1 < NODES
      ensures result != 0 ==> Take(Grown(h, n).free, i) == Took(result, alloc.free)
    {
      ghost var g := Grown(h, n);
      assert AtRest(g.free) && Addressable(g.free) && alloc.PoolSuffices(i) && |g.free| + 1 < NODES by {
        GrownInv(h, n);
        FreeIsAddressable(g);
        RoomToTake(g, h.frontier + MostPages(i) * PAGE_SIZE, i);
      }
      ghost var c;
      result, c := alloc.ListGet(i);
      if result != 0 {
        TakeIs(g.free, i, c);
      } else {
        TakesNothing(g.free, i);
      }
    }

    /** A page is added to the heap as a free block. */
    method AddPage(ghost size: nat, ghost h: Heap, ghost n: nat)
      requires size <= MAX_REQUEST && Serving(h, size, n)
      requires |alloc.free| + 1 < NODES && NoneServed(h, LevelOf(size), n + 1)
      modifies this`heap, alloc, alloc.heads, alloc.nodes
      ensures Serving(h, size, n + 1) && live == old(live)
    {
      MorePagesToCome(h, LevelOf(size), n);
      assert h.frontier + (n + 1) * PAGE_SIZE <= HEAP_LIMIT;
      ghost var g := Grown(h, n);
      assert Inv(g) && CanPut(g.free, Block(PAGE_LEVEL, g.frontier)) by {
        GrownInv(h, n);
        GrowInv(g);
      }
      var page := Kbrk(1);
      var newNode := alloc.NodeNew(page);
      alloc.ListPut(9, newNode);
      assert State() == Grow(g) == Grown(h, n + 1);
    }

    /** mem_free(addr, size): the block that was handed out for the request is free again. */
    method MemFree(addr: uint32, size: uint32)
      requires alloc.Valid() && alloc.held == {} && alloc.chains[0] != [] && size <= MAX_REQUEST
      requires CanPut(alloc.free, Block(LevelOf(size), addr))
      modifies alloc, alloc.heads, alloc.nodes
      ensures alloc.Valid() && alloc.held == {}
      ensures alloc.free == Put(old(alloc.free), Block(LevelOf(size), addr))
    {
      var i: uint8 := 1;
      var blockSize: uint32 := ListSize(1);
      var newNode := alloc.NodeNew(addr);
      TopSize();
      while size > blockSize
        invariant alloc.Valid() && alloc.held == {newNode} && alloc.nodes[newNode].addr == addr
        invariant alloc.free == old(alloc.free)
        invariant 1 <= i <= TOP_LEVEL && blockSize == ListSize(i)
        invariant i > 1 ==> ListSize(i - 1) < size
        decreases TOP_LEVEL - i
      {
        WordSizes(i + 1);
        i, blockSize := i + 1, Wrap(2 * blockSize);
      }
      LevelUnique(size, i, LevelOf(size));
      alloc.ListPut(i, newNode);
    }

    /** kmemset */
    method Kmemset(buf: uint32, value: uint8, size: uint32)
      requires buf + size <= WORD
      modifies this`bytes
      ensures bytes == Filled(old(bytes), buf, value, size)
    {
      var i: uint32 := 0;
      while i < size
        invariant i <= size && bytes == Filled(old(bytes), buf, value, i)
      {
        bytes := bytes[buf + i := value];
        i := i + 1;
      }
    }

    /** The request is counted and served. */
    method Obtain(size: uint32) returns (buf: uint32, ghost pages: nat)
      requires Valid() && size <= MAX_REQUEST && CanServe(size)
      modifies this`heap, this`stats, this`live, alloc, alloc.heads, alloc.nodes
      ensures Valid() && stats == Wrap(old(stats) + size) && buf + size <= HEAP_LIMIT
      ensures pages <= MostPages(LevelOf(size)) && Allocates(old(State()), size, pages, buf, State())
      ensures buf !in old(live) && live == old(live)[buf := size]
    {
      ghost var h := State();
      stats := Wrap(stats + size);
      buf, pages := MemAlloc(size, h, 0);
      ghost var h' := State();
      assert buf + size <= HEAP_LIMIT by { InReach(h, size, pages, buf, h'); }
    }

    /** kmalloc: a block apart from everything live, big enough and zeroed, after the fewest pages that serve it. */
    method Kmalloc(size: uint32) returns (buf: uint32, ghost pages: nat)
      requires Valid() && size <= MAX_REQUEST && CanServe(size)
      modifies this, alloc, alloc.heads, alloc.nodes
      ensures Valid() && stats == Wrap(old(stats) + size)
      ensures pages <= MostPages(LevelOf(size)) && Allocates(old(State()), size, pages, buf, State())
      ensures buf !in old(live) && live == old(live)[buf := size]
      ensures bytes == Filled(old(bytes), buf, 0, size)
    {
      buf, pages := Obtain(size);
      Kmemset(buf, 0, size);
    }

    /** kfree: the block of a live request of this size class is free, coalesced with its buddies. */
    method Kfree(ptr: uint32, size: uint32)
      requires Valid() && ptr in live && size <= MAX_REQUEST && LevelOf(size) == LevelOf(live[ptr])
      requires MostFree(|live|, heap) + 1 < NODES
      modifies this, alloc, alloc.heads, alloc.nodes
      ensures Valid() && State() == Freed(old(State()), ptr)
      ensures stats == Wrap(old(stats) - size)
    {
      ghost var h := State();
      assert alloc.chains[0] != [] by { FreeBound(h); }
      FreedInv(h, ptr);
      ghost var h' := Freed(h, ptr);
      stats := Wrap(stats - size);
      MemFree(ptr, size);
      live := h'.live;
      assert State() == h';
    }
  }
}

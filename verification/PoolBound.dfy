/** How many nodes the chains can need: the free blocks are few when the live blocks are few. */
module PoolBound {
  import opened Dyadic
  import opened FreeBlocks
  import opened HeapStates

  ghost function AtLevel(free: set<Block>, level: nat): set<Block> {
    set b | b in free && b.level == level
  }

  /** An injective map into a set bounds the size of its domain. */
  lemma {:induction false} InjectionBounds(from: set<Block>, image: map<Block, nat>, to: set<nat>)
    requires from <= image.Keys && forall b :: b in from ==> image[b] in to
    requires forall b, c :: b in from && c in from && image[b] == image[c] ==> b == c
    ensures |from| <= |to|
    decreases |from|
  {
    if b :| b in from {
      InjectionBounds(from - {b}, image, to - {image[b]});
    }
  }

  /** The buddy of a free block below the top level holds live bytes or reaches past the frontier. */
  ghost predicate Witness(h: Heap, b: Block, a: nat)
    requires b.Aligned()
  {
    if a == 0 then h.frontier > 0 && b.Parent().Contains(h.frontier - 1) && h.frontier < b.Parent().End()
    else a in h.live && LiveBlock(h.live, a).Within(b.Buddy())
  }

  lemma BuddyIsTaken(h: Heap, b: Block) returns (a: nat)
    requires Inv(h) && b in h.free && b.level < TOP_LEVEL
    ensures b.Aligned() && Witness(h, b, a)
  {
    assert b.Proper();
    BuddyPair(b);
    FreeBlocksAreMaximal(h.free, b);
    var x: nat :| b.Parent().Contains(x) && !Covers(h.free, x);
    assert b.Contains(b.addr) && Covers(h.free, b.addr) && !b.Contains(x) && b.Buddy().Contains(x);
    if x >= h.frontier {
      a := 0;
    } else {
      BelowTop(b.Parent(), b.addr);
      assert Holds(h.live, x);
      a :| a in h.live && LiveBlock(h.live, a).Contains(x);
      var l := LiveBlock(h.live, a);
      assert l.Proper();
      assert l.Contains(b.addr) ==> Holds(h.live, b.addr);
      if l.level > b.level {
        Nested(b.Parent(), l, x);
        assert false;
      }
      Nested(l, b.Buddy(), x);
      assert l.addr > 0;
    }
  }

  /** Blocks up to the top level that reach above the heap's base lie above it. */
  lemma BelowTop(b: Block, x: nat)
    requires b.Aligned() && b.level <= TOP_LEVEL && b.Contains(x) && x >= HEAP_BASE
    ensures b.addr >= HEAP_BASE
  {
    if b.addr < HEAP_BASE {
      var base := Block(TOP_LEVEL, HEAP_BASE);
      TopSize();
      ResidueIsRemainder(HEAP_BASE, TOP_LEVEL);
      Shrink(base, b.level);
      CloseMultiples(b.addr, HEAP_BASE, b.level);
    }
  }

  /** Two free blocks of one level have different witnesses. */
  lemma WitnessesDiffer(h: Heap, b: Block, c: Block, a: nat)
    requires Inv(h) && b in h.free && c in h.free && b.level == c.level < TOP_LEVEL
    requires b.Aligned() && c.Aligned() && Witness(h, b, a) && Witness(h, c, a)
    ensures b == c
  {
    BuddyPair(b);
    BuddyPair(c);
    if a == 0 {
      SameSizeOverlap(b.Parent(), c.Parent(), h.frontier - 1);
    } else {
      SameSizeOverlap(b.Buddy(), c.Buddy(), a);
    }
  }

  /** On a chain below the top there are at most as many blocks as live ones, and one more. */
  lemma LevelBound(h: Heap, level: nat)
    requires Inv(h) && 1 <= level < TOP_LEVEL
    ensures |AtLevel(h.free, level)| <= |h.live| + 1
  {
    var blocks := AtLevel(h.free, level);
    var image := map[];
    var todo := blocks;
    while todo != {}
      invariant todo <= blocks && image.Keys == blocks - todo
      invariant forall b :: b in image ==> b.Aligned() && Witness(h, b, image[b])
      decreases |todo|
    {
      var b :| b in todo;
      var a := BuddyIsTaken(h, b);
      image := image[b := a];
      todo := todo - {b};
    }
    forall b, c | b in blocks && c in blocks && image[b] == image[c]
      ensures b == c
    {
      WitnessesDiffer(h, b, c, image[b]);
    }
    InjectionBounds(blocks, image, h.live.Keys + {0});
  }

  ghost function FirstNumbers(n: nat): (s: set<nat>)
    ensures |s| == n && forall i: nat :: i in s <==> i < n
  {
    if n == 0 then {} else FirstNumbers(n - 1) + {n - 1}
  }

  /** Top-level blocks are as many as fit. */
  lemma TopBound(h: Heap)
    requires Inv(h)
    ensures |AtLevel(h.free, TOP_LEVEL)| <= (h.frontier - HEAP_BASE) / MAX_REQUEST
  {
    var blocks := AtLevel(h.free, TOP_LEVEL);
    var n: nat := (h.frontier - HEAP_BASE) / MAX_REQUEST;
    TopSize();
    forall b | b in blocks
      ensures HEAP_BASE <= b.addr && b.addr + MAX_REQUEST <= h.frontier
    {
      assert b.Contains(b.addr) && b.Contains(b.End() - 1);
      assert Covers(h.free, b.addr) && Covers(h.free, b.End() - 1);
    }
    var image: map<Block, nat> := map b | b in blocks :: (b.addr - HEAP_BASE) / MAX_REQUEST;
    forall b, c | b in blocks && c in blocks && image[b] == image[c]
      ensures b == c
    {
      assert b.Proper() && c.Proper();
      CloseMultiples(b.addr, c.addr, TOP_LEVEL);
    }
    InjectionBounds(blocks, image, FirstNumbers(n));
  }

  ghost function UpTo(free: set<Block>, level: nat): set<Block> {
    set b | b in free && b.level <= level
  }

  lemma OneLevelMore(free: set<Block>, level: nat)
    ensures |UpTo(free, level + 1)| <= |UpTo(free, level)| + |AtLevel(free, level + 1)|
  {
    assert UpTo(free, level + 1) == UpTo(free, level) + AtLevel(free, level + 1);
  }

  lemma {:induction false} UpToBound(free: set<Block>, n: nat, level: nat)
    requires forall b :: b in free ==> 1 <= b.level
    requires forall k :: 1 <= k <= level ==> |AtLevel(free, k)| <= n
    ensures |UpTo(free, level)| <= level * n
  {
    if level == 0 {
      assert UpTo(free, 0) == {};
    } else {
      UpToBound(free, n, level - 1);
      OneLevelMore(free, level - 1);
      assert level * n == (level - 1) * n + n;
    }
  }

  /** The nodes that free blocks can take up when n blocks are live and the heap ends at the frontier. */
  function MostFree(n: nat, frontier: nat): nat
    requires frontier >= HEAP_BASE
  {
    (TOP_LEVEL - 1) * (n + 1) + (frontier - HEAP_BASE) / MAX_REQUEST
  }

  lemma FreeBound(h: Heap)
    requires Inv(h)
    ensures |h.free| <= MostFree(|h.live|, h.frontier)
    ensures |h.free| <= 14 * (|h.live| + 1) + (h.frontier - HEAP_BASE) / 0x4_0000
  {
    assert forall b :: b in h.free ==> b.Proper();
    forall k | 1 <= k < TOP_LEVEL
      ensures |AtLevel(h.free, k)| <= |h.live| + 1
    {
      LevelBound(h, k);
    }
    UpToBound(h.free, |h.live| + 1, TOP_LEVEL - 1);
    OneLevelMore(h.free, TOP_LEVEL - 1);
    assert h.free == UpTo(h.free, TOP_LEVEL);
    TopBound(h);
  }
}

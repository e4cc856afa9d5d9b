/**
 * The set of free blocks that the allocator's chains 1..15 hold, and what putting a block back,
 * merging it with its buddies, and taking one out mean for it.
 */
module FreeBlocks {
  import opened Dyadic

  /** Byte x lies in some free block. */
  ghost predicate Covers(free: set<Block>, x: nat) {
    exists b {:trigger b.Contains(x)} :: b in free && b.Contains(x)
  }

  ghost predicate WhollyFree(free: set<Block>, b: Block) {
    forall x: nat :: b.Contains(x) ==> Covers(free, x)
  }

  /** Blocks on chains are proper and no two of them share a byte. */
  ghost predicate WellFormed(free: set<Block>) {
    && (forall b :: b in free ==> b.Proper())
    && (forall b, c, x: nat {:trigger b.Contains(x), c.Contains(x)} :: b in free && c in free && b.Contains(x) && c.Contains(x) ==> b == c)
  }

  /** No two buddies below the top level are both free. */
  ghost predicate Coalesced(free: set<Block>) {
    forall b, c {:trigger b.Buddies(c)} :: b in free && c in free && b.level < TOP_LEVEL ==> !b.Buddies(c)
  }

  /** What the allocator keeps at rest. */
  ghost predicate AtRest(free: set<Block>) {
    WellFormed(free) && Coalesced(free)
  }

  /** No byte of b is free. */
  ghost predicate Apart(free: set<Block>, b: Block) {
    forall x: nat :: b.Contains(x) ==> !Covers(free, x)
  }

  /** A block put back: it merges with its buddy as long as that one is free. */
  ghost function Put(free: set<Block>, b: Block): set<Block>
    requires b.Aligned()
    decreases TOP_LEVEL - b.level
  {
    if b.level < TOP_LEVEL && b.Buddy() in free then
      BuddyPair(b);
      Put(free - {b.Buddy()}, b.Parent())
    else
      free + {b}
  }

  /** The block to allocate from: on the least chain that can serve, the one lowest in memory. */
  ghost predicate BestFit(free: set<Block>, list: nat, c: Block) {
    && c in free && list <= c.level
    && forall d :: d in free && list <= d.level ==> c.level < d.level || (c.level == d.level && c.addr <= d.addr)
  }

  /** The upper halves left over when a block is halved down to a level. */
  ghost function Uppers(c: Block, list: nat): set<Block> {
    set k | list <= k < c.level :: Block(k, c.addr + ListSize(k))
  }

  datatype Taken = Nothing | Took(addr: nat, free: set<Block>)

  /** Allocation: the start of the best fit is handed out, the rest of it stays free in halves. */
  ghost function Take(free: set<Block>, list: nat): Taken {
    if c :| BestFit(free, list, c) then Took(c.addr, free - {c} + Uppers(c, list)) else Nothing
  }

  lemma {:induction false} BestFitExists(free: set<Block>, list: nat)
    requires exists c :: c in free && list <= c.level
    ensures exists c :: BestFit(free, list, c)
    decreases |free|
  {
    var c :| c in free && list <= c.level;
    var others := free - {c};
    if exists d :: d in others && list <= d.level {
      BestFitExists(others, list);
      var m :| BestFit(others, list, m);
      assert BestFit(free, list, if m.level < c.level || (m.level == c.level && m.addr <= c.addr) then m else c);
    } else {
      assert BestFit(free, list, c);
    }
  }

  /** The best fit decides what is taken. */
  lemma TakeIs(free: set<Block>, list: nat, c: Block)
    requires BestFit(free, list, c)
    ensures Take(free, list) == Took(c.addr, free - {c} + Uppers(c, list))
  {
  }

  lemma TakesNothing(free: set<Block>, list: nat)
    ensures Take(free, list).Nothing? <==> forall c :: c in free ==> c.level < list
  {
    if c :| c in free && list <= c.level { BestFitExists(free, list); }
  }

  /** The bytes of a set of blocks with one more in it. */
  lemma CoversOneMore(rest: set<Block>, b: Block)
    ensures forall x :: Covers(rest + {b}, x) <==> Covers(rest, x) || b.Contains(x)
  {
  }

  /** A block of the set is apart from the others. */
  lemma ApartFromOthers(free: set<Block>, b: Block)
    requires AtRest(free) && b in free
    ensures AtRest(free - {b}) && Apart(free - {b}, b)
    ensures forall x :: Covers(free, x) <==> Covers(free - {b}, x) || b.Contains(x)
  {
    CoversOneMore(free - {b}, b);
    assert free - {b} + {b} == free;
  }

  /** A block apart from the others, whose buddy is not free, can join them. */
  lemma JoinUnmerged(free: set<Block>, b: Block)
    requires AtRest(free) && b.Proper() && Apart(free, b)
    requires b.level < TOP_LEVEL ==> b.Buddy() !in free
    ensures AtRest(free + {b})
  {
    forall c | c in free && c.level < TOP_LEVEL
      ensures !c.Buddies(b) && !b.Buddies(c)
    {
      BuddyPair(b);
      BuddyPair(c);
    }
  }

  /** Putting a block back keeps the allocator's resting shape and adds exactly the block's bytes. */
  lemma {:induction false} PutCorrect(free: set<Block>, b: Block)
    requires AtRest(free) && b.Proper() && Apart(free, b)
    ensures AtRest(Put(free, b))
    ensures forall x :: Covers(Put(free, b), x) <==> Covers(free, x) || b.Contains(x)
    ensures |Put(free, b)| <= |free| + 1
    decreases TOP_LEVEL - b.level
  {
    if b.level < TOP_LEVEL && b.Buddy() in free {
      ApartFromOthers(free, b.Buddy());
      BuddyPair(b);
      PutCorrect(free - {b.Buddy()}, b.Parent());
    } else {
      JoinUnmerged(free, b);
      CoversOneMore(free, b);
    }
  }

  /** The crux of coalescing: wholly free aligned memory always lies inside one free block. */
  lemma {:induction false} WhollyFreeIsInOneBlock(free: set<Block>, b: Block) returns (c: Block)
    requires AtRest(free) && b.Proper() && WhollyFree(free, b)
    ensures c in free && b.Within(c) && b.level <= c.level
    decreases b.level
  {
    if b.level == 1 {
      assert b.Contains(b.addr);
      c :| c in free && c.Contains(b.addr);
      Nested(b, c, b.addr);
    } else {
      Halves(b);
      var lo, hi := Block(b.level - 1, b.addr), Block(b.level - 1, b.addr + ListSize(b.level - 1));
      assert WhollyFree(free, lo) && WhollyFree(free, hi) by {
        assert forall x :: lo.Contains(x) || hi.Contains(x) ==> b.Contains(x);
      }
      var cl := WhollyFreeIsInOneBlock(free, lo);
      var ch := WhollyFreeIsInOneBlock(free, hi);
      if cl.level == lo.level && ch.level == hi.level {
        SameSizeOverlap(cl, lo, lo.addr);
        SameSizeOverlap(ch, hi, hi.addr);
        assert false;
      } else if cl.level > lo.level {
        c := cl;
        Nested(b, c, lo.addr);
      } else {
        c := ch;
        Nested(b, c, hi.addr);
      }
    }
  }

  /** The free blocks are exactly the maximal aligned blocks of the free bytes. */
  lemma FreeBlocksAreMaximal(free: set<Block>, b: Block)
    requires AtRest(free) && b.Proper()
    ensures b in free <==> WhollyFree(free, b) && (b.level == TOP_LEVEL || !WhollyFree(free, b.Parent()))
  {
    BuddyPair(b);
    if b in free && b.level < TOP_LEVEL && WhollyFree(free, b.Parent()) {
      var c := WhollyFreeIsInOneBlock(free, b.Parent());
      assert b.Contains(b.addr) && c.Contains(b.addr);
      assert false;
    }
    if b !in free && WhollyFree(free, b) {
      var c := WhollyFreeIsInOneBlock(free, b);
      if b.level == c.level {
        SameSizeOverlap(b, c, b.addr);
        assert false;
      }
      Nested(b.Parent(), c, b.addr);
      assert forall x :: b.Parent().Contains(x) ==> c.Contains(x);
    }
  }

  /** Canonical form: the free bytes alone determine the free blocks. */
  lemma SameBytesSameBlocks(f: set<Block>, g: set<Block>)
    requires AtRest(f) && AtRest(g)
    requires forall x :: Covers(f, x) <==> Covers(g, x)
    ensures f == g
  {
    forall b: Block | b.Proper()
      ensures b in f <==> b in g
    {
      FreeBlocksAreMaximal(f, b);
      FreeBlocksAreMaximal(g, b);
      BuddyPair(b);
      assert forall c :: WhollyFree(f, c) <==> WhollyFree(g, c);
    }
    forall b
      ensures b in f <==> b in g
    {
      if b in f || b in g { assert b.Proper(); }
    }
  }

  /** b was carved out of `free`, leaving `rest`: putting b back would restore `free`. */
  ghost predicate TakenApart(free: set<Block>, b: Block, rest: set<Block>) {
    AtRest(rest) && b.Proper() && Apart(rest, b) && Put(rest, b) == free
  }

  /** Splitting a block taken at the next level serves this level. */
  lemma SplitCorrect(free: set<Block>, list: nat, addr: nat, rest: set<Block>)
    requires 1 <= list < TOP_LEVEL && forall c :: c in rest ==> c.level != list
    requires TakenApart(free, Block(list + 1, addr), rest)
    ensures TakenApart(free, Block(list, addr), rest + {Block(list, addr + ListSize(list))})
  {
    var whole, lower, upper := Block(list + 1, addr), Block(list, addr), Block(list, addr + ListSize(list));
    Halves(whole);
    BuddyPair(lower);
    assert Apart(rest, upper) && Apart(rest, lower) by {
      assert forall x :: lower.Contains(x) || upper.Contains(x) ==> whole.Contains(x);
    }
    JoinUnmerged(rest, upper);
    CoversOneMore(rest, upper);
    assert rest + {upper} - {upper} == rest;
  }

  lemma PopIsApart(free: set<Block>, b: Block)
    requires AtRest(free) && b in free
    ensures TakenApart(free, b, free - {b})
  {
    ApartFromOthers(free, b);
    BuddyPair(b);
    assert free - {b} + {b} == free;
  }

  /** One more halving leaves one more upper half. */
  lemma OneMoreHalving(c: Block, list: nat)
    requires list < c.level
    ensures Uppers(c, list) == Uppers(c, list + 1) + {Block(list, c.addr + ListSize(list))}
  {
  }

  /** Halving a block for which the levels between have none leaves a set at rest. */
  lemma {:induction false} CarveIsApart(free: set<Block>, list: nat, c: Block)
    requires AtRest(free) && c in free && 1 <= list <= c.level
    requires forall d :: d in free && list <= d.level ==> c.level <= d.level
    ensures TakenApart(free, Block(list, c.addr), free - {c} + Uppers(c, list))
    decreases c.level - list
  {
    if list == c.level {
      PopIsApart(free, c);
      assert free - {c} + Uppers(c, list) == free - {c};
    } else {
      var left := free - {c} + Uppers(c, list + 1);
      assert TakenApart(free, Block(list + 1, c.addr), left) by { CarveIsApart(free, list + 1, c); }
      assert c.Proper();
      SplitCorrect(free, list, c.addr, left);
      assert left + {Block(list, c.addr + ListSize(list))} == free - {c} + Uppers(c, list) by { OneMoreHalving(c, list); }
    }
  }

  lemma {:induction false} HalvingsAtMost(c: Block, list: nat)
    requires list <= c.level
    ensures |Uppers(c, list)| <= c.level - list
    decreases c.level - list
  {
    if list < c.level {
      HalvingsAtMost(c, list + 1);
      OneMoreHalving(c, list);
    } else {
      assert Uppers(c, list) == {};
    }
  }

  /** A take carves its block out of the best fit, adding at most one block for each level below it. */
  lemma TakeCorrect(free: set<Block>, list: nat, addr: nat, rest: set<Block>)
    requires AtRest(free) && 1 <= list && Take(free, list) == Took(addr, rest)
    ensures TakenApart(free, Block(list, addr), rest)
    ensures |rest| + list < |free| + TOP_LEVEL
    ensures exists c :: c in free && c.addr == addr && list <= c.level
                        && forall d :: d in free && list <= d.level ==> c.level < d.level || (c.level == d.level && addr <= d.addr)
  {
    var c :| BestFit(free, list, c) && Take(free, list) == Took(c.addr, free - {c} + Uppers(c, list));
    CarveIsApart(free, list, c);
    HalvingsAtMost(c, list);
    assert c.Proper();
  }

  /** Allocation is complete: a level can be served exactly when an aligned block of it is free. */
  lemma TakeComplete(free: set<Block>, list: nat)
    requires AtRest(free) && 1 <= list
    ensures Take(free, list).Took? <==> exists b: Block :: b.level == list && b.Proper() && WhollyFree(free, b)
  {
    TakesNothing(free, list);
    if Take(free, list).Took? {
      PutUndoesTake(free, list, Take(free, list).addr, Take(free, list).free);
      assert WhollyFree(free, Block(list, Take(free, list).addr));
    }
    if b: Block :| b.level == list && b.Proper() && WhollyFree(free, b) {
      var c := WhollyFreeIsInOneBlock(free, b);
    }
  }

  /** A block taken and put back restores the free blocks, whatever was split and merged between. */
  lemma PutUndoesTake(free: set<Block>, list: nat, addr: nat, rest: set<Block>)
    requires AtRest(free) && 1 <= list && Take(free, list) == Took(addr, rest)
    ensures AtRest(rest) && Block(list, addr).Proper() && Apart(rest, Block(list, addr))
    ensures Put(rest, Block(list, addr)) == free
    ensures forall x :: Covers(free, x) <==> Covers(rest, x) || Block(list, addr).Contains(x)
  {
    TakeCorrect(free, list, addr, rest);
    PutCorrect(rest, Block(list, addr));
  }
}

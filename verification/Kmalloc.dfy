/** kernel/kmalloc.c: the buddy allocator over sixteen chains in one array of nodes. */
module Kmalloc {
  import opened MachineTypes
  import opened Dyadic
  import opened FreeBlocks
  import opened Chains

  /** Free memory lies above address 0, which reads as failure, and within the 32-bit space. */
  ghost predicate Addressable(free: set<Block>) {
    forall b :: b in free ==> 0 < b.addr && b.End() <= WORD
  }

  /** The test of list_clean: the two addresses are the halves of one block of the next level. */
  predicate Mergeable(list: nat, a: uint32, a': uint32) {
    Block(list, a).Buddies(Block(list, a'))
  }

  /** No two neighbours that start before position p of a list can merge. */
  predicate NonePairBefore(list: nat, addrs: seq<uint32>, p: nat) {
    forall i, j :: 0 <= i < p && j == i + 1 && j < |addrs| ==> !Mergeable(list, addrs[i], addrs[j])
  }

  lemma OneMoreWithoutPair(list: nat, addrs: seq<uint32>, p: nat)
    requires NonePairBefore(list, addrs, p)
    requires p + 1 < |addrs| ==> !Mergeable(list, addrs[p], addrs[p + 1])
    ensures NonePairBefore(list, addrs, p + 1)
  {
  }

  lemma {:induction false} SizeBound(k: nat)
    requires k <= TOP_LEVEL
    ensures ListSize(k) <= 0x40000
  {
    var n, size := k, ListSize(k);
    while n < TOP_LEVEL
      invariant k <= n <= TOP_LEVEL && size == ListSize(n) && ListSize(k) <= size
    {
      n, size := n + 1, 2 * size;
    }
    assert ListSize(3) == 64;
    assert ListSize(6) == 512;
    assert ListSize(9) == 4096;
    assert ListSize(12) == 0x8000;
    assert ListSize(15) == 0x40000;
  }

  /** In 32-bit arithmetic too, the test of list_clean on two addresses in order finds buddies. */
  lemma MergeTest(list: nat, a: uint32, a': uint32)
    requires list < TOP_LEVEL && a < a'
    ensures a % ListSize(list + 1) == 0 && (a + ListSize(list)) % WORD == a' <==> Mergeable(list, a, a')
  {
    ResidueIsRemainder(a, list + 1);
    SizeBound(list);
  }

  /** A pair among free blocks that were coalesced before b came is b and its buddy. */
  lemma PairIsNew(free: set<Block>, b: Block, lo: Block, hi: Block)
    requires b in free && b.Proper() && b.level < TOP_LEVEL && AtRest(free - {b})
    requires lo in free && hi in free && lo.level == b.level && lo.Buddies(hi)
    ensures b.Buddy() in free - {b} && free - {b} - {b.Buddy()} == free - {lo, hi}
    ensures b.Parent() == Block(b.level + 1, lo.addr)
  {
    assert b == lo || b == hi;
    assert lo.Aligned() by { HalfWay(lo.addr, lo.level); }
    BuddyPair(lo);
    BuddyPair(b);
  }

  /** The union of a block put back and its free buddy is put back in turn. */
  lemma PutMerges(free: set<Block>, b: Block)
    requires AtRest(free) && b.Proper() && Apart(free, b) && b.level < TOP_LEVEL && b.Buddy() in free
    ensures var rest := free - {b.Buddy()};
            CanPut(rest, b.Parent()) && Put(free, b) == Put(rest, b.Parent())
  {
    ApartFromOthers(free, b.Buddy());
    BuddyPair(b);
  }

  /** The pair that the new block b made is taken off, and its union is to be put back for it. */
  lemma MergeReady(free: set<Block>, b: Block, lo: Block, hi: Block, rest: set<Block>, whole: Block)
    requires b in free && b.level < TOP_LEVEL && CanPut(free - {b}, b)
    requires lo in free && hi in free && lo.level == b.level && lo.Buddies(hi)
    requires rest == free - {lo, hi} && whole == Block(b.level + 1, lo.addr)
    ensures CanPut(rest, whole) && Put(rest, whole) == Put(free - {b}, b)
  {
    PairIsNew(free, b, lo, hi);
    PutMerges(free - {b}, b);
  }

  /** Two blocks of one size next to each other in memory are neighbours on their list. */
  lemma AdjacentOnList(level: nat, addrs: seq<uint32>, i: nat, j: nat)
    requires Increasing(addrs) && forall n :: 0 <= n < |addrs| ==> Multiple(addrs[n], level)
    requires i < |addrs| && j < |addrs| && addrs[j] == addrs[i] + ListSize(level)
    ensures j == i + 1
  {
    if i + 1 < j {
      CloseMultiples(addrs[i + 1], addrs[i], level);
    }
  }

  /** If no neighbours on a list can merge, the buddy of its new block is not free. */
  lemma NoPairNoBuddy(free: set<Block>, b: Block, addrs: seq<uint32>)
    requires b in free && b.Proper() && AtRest(free - {b}) && Apart(free - {b}, b)
    requires Lists(b.level, addrs, free)
    requires NonePairBefore(b.level, addrs, |addrs|)
    ensures b.level < TOP_LEVEL ==> b.Buddy() !in free
    ensures Put(free - {b}, b) == free
  {
    BuddyPair(b);
    if b.level < TOP_LEVEL && b.Buddy() in free {
      var lo := if b.Lower() then b else b.Buddy();
      var hi := if b.Lower() then b.Buddy() else b;
      assert lo == Block(b.level, lo.addr) && hi == Block(b.level, hi.addr) && lo.Buddies(hi);
      var i :| 0 <= i < |addrs| && addrs[i] == lo.addr;
      var j :| 0 <= j < |addrs| && addrs[j] == hi.addr;
      forall n | 0 <= n < |addrs|
        ensures Multiple(addrs[n], b.level)
      {
        assert addrs[n] in addrs;
        assert Block(b.level, addrs[n]).Aligned();
      }
      AdjacentOnList(b.level, addrs, i, j);
      assert false;
    }
    assert free - {b} + {b} == free;
  }

  lemma {:induction false} SizesGrow(low: nat, high: nat)
    requires low < high
    ensures ListSize(low) < ListSize(high)
  {
    if low + 1 < high { SizesGrow(low, high - 1); }
  }

  /** A block can be put back: it is proper, and its bytes are not free. */
  ghost predicate CanPut(free: set<Block>, b: Block) {
    AtRest(free) && b.Proper() && Apart(free, b)
  }

  /** What is left of free memory when block c is halved down to a level and its start handed out. */
  ghost function Carved(free: set<Block>, list: nat, c: Block): set<Block> {
    free - {c} + Uppers(c, list)
  }

  /** Block c can be halved down past this level: no block of the levels between would be better. */
  ghost predicate Halvable(free: set<Block>, list: nat, c: Block) {
    c in free && 1 <= list < c.level && forall d :: d in free && list <= d.level ==> c.level <= d.level
  }

  /** Halving once more, the upper half joins its list unmerged. */
  lemma UpperJoins(free: set<Block>, list: nat, c: Block, upper: Block)
    requires AtRest(free) && Halvable(free, list, c)
    requires upper == Block(list, c.addr + ListSize(list))
    ensures CanPut(Carved(free, list + 1, c), upper)
    ensures upper !in Carved(free, list + 1, c)
  {
    var rest, whole := Carved(free, list + 1, c), Block(list + 1, c.addr);
    CarveIsApart(free, list + 1, c);
    assert upper.Proper() && upper.Within(whole) by { Halves(whole); }
    ApartWithin(rest, upper, whole);
  }

  lemma ApartWithin(free: set<Block>, part: Block, whole: Block)
    requires Apart(free, whole) && part.Within(whole)
    ensures Apart(free, part) && part !in free
  {
    assert part.Contains(part.addr);
  }

  lemma UpperUnmerged(free: set<Block>, list: nat, c: Block, upper: Block)
    requires upper.Proper() && Halvable(free, list, c)
    requires upper == Block(list, c.addr + ListSize(list))
    ensures Put(Carved(free, list + 1, c), upper) == Carved(free, list, c) == Carved(free, list + 1, c) + {upper}
  {
    OneMoreHalving(c, list);
    assert forall d :: d in Carved(free, list + 1, c) ==> d.level != list;
  }

  lemma UpperFits(free: set<Block>, list: nat, c: Block)
    requires Addressable(free) && Halvable(free, list, c)
    ensures c.addr + ListSize(list) < WORD
  {
    SizesGrow(list, c.level);
  }

  /** All that putting the upper half back needs, and what it gives. */
  lemma UpperReady(free: set<Block>, list: nat, c: Block, upper: Block, rest: set<Block>, left: set<Block>)
    requires AtRest(free) && Addressable(free) && Halvable(free, list, c)
    requires upper == Block(list, c.addr + ListSize(list))
    requires rest == Carved(free, list + 1, c) && left == Carved(free, list, c)
    ensures upper.addr < WORD && CanPut(rest, upper)
    ensures Put(rest, upper) == left
    ensures |left| == |rest| + 1
  {
    UpperJoins(free, list, c, upper);
    UpperUnmerged(free, list, c, upper);
    UpperFits(free, list, c);
  }

  class MemAllocator {
    const heads: array<uint16>
    const nodes: array<MemNode>

    ghost var chains: ChainTable  // the nodes of each chain, head first
    ghost var owner: Owners       // the chain each node is on, or HELD
    ghost var held: set<Index>    // nodes in hand, on no chain
    ghost var free: set<Block>    // the blocks on chains 1 to 15

    ghost predicate Valid()
      reads this, heads, nodes
    {
      && heads.Length == ALLOCATORS && nodes.Length == NODES
      && Consistent(heads[..], nodes[..], chains, owner, held, free)
    }

    /** The addresses on chain k, from its head. */
    ghost function ChainAddrs(k: nat): seq<uint32>
      requires Valid() && k < ALLOCATORS
      reads this, heads, nodes
    {
      Addrs(chains[k], nodes[..])
    }

    constructor ()
      ensures Valid() && free == {} && held == {}
      ensures fresh(heads) && fresh(nodes)
    {
      heads := new uint16[ALLOCATORS];
      nodes := new MemNode[NODES](_ => MemNode(0, 0));
      new;
      var i := 0;
      while i < NODES
        invariant 0 <= i <= NODES
        invariant forall n :: 0 <= n < i ==> nodes[n] == MemNode(0, n + 1)
      {
        nodes[i] := MemNode(0, i + 1);
        i := i + 1;
      }
      nodes[NODES - 1] := nodes[NODES - 1].(next := 0);
      heads[0] := 1;
      i := 1;
      while i < ALLOCATORS
        invariant 1 <= i <= ALLOCATORS
        invariant heads[0] == 1 && forall k :: 1 <= k < i ==> heads[k] == 0
        invariant forall n :: 0 <= n < NODES - 1 ==> nodes[n] == MemNode(0, n + 1)
        invariant nodes[NODES - 1] == MemNode(0, 0)
      {
        heads[i] := 0;
        i := i + 1;
      }
      ghost var pool: seq<Index> := seq(NODES - 1, n requires 0 <= n < NODES - 1 => n + 1);
      free, held := {}, {};
      chains := seq(ALLOCATORS, k => if k == 0 then pool else []);
      owner := seq(NODES, _ => 0);
      assert forall n :: 0 <= n < NODES - 1 ==> nodes[n] == MemNode(0, n + 1);
      assert forall k :: 1 <= k < ALLOCATORS ==> heads[..][k] == 0;
      InitiallyConsistent(heads[..], nodes[..], pool);
    }

    method NodeNew(addr: uint32) returns (res: Index)
      requires Valid() && chains[0] != []
      modifies this, heads, nodes
      ensures Valid() && free == old(free)
      ensures res !in old(held) && held == old(held) + {res}
      ensures nodes[res] == MemNode(addr, 0)
      ensures forall n: Index :: n != res ==> nodes[n] == old(nodes[n])
      ensures chains == old(chains)[0 := old(chains[0])[1..]]
    {
      ghost var hs, ns := heads[..], nodes[..];
      TakeFromPool(hs, ns, chains, owner, held, free, addr);
      res := heads[0];
      heads[0] := nodes[res].next;
      nodes[res] := nodes[res].(addr := addr);
      nodes[res] := nodes[res].(next := 0);

      assert heads[..] == hs[0 := ns[res].next] && nodes[..] == ns[res := MemNode(addr, 0)];
      chains := chains[0 := chains[0][1..]];
      owner := owner[res := HELD];
      held := held + {res};
    }

    method NodeFree(node: Index)
      requires Valid() && node in held
      modifies this, heads, nodes
      ensures Valid() && free == old(free)
      ensures held == old(held) - {node}
      ensures forall n: Index :: n != node ==> nodes[n] == old(nodes[n])
      ensures chains == old(chains)[0 := [node] + old(chains[0])]
    {
      ghost var hs, ns := heads[..], nodes[..];
      ReturnToPool(hs, ns, chains, owner, held, free, node);
      nodes[node] := nodes[node].(next := heads[0]);
      nodes[node] := nodes[node].(addr := 0);
      heads[0] := node;

      assert heads[..] == hs[0 := node] && nodes[..] == ns[node := MemNode(0, hs[0])];
      chains := chains[0 := [node] + chains[0]];
      owner := owner[node := 0];
      held := held - {node};
    }

    /** The scan of list_put: where on the chain the address of newNode belongs. */
    method FindPlace(list: nat, newNode: Index) returns (prev: Index, cur: Index, ghost p: nat)
      requires Valid() && 1 <= list < ALLOCATORS
      requires Block(list, nodes[newNode].addr) !in free
      ensures p <= |chains[list]| && prev == Before(chains[list], p)
      ensures cur == (if p < |chains[list]| then chains[list][p] else 0)
      ensures p > 0 ==> nodes[chains[list][p - 1]].addr < nodes[newNode].addr
      ensures p < |chains[list]| ==> nodes[newNode].addr < nodes[chains[list][p]].addr
      ensures prev != 0 ==> nodes[prev].addr < nodes[newNode].addr
      ensures cur != 0 ==> nodes[newNode].addr < nodes[cur].addr
    {
      ghost var c := chains[list];
      assert Linked(heads[..][list], c, nodes[..]);
      p := 0;
      prev, cur := 0, heads[list];
      while cur != 0 && nodes[newNode].addr > nodes[cur].addr
        invariant 0 <= p <= |c| && cur == (if p < |c| then c[p] else 0) && prev == Before(c, p)
        invariant p > 0 ==> nodes[c[p - 1]].addr < nodes[newNode].addr
        decreases |c| - p
      {
        assert nodes[..][c[p]].next == After(c, p);
        prev := cur;
        cur := nodes[cur].next;
        p := p + 1;
      }
      if p < |c| {
        assert Lists(list, Addrs(c, nodes[..]), free);
        assert Addrs(c, nodes[..])[p] in Addrs(c, nodes[..]);
      }
    }

    /** The link writes of list_put. */
    method Splice(list: nat, prev: Index, cur: Index, newNode: Index, ghost p: nat)
      requires heads.Length == ALLOCATORS && nodes.Length == NODES && list < ALLOCATORS
      requires p <= |chains[list]| && prev == Before(chains[list], p) && (prev != 0 <==> p > 0)
      requires cur == After(chains[list], p - 1)
      modifies heads, nodes
      ensures heads[..] == old(heads[..])[list := if p > 0 then old(heads[list]) else newNode]
      ensures nodes[..] == Spliced(chains[list], old(nodes[..]), newNode, p)
    {
      if prev != 0 {
        nodes[newNode] := nodes[newNode].(next := cur);
        nodes[prev] := nodes[prev].(next := newNode);
      } else {
        nodes[newNode] := nodes[newNode].(next := cur);
        heads[list] := newNode;
      }
    }

    /** The first half of list_put: a node in hand goes where its address belongs on the chain. */
    method Link(list: nat, newNode: Index)
      requires Valid() && 1 <= list < ALLOCATORS && newNode in held
      requires Block(list, nodes[newNode].addr) !in free
      modifies this, heads, nodes
      ensures Valid() && free == old(free) + {Block(list, old(nodes[newNode].addr))}
      ensures held == old(held) - {newNode} && forall n :: n in held ==> nodes[n] == old(nodes[n])
      ensures forall k :: 1 <= k < ALLOCATORS && k != list ==> chains[k] == old(chains[k])
    {
      var prev, cur, p := FindPlace(list, newNode);
      assert prev != 0 <==> p > 0 by { assert Linked(heads[..][list], chains[list], nodes[..]); }
      LinkAt(list, newNode, prev, cur, p);
    }

    /** The node goes in between two neighbours of the chain. */
    method LinkAt(list: nat, newNode: Index, prev: Index, cur: Index, ghost p: nat)
      requires Valid() && 1 <= list < ALLOCATORS && newNode in held
      requires p <= |chains[list]| && prev == Before(chains[list], p) && cur == After(chains[list], p - 1) && (prev != 0 <==> p > 0)
      requires p > 0 ==> nodes[chains[list][p - 1]].addr < nodes[newNode].addr
      requires p < |chains[list]| ==> nodes[newNode].addr < nodes[chains[list][p]].addr
      modifies this, heads, nodes
      ensures Valid() && free == old(free) + {Block(list, old(nodes[newNode].addr))}
      ensures held == old(held) - {newNode} && forall n :: n in held ==> nodes[n] == old(nodes[n])
      ensures chains == old(chains)[list := old(chains[list])[..p] + [newNode] + old(chains[list])[p..]]
    {
      ghost var b := Block(list, nodes[newNode].addr);
      ghost var chains': ChainTable := chains[list := chains[list][..p] + [newNode] + chains[list][p..]];
      ghost var owner': Owners := owner[newNode := list];
      InsertNode(heads[..], nodes[..], chains, owner, held, free, list, newNode, p);
      Splice(list, prev, cur, newNode, p);
      chains, owner, held, free := chains', owner', held - {newNode}, free + {b};
    }

    /** A node in hand goes where its address belongs on the chain, then the chain is coalesced. */
    method ListPut(list: nat, newNode: Index)
      requires Valid() && 1 <= list < ALLOCATORS && newNode in held
      requires CanPut(free, Block(list, nodes[newNode].addr))
      modifies this, heads, nodes
      ensures Valid() && free == Put(old(free), Block(list, old(nodes[newNode].addr)))
      ensures held == old(held) - {newNode} && forall n :: n in held ==> nodes[n] == old(nodes[n])
      ensures forall k :: 1 <= k < list ==> chains[k] == old(chains[k])
      decreases ALLOCATORS - list, 3
    {
      ghost var b := Block(list, nodes[newNode].addr);
      assert b !in free by { assert b.Contains(b.addr); }
      Link(list, newNode);
      assert old(free) + {b} - {b} == old(free);
      if list < ALLOCATORS - 1 {
        ListClean(list, b);
      }
    }

    /** The link writes of list_clean when it merges two neighbours. */
    method Unsplice(list: nat, prev: Index, next: Index, ghost p: nat)
      requires heads.Length == ALLOCATORS && nodes.Length == NODES && list < ALLOCATORS
      requires p + 1 < |chains[list]| && prev == Before(chains[list], p) && (prev != 0 <==> p > 0)
      requires next == chains[list][p + 1]
      modifies heads, nodes
      ensures heads[..] == old(heads[..])[list := if p > 0 then old(heads[list]) else old(nodes[next].next)]
      ensures nodes[..] == Unspliced(chains[list], old(nodes[..]), p)
    {
      if prev != 0 {
        nodes[prev] := nodes[prev].(next := nodes[next].next);
      } else {
        heads[list] := nodes[next].next;
      }
    }

    /** Two neighbours on a chain come into hand. */
    method Unlink(list: nat, prev: Index, cur: Index, next: Index, ghost p: nat)
      requires Valid() && 1 <= list < ALLOCATORS
      requires p + 1 < |chains[list]| && prev == Before(chains[list], p)
      requires cur == chains[list][p] && next == chains[list][p + 1]
      modifies this, heads, nodes
      ensures Valid() && free == old(free) - {Block(list, nodes[cur].addr), Block(list, nodes[next].addr)}
      ensures held == old(held) + {cur, next} && cur !in old(held) && next !in old(held) && cur != next
      ensures forall n :: n in held ==> nodes[n] == old(nodes[n])
      ensures chains == old(chains)[list := old(chains[list])[..p] + old(chains[list])[p + 2..]]
      ensures nodes[next].next == After(old(chains[list]), p + 1)
    {
      ghost var chains': ChainTable := chains[list := chains[list][..p] + chains[list][p + 2..]];
      ghost var owner': Owners := owner[cur := HELD][next := HELD];
      ghost var free' := free - {Block(list, nodes[cur].addr), Block(list, nodes[next].addr)};
      RemoveNodes(heads[..], nodes[..], chains, owner, held, free, list, p, cur, next);
      assert prev != 0 <==> p > 0 by { assert Linked(heads[..][list], chains[list], nodes[..]); }
      Unsplice(list, prev, next, p);
      chains, owner, held, free := chains', owner', held + {cur, next}, free';
    }

    /** Neighbours that are buddies move up as one block; b is the only block that can have made such a pair. */
    method ListClean(list: nat, ghost b: Block)
      requires Valid() && 1 <= list < ALLOCATORS - 1 && New(b, list)
      modifies this, heads, nodes
      ensures Valid() && free == Put(old(free) - {b}, b)
      ensures held == old(held) && forall n :: n in held ==> nodes[n] == old(nodes[n])
      ensures forall k :: 1 <= k < list ==> chains[k] == old(chains[k])
      decreases ALLOCATORS - list, 2
    {
      var prev: Index := 0;
      assert Linked(heads[..][list], chains[list], nodes[..]);
      var cur: Index := heads[list];
      ghost var p: nat, merged, goal := 0, false, Put(free - {b}, b);
      while cur != 0
        invariant Valid() && held == old(held) && forall n :: n in held ==> nodes[n] == old(nodes[n])
        invariant forall k :: 1 <= k < list ==> chains[k] == old(chains[k])
        invariant p <= |chains[list]| && prev == Before(chains[list], p)
        invariant cur == if p < |chains[list]| then chains[list][p] else 0
        invariant Cleaning(list, b, goal, p, merged)
        decreases |chains[list]| - p
      {
        prev, cur, p, merged := CleanStep(list, b, goal, merged, prev, cur, p);
      }
      assert p == |chains[list]| by { assert Linked(heads[..][list], chains[list], nodes[..]); }
      Cleaned(list, b, goal, merged);
    }

    /** The scan of list_clean at position p: either it has merged b's pair, or no pair came before p. */
    ghost predicate Cleaning(list: nat, b: Block, goal: set<Block>, p: nat, merged: bool)
      requires Valid() && list < ALLOCATORS
      reads this, heads, nodes
    {
      if merged then free == goal && AtRest(free)
      else New(b, list) && goal == Put(free - {b}, b) && NonePairBefore(list, ChainAddrs(list), p)
    }

    lemma Cleaned(list: nat, b: Block, goal: set<Block>, merged: bool)
      requires Valid() && 1 <= list < ALLOCATORS && Cleaning(list, b, goal, |chains[list]|, merged)
      ensures free == goal
    {
      if !merged {
        assert Lists(list, ChainAddrs(list), free);
        NoPairNoBuddy(free, b, ChainAddrs(list));
      }
    }

    /** One turn of the loop of list_clean. */
    method CleanStep(list: nat, ghost b: Block, ghost goal: set<Block>, ghost merged: bool,
                     prev: Index, cur: Index, ghost p: nat)
      returns (prev': Index, cur': Index, ghost p': nat, ghost merged': bool)
      requires Valid() && 1 <= list < ALLOCATORS - 1 && Cleaning(list, b, goal, p, merged)
      requires p < |chains[list]| && prev == Before(chains[list], p) && cur == chains[list][p]
      modifies this, heads, nodes
      ensures Valid() && Cleaning(list, b, goal, p', merged')
      ensures held == old(held) && forall n :: n in held ==> nodes[n] == old(nodes[n])
      ensures forall k :: 1 <= k < list ==> chains[k] == old(chains[k])
      ensures p' <= |chains[list]| && prev' == Before(chains[list], p')
      ensures cur' == if p' < |chains[list]| then chains[list][p'] else 0
      ensures |chains[list]| - p' < old(|chains[list]|) - p
      decreases ALLOCATORS - list, 1
    {
      p', merged' := p, merged;
      var size, align := ListSize(list), ListSize(list + 1);
      var next := NextOf(list, cur, p);
      if next != 0 && nodes[cur].addr % align == 0 && (nodes[cur].addr + size) % WORD == nodes[next].addr {
        assert !merged by { var lo, hi := PairAt(list, cur, next, p); }
        PutCorrect(free - {b}, b);
        cur' := MergeAt(list, b, prev, cur, next, p);
        prev' := prev;
        merged' := true;
      } else {
        if !merged { OneMoreWithoutPair(list, ChainAddrs(list), p); }
        prev', cur' := cur, next;
        p' := p + 1;
      }
    }

    /** The merging branch of list_clean: two buddies leave their chain and their union goes on the next. */
    method MergeAt(list: nat, ghost b: Block, prev: Index, cur: Index, next: Index, ghost p: nat) returns (cur': Index)
      requires Valid() && 1 <= list < ALLOCATORS - 1 && New(b, list)
      requires p + 1 < |chains[list]| && prev == Before(chains[list], p)
      requires cur == chains[list][p] && next == chains[list][p + 1]
      requires Mergeable(list, nodes[cur].addr, nodes[next].addr)
      modifies this, heads, nodes
      ensures Valid() && free == Put(old(free) - {b}, b)
      ensures held == old(held) && forall n :: n in held ==> nodes[n] == old(nodes[n])
      ensures forall k :: 1 <= k < list ==> chains[k] == old(chains[k])
      ensures chains[list] == old(chains[list])[..p] + old(chains[list])[p + 2..]
      ensures cur' == After(old(chains[list]), p + 1)
      decreases ALLOCATORS - list, 0
    {
      ghost var before := free;
      ghost var lo, hi := PairAt(list, cur, next, p);
      Unlink(list, prev, cur, next, p);
      MergeReady(before, b, lo, hi, free, Block(list + 1, lo.addr));
      cur' := PutUp(list + 1, cur, next);
    }

    /** The first of two nodes in hand goes on a chain as their union, the other to the pool. */
    method PutUp(list: nat, cur: Index, next: Index) returns (cur': uint16)
      requires Valid() && 1 < list < ALLOCATORS && {cur, next} <= held && cur != next
      requires CanPut(free, Block(list, nodes[cur].addr))
      modifies this, heads, nodes
      ensures Valid() && free == Put(old(free), Block(list, old(nodes[cur].addr)))
      ensures held == old(held) - {cur, next} && forall n :: n in held ==> nodes[n] == old(nodes[n])
      ensures forall k :: 1 <= k < list ==> chains[k] == old(chains[k])
      ensures cur' == old(nodes[next].next)
      decreases ALLOCATORS - list, 4
    {
      ListPut(list, cur);
      cur' := nodes[next].next;
      NodeFree(next);
    }

    /** b is a free block of this list that joined others at rest. */
    ghost predicate New(b: Block, list: nat)
      reads this
    {
      b in free && b.level == list && CanPut(free - {b}, b)
    }

    /** The link at position p of a chain, and what the merge test says of the two nodes it joins. */
    method NextOf(list: nat, cur: Index, ghost p: nat) returns (next: Index)
      requires Valid() && 1 <= list < ALLOCATORS - 1 && p < |chains[list]| && cur == chains[list][p]
      ensures next == After(chains[list], p) && (next != 0 <==> p + 1 < |chains[list]|)
      ensures next != 0 ==>
                (nodes[cur].addr % ListSize(list + 1) == 0 && (nodes[cur].addr + ListSize(list)) % WORD == nodes[next].addr
                 <==> Mergeable(list, nodes[cur].addr, nodes[next].addr))
    {
      assert Linked(heads[..][list], chains[list], nodes[..]);
      assert nodes[..][cur].next == After(chains[list], p);
      next := nodes[cur].next;
      if p + 1 < |chains[list]| {
        assert Lists(list, ChainAddrs(list), free);
        assert ChainAddrs(list)[p] < ChainAddrs(list)[p + 1];
        MergeTest(list, nodes[cur].addr, nodes[next].addr);
      }
    }

    /** Neighbours that pass the merge test are free buddies. */
    lemma PairAt(list: nat, cur: Index, next: Index, p: nat) returns (lo: Block, hi: Block)
      requires Valid() && 1 <= list < ALLOCATORS - 1 && p + 1 < |chains[list]|
      requires cur == chains[list][p] && next == chains[list][p + 1]
      requires Mergeable(list, nodes[cur].addr, nodes[next].addr)
      ensures lo == Block(list, nodes[cur].addr) && hi == Block(list, nodes[next].addr)
      ensures lo in free && hi in free && lo.Buddies(hi) && !Coalesced(free)
    {
      lo, hi := Block(list, nodes[cur].addr), Block(list, nodes[next].addr);
      assert Lists(list, ChainAddrs(list), free);
      assert ChainAddrs(list)[p] in ChainAddrs(list) && ChainAddrs(list)[p + 1] in ChainAddrs(list);
    }

    /** The head of a chain comes into hand and goes to the pool. */
    method PopHead(list: nat) returns (addr: uint32)
      requires Valid() && 1 <= list < ALLOCATORS && chains[list] != []
      modifies this, heads, nodes
      ensures Valid() && held == old(held) && forall n :: n in held ==> nodes[n] == old(nodes[n])
      ensures Block(list, addr) in old(free) && free == old(free) - {Block(list, addr)}
      ensures forall b :: b in old(free) && b.level == list ==> addr <= b.addr
    {
      RemoveHead(heads[..], nodes[..], chains, owner, held, free, list, chains[list][0]);
      var elem: Index := heads[list];
      heads[list] := nodes[elem].next;
      addr := nodes[elem].addr;
      chains, owner, held, free :=
        chains[list := chains[list][1..]], owner[elem := HELD], held + {elem}, free - {Block(list, addr)};
      NodeFree(elem);
    }

    /**
     * The start of the best fit for this level, halved down to it, with the upper halves put back;
     * 0 if no chain from `list` up has a block.
     */
    method ListGet(list: uint16) returns (addr: uint32, ghost c: Block)
      requires Valid() && 1 <= list && AtRest(free) && Addressable(free)
      requires PoolSuffices(list)
      modifies this, heads, nodes
      ensures Valid() && held == old(held) && forall n :: n in held ==> nodes[n] == old(nodes[n])
      ensures addr == 0 ==> free == old(free) && forall b :: b in free ==> b.level < list
      ensures addr != 0 ==> BestFit(old(free), list, c) && addr == c.addr && free == Carved(old(free), list, c)
      decreases ALLOCATORS - list
    {
      if list >= ALLOCATORS {
        assert forall b :: b in free ==> b.Proper();
        return 0, Block(0, 0);
      }
      HeadTells(list);
      if heads[list] != 0 {
        addr := PopHead(list);
        c := Block(list, addr);
        assert Carved(old(free), list, c) == old(free) - {c};
        return;
      }
      SameFitAbove(list, list + 1);
      addr, c := ListGet(list + 1);
      if addr != 0 {
        AddUpper(list, addr, old(free), c);
      }
    }

    /** The nodes that a take needs are in the pool: node_new never meets the null link. */
    ghost predicate PoolSuffices(list: nat)
      reads this
    {
      forall c :: BestFit(free, list, c) ==> |Carved(free, list, c)| + |held| < NODES
    }

    /** When a chain is empty the best fit is the same a level above, and the pool suffices there. */
    lemma SameFitAbove(list: nat, above: nat)
      requires above == list + 1 && PoolSuffices(list) && !exists b :: b in free && b.level == list
      ensures PoolSuffices(above)
      ensures forall c :: BestFit(free, above, c) ==> BestFit(free, list, c) && list < c.level
      ensures (forall b :: b in free ==> b.level < above) ==> (forall b :: b in free ==> b.level < list)
    {
      assert forall b :: b in free ==> b.level != list;
      forall c | BestFit(free, above, c)
        ensures |Carved(free, above, c)| + |held| < NODES && BestFit(free, list, c)
      {
        assert BestFit(free, list, c);
        OneMoreHalving(c, list);
        SubsetSize(Carved(free, above, c), Carved(free, list, c));
      }
    }

    /** A chain is empty exactly when its head is the null link. */
    lemma HeadTells(list: nat)
      requires Valid() && 1 <= list < ALLOCATORS
      ensures (heads[list] != 0) == (chains[list] != []) == (exists b :: b in free && b.level == list)
    {
      assert Linked(heads[..][list], chains[list], nodes[..]);
      assert Lists(list, ChainAddrs(list), free);
      if chains[list] != [] {
        assert ChainAddrs(list)[0] in ChainAddrs(list);
        assert Block(list, ChainAddrs(list)[0]) in free;
      }
      if b :| b in free && b.level == list { assert Block(list, b.addr) == b; }
    }

    /** The splitting step of list_get: the upper half of a block taken a level above joins this chain. */
    method AddUpper(list: nat, addr: uint32, ghost before: set<Block>, ghost c: Block)
      requires Valid() && 1 <= list < ALLOCATORS && AtRest(before) && Addressable(before)
      requires Halvable(before, list, c) && addr == c.addr && free == Carved(before, list + 1, c)
      requires |Carved(before, list, c)| + |held| < NODES
      modifies this, heads, nodes
      ensures Valid() && held == old(held) && forall n :: n in held ==> nodes[n] == old(nodes[n])
      ensures free == Carved(before, list, c)
    {
      ghost var upper := Block(list, c.addr + ListSize(list));
      ghost var rest, left := free, Carved(before, list, c);
      var half := ListSize(list + 1) / 2;
      assert Block(list, addr + half) == upper;
      assert upper.addr < WORD && CanPut(rest, upper) && Put(rest, upper) == left && |left| == |rest| + 1 by {
        UpperReady(before, list, c, upper, rest, left);
      }
      PutNew(list, addr + half);
    }

    /** A block that is on no chain gets a node from the pool and goes on its chain. */
    method PutNew(list: nat, addr: uint32)
      requires Valid() && 1 <= list < ALLOCATORS && chains[0] != []
      requires CanPut(free, Block(list, addr))
      modifies this, heads, nodes
      ensures Valid() && free == Put(old(free), Block(list, addr))
      ensures held == old(held) && forall n :: n in held ==> nodes[n] == old(nodes[n])
    {
      var elem := NodeNew(addr);
      ListPut(list, elem);
    }
  }

  lemma SubsetSize(a: set<Block>, b: set<Block>)
    requires a <= b
    ensures |a| <= |b|
  {
    assert b == a + (b - a);
  }
}

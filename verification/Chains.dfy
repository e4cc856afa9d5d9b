/** Chains threaded by index through an array of nodes, as kernel/kmalloc.c lays them out. */
module Chains {
  import opened MachineTypes
  import opened Dyadic

  const NODES := 4092

  type Index = x: int | 0 <= x < NODES

  datatype MemNode = MemNode(addr: uint32, next: uint16)

  type Nodes = ns: seq<MemNode> | |ns| == NODES witness seq(NODES, _ => MemNode(0, 0))

  /** What follows position i of a chain; 0 is the null link. */
  function After(chain: seq<Index>, i: int): Index
    requires -1 <= i < |chain|
  {
    if i + 1 < |chain| then chain[i + 1] else 0
  }

  /** What precedes position i of a chain. */
  function Before(chain: seq<Index>, i: nat): Index
    requires i <= |chain|
  {
    if i > 0 then chain[i - 1] else 0
  }

  predicate Distinct(c: seq<Index>) {
    forall i, j :: 0 <= i < j < |c| ==> c[i] != c[j]
  }

  /** Following `next` from head visits the nodes of c in order and ends at the null link. */
  predicate Linked(head: uint16, c: seq<Index>, nodes: Nodes) {
    && head == After(c, -1)
    && 0 !in c
    && Distinct(c)
    && forall i {:trigger After(c, i)} :: 0 <= i < |c| ==> nodes[c[i]].next == After(c, i)
  }

  /** The addresses along a chain. */
  function Addrs(c: seq<Index>, nodes: Nodes): (a: seq<uint32>)
    ensures |a| == |c|
  {
    seq(|c|, i requires 0 <= i < |c| => nodes[c[i]].addr)
  }

  /** Writing nodes that are not on a chain leaves the chain alone. */
  lemma LinkedKept(head: uint16, c: seq<Index>, nodes: Nodes, nodes': Nodes)
    requires Linked(head, c, nodes)
    requires forall n :: n in c ==> nodes'[n] == nodes[n]
    ensures Linked(head, c, nodes') && Addrs(c, nodes') == Addrs(c, nodes)
  {
  }

  lemma PopLinked(head: uint16, c: seq<Index>, nodes: Nodes, written: MemNode)
    requires Linked(head, c, nodes) && c != []
    ensures head == c[0] && head !in c[1..]
    ensures Linked(nodes[c[0]].next, c[1..], nodes[c[0] := written])
    ensures Addrs(c, nodes) == [nodes[c[0]].addr] + Addrs(c[1..], nodes[c[0] := written])
  {
    var d, nodes' := c[1..], nodes[c[0] := written];
    assert nodes[c[0]].next == After(c, 0);
    forall i {:trigger After(d, i)} | 0 <= i < |d|
      ensures nodes'[d[i]].next == After(d, i)
    {
      assert nodes[c[i + 1]].next == After(c, i + 1);
    }
  }

  lemma PushLinked(head: uint16, c: seq<Index>, nodes: Nodes, n: Index, addr: uint32)
    requires Linked(head, c, nodes) && n != 0 && n !in c
    ensures Linked(n, [n] + c, nodes[n := MemNode(addr, head)])
  {
    var d, nodes' := [n] + c, nodes[n := MemNode(addr, head)];
    forall i {:trigger After(d, i)} | 0 <= i < |d|
      ensures nodes'[d[i]].next == After(d, i)
    {
      assert After(c, -1) == head;
      if i > 0 { assert nodes[c[i - 1]].next == After(c, i - 1); }
    }
  }

  /** The links written when node n goes in at position p. */
  function Spliced(c: seq<Index>, nodes: Nodes, n: Index, p: nat): Nodes
    requires p <= |c|
  {
    var linked := nodes[n := nodes[n].(next := After(c, p - 1))];
    if p > 0 then linked[c[p - 1] := linked[c[p - 1]].(next := n)] else linked
  }

  lemma SpliceMembers(c: seq<Index>, n: Index, p: nat)
    requires p <= |c|
    ensures forall m: Index :: m in c[..p] + [n] + c[p..] <==> m in c || m == n
  {
  }

  lemma SpliceAddrs(c: seq<Index>, nodes: Nodes, n: Index, p: nat)
    requires p <= |c| && n !in c
    ensures Addrs(c[..p] + [n] + c[p..], Spliced(c, nodes, n, p)) == Addrs(c, nodes)[..p] + [nodes[n].addr] + Addrs(c, nodes)[p..]
  {
  }

  lemma SpliceLinked(head: uint16, c: seq<Index>, nodes: Nodes, n: Index, p: nat)
    requires Linked(head, c, nodes) && n != 0 && n !in c && p <= |c|
    ensures Linked(if p > 0 then head else n, c[..p] + [n] + c[p..], Spliced(c, nodes, n, p))
  {
    SpliceMembers(c, n, p);
    var d, nodes' := c[..p] + [n] + c[p..], Spliced(c, nodes, n, p);
    forall i {:trigger After(d, i)} | 0 <= i < |d|
      ensures nodes'[d[i]].next == After(d, i)
    {
      if i < p { assert nodes[c[i]].next == After(c, i); }
      if i > p { assert nodes[c[i - 1]].next == After(c, i - 1); }
    }
  }

  /** The links written when the nodes at positions p and p + 1 are taken out. */
  function Unspliced(c: seq<Index>, nodes: Nodes, p: nat): Nodes
    requires p + 1 < |c|
  {
    if p > 0 then nodes[c[p - 1] := nodes[c[p - 1]].(next := nodes[c[p + 1]].next)] else nodes
  }

  lemma UnspliceMembers(c: seq<Index>, p: nat)
    requires p + 1 < |c| && Distinct(c)
    ensures forall m: Index :: m in c[..p] + c[p + 2..] <==> m in c && m !in {c[p], c[p + 1]}
  {
  }

  lemma UnspliceAddrs(c: seq<Index>, nodes: Nodes, p: nat)
    requires p + 1 < |c|
    ensures Addrs(c[..p] + c[p + 2..], Unspliced(c, nodes, p)) == Addrs(c, nodes)[..p] + Addrs(c, nodes)[p + 2..]
  {
  }

  lemma UnspliceLinked(head: uint16, c: seq<Index>, nodes: Nodes, p: nat)
    requires Linked(head, c, nodes) && p + 1 < |c|
    ensures Linked(if p > 0 then head else nodes[c[1]].next, c[..p] + c[p + 2..], Unspliced(c, nodes, p))
    ensures nodes[c[p + 1]].next == After(c, p + 1)
  {
    var d, nodes' := c[..p] + c[p + 2..], Unspliced(c, nodes, p);
    assert nodes[c[p + 1]].next == After(c, p + 1);
    forall i {:trigger After(d, i)} | 0 <= i < |d|
      ensures nodes'[d[i]].next == After(d, i)
    {
      if i < p { assert nodes[c[i]].next == After(c, i); }
      if i >= p { assert nodes[c[i + 2]].next == After(c, i + 2); }
    }
  }

  const ALLOCATORS := 16

  /** The owner of a node that is on no chain because code holds it in a variable. */
  const HELD := 16

  type ChainTable = cs: seq<seq<Index>> | |cs| == ALLOCATORS witness seq(ALLOCATORS, _ => [])

  type Heads = hs: seq<uint16> | |hs| == ALLOCATORS witness seq(ALLOCATORS, _ => 0)

  type Owners = os: seq<nat> | |os| == NODES witness seq(NODES, _ => 0)

  ghost predicate AllLinked(heads: Heads, nodes: Nodes, chains: ChainTable) {
    forall k {:trigger Linked(heads[k], chains[k], nodes)} :: 0 <= k < ALLOCATORS ==> Linked(heads[k], chains[k], nodes)
  }

  /** Every node but the null one is on exactly one chain or in hand. */
  ghost predicate Partitioned(chains: ChainTable, owner: Owners, held: set<Index>) {
    && (forall n: Index, k {:trigger n in chains[k]} :: n != 0 && 0 <= k < ALLOCATORS ==> (n in chains[k] <==> owner[n] == k))
    && (forall n: Index :: n != 0 ==> owner[n] <= HELD && (n in held <==> owner[n] == HELD))
    && 0 !in held
  }

  /** Nodes of chain k come into hand. */
  lemma HoldNodes(chains: ChainTable, owner: Owners, held: set<Index>, k: nat, c': seq<Index>, ns: set<Index>, owner': Owners)
    requires Partitioned(chains, owner, held) && k < ALLOCATORS && 0 !in c'
    requires forall n: Index :: n in ns ==> n in chains[k]
    requires forall n: Index :: n in c' <==> n in chains[k] && n !in ns
    requires forall n: Index :: owner'[n] == if n in ns then HELD else owner[n]
    requires 0 !in chains[k]
    ensures Partitioned(chains[k := c'], owner', held + ns)
    ensures ns !! held
  {
  }

  /** A node in hand joins chain k. */
  lemma ReleaseNode(chains: ChainTable, owner: Owners, held: set<Index>, k: nat, c': seq<Index>, n: Index)
    requires Partitioned(chains, owner, held) && k < ALLOCATORS && n in held
    requires forall m: Index :: m in c' <==> m in chains[k] || m == n
    ensures Partitioned(chains[k := c'], owner[n := k], held - {n})
    ensures n != 0 && n !in chains[k]
  {
  }

  predicate Increasing(a: seq<uint32>) {
    forall i, j :: 0 <= i < j < |a| ==> a[i] < a[j]
  }

  /** A chain of addresses in increasing order, holding exactly the free blocks of its level. */
  ghost predicate Lists(level: nat, addrs: seq<uint32>, free: set<Block>) {
    Increasing(addrs) && forall a: nat :: Block(level, a) in free <==> a in addrs
  }

  ghost predicate AllListed(nodes: Nodes, chains: ChainTable, free: set<Block>) {
    && (forall k {:trigger Lists(k, Addrs(chains[k], nodes), free)} :: 1 <= k < ALLOCATORS ==> Lists(k, Addrs(chains[k], nodes), free))
    && (forall b :: b in free ==> 1 <= b.level < ALLOCATORS)
  }

  /** Rewiring chain k through its own nodes and nodes in hand leaves the other chains linked. */
  lemma RewireLinks(heads: Heads, nodes: Nodes, chains: ChainTable, owner: Owners, held: set<Index>,
                    k: nat, head': uint16, nodes': Nodes, c': seq<Index>)
    requires AllLinked(heads, nodes, chains) && Partitioned(chains, owner, held)
    requires k < ALLOCATORS && Linked(head', c', nodes')
    requires forall n: Index :: owner[n] != k && owner[n] != HELD ==> nodes'[n] == nodes[n]
    ensures AllLinked(heads[k := head'], nodes', chains[k := c'])
    ensures forall l :: 0 <= l < ALLOCATORS && l != k ==> Addrs(chains[l], nodes') == Addrs(chains[l], nodes)
  {
    forall l | 0 <= l < ALLOCATORS && l != k
      ensures Linked(heads[l], chains[l], nodes') && Addrs(chains[l], nodes') == Addrs(chains[l], nodes)
    {
      assert Linked(heads[l], chains[l], nodes);
      LinkedKept(heads[l], chains[l], nodes, nodes');
    }
  }

  /** Rewiring chain k, with the blocks of its level, leaves the lists of the other levels alone. */
  lemma RelistLevel(nodes: Nodes, chains: ChainTable, free: set<Block>, k: nat, nodes': Nodes, c': seq<Index>, free': set<Block>)
    requires AllListed(nodes, chains, free) && 1 <= k < ALLOCATORS
    requires forall l :: 0 <= l < ALLOCATORS && l != k ==> Addrs(chains[l], nodes') == Addrs(chains[l], nodes)
    requires forall b: Block :: b.level != k ==> (b in free' <==> b in free)
    requires Lists(k, Addrs(c', nodes'), free')
    ensures AllListed(nodes', chains[k := c'], free')
  {
    forall l | 1 <= l < ALLOCATORS && l != k
      ensures Lists(l, Addrs(chains[l], nodes'), free')
    {
      assert Lists(l, Addrs(chains[l], nodes), free);
    }
    forall b | b in free'
      ensures 1 <= b.level < ALLOCATORS
    {
    }
  }

  /** The address at each position of a list into which a was inserted at p. */
  lemma InsertIncreasing(addrs: seq<uint32>, p: nat, a: uint32)
    requires Increasing(addrs) && p <= |addrs|
    requires p > 0 ==> addrs[p - 1] < a
    requires p < |addrs| ==> a < addrs[p]
    ensures Increasing(addrs[..p] + [a] + addrs[p..])
    ensures a !in addrs
  {
  }

  lemma InsertMembers(addrs: seq<uint32>, p: nat, a: uint32, x: int)
    requires p <= |addrs|
    ensures x in addrs[..p] + [a] + addrs[p..] <==> x == a || x in addrs
  {
  }

  lemma InsertListed(level: nat, addrs: seq<uint32>, free: set<Block>, p: nat, a: uint32)
    requires Lists(level, addrs, free) && p <= |addrs|
    requires p > 0 ==> addrs[p - 1] < a
    requires p < |addrs| ==> a < addrs[p]
    ensures Lists(level, addrs[..p] + [a] + addrs[p..], free + {Block(level, a)})
    ensures Block(level, a) !in free
  {
    InsertIncreasing(addrs, p, a);
    forall x: nat
      ensures Block(level, x) in free + {Block(level, a)} <==> x in addrs[..p] + [a] + addrs[p..]
    {
      InsertMembers(addrs, p, a, x);
    }
  }

  lemma RemoveListed(level: nat, addrs: seq<uint32>, free: set<Block>, p: nat)
    requires Lists(level, addrs, free) && p + 1 < |addrs|
    ensures Lists(level, addrs[..p] + addrs[p + 2..], free - {Block(level, addrs[p]), Block(level, addrs[p + 1])})
  {
  }

  /** The whole invariant of the allocator's memory. */
  ghost predicate Consistent(heads: Heads, nodes: Nodes, chains: ChainTable, owner: Owners, held: set<Index>, free: set<Block>) {
    && AllLinked(heads, nodes, chains)
    && Partitioned(chains, owner, held)
    && AllListed(nodes, chains, free)
    && |chains[0]| + |free| + |held| == NODES - 1
  }

  lemma TailMembers(a: seq<uint32>)
    requires Increasing(a) && a != []
    ensures forall x: uint32 :: x in a[1..] <==> x in a && x != a[0]
  {
  }

  lemma {:induction false} SameMembersSameList(a: seq<uint32>, b: seq<uint32>)
    requires Increasing(a) && Increasing(b) && forall x: uint32 :: x in a <==> x in b
    ensures a == b
  {
    assert a != [] ==> a[0] in b;
    assert b != [] ==> b[0] in a;
    if a != [] {
      assert a[0] == b[0];
      TailMembers(a);
      TailMembers(b);
      SameMembersSameList(a[1..], b[1..]);
    }
  }

  /** The free blocks decide what addresses are on each chain, and in what order. */
  lemma FreeBlocksDetermineChains(nodes: Nodes, chains: ChainTable, nodes': Nodes, chains': ChainTable, free: set<Block>, k: nat)
    requires AllListed(nodes, chains, free) && AllListed(nodes', chains', free) && 1 <= k < ALLOCATORS
    ensures Addrs(chains[k], nodes) == Addrs(chains'[k], nodes')
  {
    var a, b := Addrs(chains[k], nodes), Addrs(chains'[k], nodes');
    assert Lists(k, a, free) && Lists(k, b, free);
    SameMembersSameList(a, b);
  }

  /** All nodes on chain 0 in order of index, as mem_allocator_init leaves them. */
  lemma InitiallyConsistent(heads: Heads, nodes: Nodes, pool: seq<Index>)
    requires |pool| == NODES - 1 && forall i :: 0 <= i < |pool| ==> pool[i] == i + 1
    requires heads[0] == 1 && forall k :: 1 <= k < ALLOCATORS ==> heads[k] == 0
    requires forall n :: 0 <= n < NODES - 1 ==> nodes[n] == MemNode(0, n + 1)
    requires nodes[NODES - 1] == MemNode(0, 0)
    ensures var chains: ChainTable := seq(ALLOCATORS, k => if k == 0 then pool else []);
            Consistent(heads, nodes, chains, seq(NODES, _ => 0), {}, {})
  {
    var chains: ChainTable := seq(ALLOCATORS, k => if k == 0 then pool else []);
    forall n: Index | n != 0
      ensures n in pool
    {
      assert pool[n - 1] == n;
    }
    forall i {:trigger After(pool, i)} | 0 <= i < |pool|
      ensures nodes[pool[i]].next == After(pool, i)
    {
    }
    assert Linked(heads[0], pool, nodes);
  }

  /** node_new: the head of the pool comes into hand. */
  lemma TakeFromPool(heads: Heads, nodes: Nodes, chains: ChainTable, owner: Owners, held: set<Index>, free: set<Block>, addr: uint32)
    requires Consistent(heads, nodes, chains, owner, held, free) && chains[0] != []
    ensures 0 < heads[0] < NODES && heads[0] == chains[0][0] && heads[0] !in held
    ensures var n := chains[0][0];
            Consistent(heads[0 := nodes[n].next], nodes[n := MemNode(addr, 0)],
                       chains[0 := chains[0][1..]], owner[n := HELD], held + {n}, free)
  {
    var pool := chains[0];
    var n, nodes' := pool[0], nodes[pool[0] := MemNode(addr, 0)];
    assert Linked(heads[0], pool, nodes);
    PopLinked(heads[0], pool, nodes, MemNode(addr, 0));
    assert n in chains[0];
    RewireLinks(heads, nodes, chains, owner, held, 0, nodes[n].next, nodes', pool[1..]);
    HoldNodes(chains, owner, held, 0, pool[1..], {n}, owner[n := HELD]);
  }

  /** node_free: a node in hand becomes the head of the pool. */
  lemma ReturnToPool(heads: Heads, nodes: Nodes, chains: ChainTable, owner: Owners, held: set<Index>, free: set<Block>, n: Index)
    requires Consistent(heads, nodes, chains, owner, held, free) && n in held
    ensures Consistent(heads[0 := n], nodes[n := MemNode(0, heads[0])],
                       chains[0 := [n] + chains[0]], owner[n := 0], held - {n}, free)
  {
    assert Linked(heads[0], chains[0], nodes);
    ReleaseNode(chains, owner, held, 0, [n] + chains[0], n);
    PushLinked(heads[0], chains[0], nodes, n, 0);
    RewireLinks(heads, nodes, chains, owner, held, 0, n, nodes[n := MemNode(0, heads[0])], [n] + chains[0]);
  }

  /** A node in hand goes in at position p of chain k, where its address belongs. */
  lemma InsertNode(heads: Heads, nodes: Nodes, chains: ChainTable, owner: Owners, held: set<Index>, free: set<Block>,
                   k: nat, n: Index, p: nat)
    requires Consistent(heads, nodes, chains, owner, held, free) && n in held && 1 <= k < ALLOCATORS
    requires p <= |chains[k]|
    requires p > 0 ==> nodes[chains[k][p - 1]].addr < nodes[n].addr
    requires p < |chains[k]| ==> nodes[n].addr < nodes[chains[k][p]].addr
    ensures Consistent(heads[k := if p > 0 then heads[k] else n], Spliced(chains[k], nodes, n, p),
                       chains[k := chains[k][..p] + [n] + chains[k][p..]], owner[n := k], held - {n},
                       free + {Block(k, nodes[n].addr)})
    ensures Block(k, nodes[n].addr) !in free
    ensures forall m :: m in held && m != n ==> Spliced(chains[k], nodes, n, p)[m] == nodes[m]
  {
    var c, a := chains[k], nodes[n].addr;
    var c', nodes', head' := c[..p] + [n] + c[p..], Spliced(c, nodes, n, p), if p > 0 then heads[k] else n;
    SpliceMembers(c, n, p);
    assert p > 0 ==> c[p - 1] in c && c[p - 1] in chains[k] && c[p - 1] != 0 by { assert Linked(heads[k], c, nodes); }
    ReleaseNode(chains, owner, held, k, c', n);
    assert Linked(head', c', nodes') by {
      assert Linked(heads[k], c, nodes);
      SpliceLinked(heads[k], c, nodes, n, p);
    }
    RewireLinks(heads, nodes, chains, owner, held, k, head', nodes', c');
    SpliceAddrs(c, nodes, n, p);
    assert Lists(k, Addrs(c, nodes), free);
    InsertListed(k, Addrs(c, nodes), free, p, a);
    RelistLevel(nodes, chains, free, k, nodes', c', free + {Block(k, a)});
  }

  /** The nodes at positions p and p + 1 of chain k come into hand. */
  lemma RemoveNodes(heads: Heads, nodes: Nodes, chains: ChainTable, owner: Owners, held: set<Index>, free: set<Block>,
                    k: nat, p: nat, m: Index, n: Index)
    requires Consistent(heads, nodes, chains, owner, held, free) && 1 <= k < ALLOCATORS
    requires p + 1 < |chains[k]| && m == chains[k][p] && n == chains[k][p + 1]
    ensures m !in held && n !in held && m != n && m != 0 && n != 0 && nodes[n].next == After(chains[k], p + 1)
    ensures var b, c := Block(k, nodes[m].addr), Block(k, nodes[n].addr);
            && b in free && c in free && b != c
            && Consistent(heads[k := if p > 0 then heads[k] else nodes[n].next], Unspliced(chains[k], nodes, p),
                          chains[k := chains[k][..p] + chains[k][p + 2..]], owner[m := HELD][n := HELD], held + {m, n},
                          free - {b, c})
    ensures forall x :: x in held + {m, n} ==> Unspliced(chains[k], nodes, p)[x] == nodes[x]
  {
    var c := chains[k];
    var c', nodes', head' := c[..p] + c[p + 2..], Unspliced(c, nodes, p), if p > 0 then heads[k] else nodes[n].next;
    assert Linked(heads[k], c, nodes);
    UnspliceMembers(c, p);
    HoldNodes(chains, owner, held, k, c', {m, n}, owner[m := HELD][n := HELD]);
    assert Linked(head', c', nodes') by {
      UnspliceLinked(heads[k], c, nodes, p);
    }
    RewireLinks(heads, nodes, chains, owner, held, k, head', nodes', c');
    RemoveNodesListed(nodes, chains, free, k, p);
    UnspliceLinked(heads[k], c, nodes, p);
  }

  lemma RemoveNodesListed(nodes: Nodes, chains: ChainTable, free: set<Block>, k: nat, p: nat)
    requires AllListed(nodes, chains, free) && 1 <= k < ALLOCATORS && p + 1 < |chains[k]|
    requires forall l :: 0 <= l < ALLOCATORS && l != k ==> Addrs(chains[l], Unspliced(chains[k], nodes, p)) == Addrs(chains[l], nodes)
    ensures var b, c := Block(k, nodes[chains[k][p]].addr), Block(k, nodes[chains[k][p + 1]].addr);
            && b in free && c in free && b != c
            && AllListed(Unspliced(chains[k], nodes, p), chains[k := chains[k][..p] + chains[k][p + 2..]], free - {b, c})
  {
    var c := chains[k];
    var addrs := Addrs(c, nodes);
    assert Lists(k, addrs, free);
    assert addrs[p] < addrs[p + 1] && addrs[p] in addrs && addrs[p + 1] in addrs;
    RemoveListed(k, addrs, free, p);
    UnspliceAddrs(c, nodes, p);
    RelistLevel(nodes, chains, free, k, Unspliced(c, nodes, p), c[..p] + c[p + 2..],
                free - {Block(k, addrs[p]), Block(k, addrs[p + 1])});
  }

  lemma RemoveHeadListed(level: nat, addrs: seq<uint32>, free: set<Block>)
    requires Lists(level, addrs, free) && addrs != []
    ensures Lists(level, addrs[1..], free - {Block(level, addrs[0])})
    ensures Block(level, addrs[0]) in free && forall b :: b in free && b.level == level ==> addrs[0] <= b.addr
  {
  }

  /** The head of chain k comes into hand. */
  lemma RemoveHead(heads: Heads, nodes: Nodes, chains: ChainTable, owner: Owners, held: set<Index>, free: set<Block>, k: nat, n: Index)
    requires Consistent(heads, nodes, chains, owner, held, free) && 1 <= k < ALLOCATORS && chains[k] != []
    requires n == chains[k][0]
    ensures n > 0 && heads[k] == n && n !in held
    ensures Block(k, nodes[n].addr) in free && forall b :: b in free && b.level == k ==> nodes[n].addr <= b.addr
    ensures Consistent(heads[k := nodes[n].next], nodes, chains[k := chains[k][1..]], owner[n := HELD], held + {n},
                       free - {Block(k, nodes[n].addr)})
  {
    var c, addrs := chains[k], Addrs(chains[k], nodes);
    assert Linked(heads[k], c, nodes);
    PopLinked(heads[k], c, nodes, nodes[n]);
    assert nodes[n := nodes[n]] == nodes;
    RewireLinks(heads, nodes, chains, owner, held, k, nodes[n].next, nodes, c[1..]);
    HoldNodes(chains, owner, held, k, c[1..], {n}, owner[n := HELD]);
    assert Lists(k, addrs, free);
    RemoveHeadListed(k, addrs, free);
    assert Addrs(c[1..], nodes) == addrs[1..];
    RelistLevel(nodes, chains, free, k, nodes, c[1..], free - {Block(k, nodes[n].addr)});
  }
}

/** Geometry of power-of-two blocks: alignment, buddies and nesting. */
module Dyadic {

  const TOP_LEVEL := 15

  /** `list_size`: chain k holds blocks of 1 << (k + 3) bytes. */
  function ListSize(list: nat): (size: nat)
    ensures size >= 8
  {
    if list == 0 then 8 else 2 * ListSize(list - 1)
  }

  /** a % ListSize(k), computed by halving so that proofs stay linear. */
  function Residue(a: nat, k: nat): nat {
    if k == 0 then a % 8 else 2 * Residue(a / 2, k - 1) + a % 2
  }

  predicate Multiple(a: nat, k: nat) {
    Residue(a, k) == 0
  }

  /** The C operation `a % list_size(k)`. */
  lemma {:induction false} ResidueIsRemainder(a: nat, k: nat)
    ensures Residue(a, k) == a % ListSize(k)
  {
    if k > 0 {
      ResidueIsRemainder(a / 2, k - 1);
      HalvedRemainder(a, ListSize(k - 1));
      assert ListSize(k) == 2 * ListSize(k - 1);
    }
  }

  lemma HalvedRemainder(a: nat, m: nat)
    requires m > 0
    ensures a % (2 * m) == 2 * (a / 2 % m) + a % 2
  {
    var q, r := a / 2 / m, a / 2 % m;
    assert a == 2 * m * q + (2 * r + a % 2) by {
      assert a / 2 == m * q + r;
      assert 2 * (m * q) == 2 * m * q;
    }
    QuotientUnique(a, 2 * m, q, 2 * r + a % 2);
  }

  lemma ScaleBound(m: int, d: int)
    requires m > 0
    ensures d >= 1 ==> m * d >= m
    ensures d <= -1 ==> m * d <= -m
  {
  }

  lemma QuotientUnique(a: int, m: int, q: int, r: int)
    requires 0 <= r < m && a == m * q + r
    ensures a / m == q && a % m == r
  {
    assert m * (q - a / m) == a % m - r;
    ScaleBound(m, q - a / m);
  }

  lemma Twice(h: nat, k: nat)
    ensures Multiple(2 * h, k + 1) == Multiple(h, k)
  {
  }

  lemma LowResidues(a: nat)
    ensures Residue(a, 0) == a % 8 && Residue(a, 1) == a % 16
  {
    HalvedRemainder(a, 8);
    assert Residue(a / 2, 0) == a / 2 % 8;
  }

  lemma EightAbove(a: nat)
    ensures Multiple(a, 1) <==> Multiple(a, 0) && !Multiple(a + 8, 1)
    ensures Multiple(a, 0) ==> Multiple(a + 8, 0)
  {
    LowResidues(a);
    LowResidues(a + 8);
    Sixteenths(a);
  }

  lemma Sixteenths(a: nat)
    ensures a % 16 == 0 <==> a % 8 == 0 && (a + 8) % 16 != 0
    ensures (a + 8) % 8 == a % 8
  {
  }

  /** One size above a multiple of twice the size lies a multiple of the size alone. */
  lemma {:induction false} OneSizeAbove(a: nat, k: nat)
    ensures Multiple(a, k + 1) <==> Multiple(a, k) && !Multiple(a + ListSize(k), k + 1)
    ensures Multiple(a, k) ==> Multiple(a + ListSize(k), k)
  {
    if k == 0 {
      EightAbove(a);
    } else if a % 2 == 0 {
      var h, m := a / 2, ListSize(k - 1);
      OneSizeAbove(h, k - 1);
      Twice(h, k - 1);
      Twice(h, k);
      Twice(h + m, k - 1);
      Twice(h + m, k);
      assert a == 2 * h && a + ListSize(k) == 2 * (h + m);
    }
  }

  lemma {:induction false} OneSizeBelow(a: nat, k: nat)
    requires Multiple(a, k) && a > 0
    ensures a >= ListSize(k) && Multiple(a - ListSize(k), k)
  {
    if k > 0 {
      var h, m := a / 2, ListSize(k - 1);
      OneSizeBelow(h, k - 1);
      Twice(h - m, k - 1);
    }
  }

  lemma {:induction false} ZeroIsMultiple(k: nat)
    ensures Multiple(0, k)
  {
    if k > 0 { ZeroIsMultiple(k - 1); }
  }

  /** A multiple of a size is a multiple of twice the size or lies half way between two of them. */
  lemma HalfWay(a: nat, k: nat)
    ensures Multiple(a, k) <==> Multiple(a, k + 1) || (a >= ListSize(k) && Multiple(a - ListSize(k), k + 1))
    ensures Multiple(a, k + 1) ==> Multiple(a + ListSize(k), k) && !Multiple(a + ListSize(k), k + 1)
  {
    OneSizeAbove(a, k);
    ZeroIsMultiple(k + 1);
    if a >= ListSize(k) { OneSizeAbove(a - ListSize(k), k); }
    if Multiple(a, k) && a > 0 { OneSizeBelow(a, k); }
  }

  /** Two multiples of one size that are less than that size apart coincide. */
  lemma {:induction false} CloseMultiples(a: nat, b: nat, k: nat)
    requires Multiple(a, k) && Multiple(b, k) && a < b + ListSize(k) && b < a + ListSize(k)
    ensures a == b
    decreases k
  {
    if k > 0 {
      CloseMultiples(a / 2, b / 2, k - 1);
    }
  }

  /** A block of ListSize(level) bytes starting at addr. */
  datatype Block = Block(level: nat, addr: nat) {
    function Size(): nat { ListSize(level) }

    function End(): nat { addr + Size() }

    predicate Contains(x: nat) { addr <= x < End() }

    predicate Aligned() { Multiple(addr, level) }

    /** On a free chain a block has a level of its own and starts at a multiple of its size. */
    predicate Proper() { 1 <= level <= TOP_LEVEL && Aligned() }

    ghost predicate Disjoint(other: Block) {
      forall x: nat :: Contains(x) ==> !other.Contains(x)
    }

    predicate Within(other: Block) { other.addr <= addr && End() <= other.End() }

    /** The lower half of the enclosing block of twice the size. */
    predicate Lower() { Multiple(addr, level + 1) }

    /** `this` and `hi` are the lower and the upper half of one block of twice the size. */
    predicate Buddies(hi: Block) { hi.level == level && Lower() && hi.addr == End() }

    /** The other half of the block of twice the size that encloses this one. */
    function Buddy(): Block
      requires Aligned()
    {
      HalfWay(addr, level);
      Block(level, if Lower() then addr + Size() else addr - Size())
    }

    function Parent(): Block
      requires Aligned()
    {
      HalfWay(addr, level);
      Block(level + 1, if Lower() then addr else addr - Size())
    }
  }

  /** A block and its buddy are the two halves of their common parent. */
  lemma BuddyPair(b: Block)
    requires b.Aligned()
    ensures b.Buddy().Aligned() && b.Parent().Aligned()
    ensures b.Buddy().Buddy() == b && b.Buddy().Parent() == b.Parent()
    ensures b.Lower() ==> b.Buddies(b.Buddy()) && b.Buddy().addr == b.addr + b.Size() && b.Parent().addr == b.addr
    ensures !b.Lower() ==> b.Buddy().Buddies(b) && b.Buddy().addr == b.addr - b.Size() && b.Parent().addr == b.addr - b.Size()
    ensures forall x :: b.Parent().Contains(x) <==> b.Contains(x) || b.Buddy().Contains(x)
    ensures b.Disjoint(b.Buddy())
  {
    HalfWay(b.addr, b.level);
    HalfWay(b.Buddy().addr, b.level);
  }

  /** Both halves of an aligned block are aligned, and they are each other's buddies. */
  lemma Halves(b: Block)
    requires b.Aligned() && b.level > 0
    ensures var lo, hi := Block(b.level - 1, b.addr), Block(b.level - 1, b.addr + ListSize(b.level - 1));
            && lo.Aligned() && hi.Aligned() && lo.Buddies(hi) && !hi.Lower()
            && lo.Buddy() == hi && hi.Buddy() == lo && lo.Parent() == b && hi.Parent() == b
            && lo.Within(b) && hi.Within(b)
  {
    HalfWay(b.addr, b.level - 1);
    BuddyPair(Block(b.level - 1, b.addr));
  }

  /** Two blocks of one size that share a byte coincide. */
  lemma SameSizeOverlap(a: Block, b: Block, x: nat)
    requires a.level == b.level && a.Aligned() && b.Aligned() && a.Contains(x) && b.Contains(x)
    ensures a == b
  {
    CloseMultiples(a.addr, b.addr, a.level);
  }

  /** Aligned blocks that share a byte are nested. */
  lemma {:induction false} Nested(a: Block, b: Block, x: nat)
    requires a.Aligned() && b.Aligned() && a.level <= b.level && a.Contains(x) && b.Contains(x)
    ensures a.Within(b)
    decreases b.level - a.level
  {
    if a.level == b.level {
      SameSizeOverlap(a, b, x);
    } else {
      BuddyPair(a);
      Nested(a.Parent(), b, x);
    }
  }

  /** Every level up to a block's own has an aligned block at its start. */
  lemma {:induction false} Shrink(b: Block, level: nat)
    requires b.Aligned() && level <= b.level
    ensures Block(level, b.addr).Aligned() && Block(level, b.addr).Within(b)
    decreases b.level
  {
    if level < b.level {
      Halves(b);
      Shrink(Block(b.level - 1, b.addr), level);
    }
  }
}

/** kernel/palloc.c: physical frames as bits of an array of words that ends in a guard. */
module Palloc {
  import opened MachineTypes
  import opened Bits

  const PAGES := 0x10_0000

  const BITS := 32

  const ENTRIES := PAGES / BITS

  const EXHAUSTED: uint32 := 0xDEAD_C0DE

  type Words = ws: seq<uint32> | |ws| == ENTRIES + 1 witness seq(ENTRIES + 1, _ => 0)

  /** The bit of frame f: set when the frame is free. */
  predicate IsFree(words: Words, f: nat) {
    f < PAGES && Bit(words[f / BITS], f % BITS)
  }

  /** The set that the words stand for. */
  function FreeFrames(words: Words): set<nat> {
    set f: nat | f < PAGES && IsFree(words, f)
  }

  lemma WordBits()
    ensures OneShifted(BITS) == WORD
  {
    assert OneShifted(8) == 0x100;
    assert OneShifted(16) == 0x1_0000;
    assert OneShifted(24) == 0x100_0000;
  }

  lemma MaskFits(b: nat)
    requires b < BITS
    ensures OneShifted(b) < WORD
  {
    WordBits();
    OneShiftedGrows(b, BITS);
  }

  /** memory_map[id] |= (1 << bit) */
  function Marked(word: uint32, bit: nat): (r: uint32)
    requires bit < BITS
    ensures forall c: nat :: Bit(r, c) <==> Bit(word, c) || c == bit
  {
    MaskFits(bit);
    WordBits();
    OrFits(word, OneShifted(bit), BITS);
    assert forall c: nat :: Bit(Or(word, OneShifted(bit)), c) <==> Bit(word, c) || c == bit by {
      forall c: nat
        ensures Bit(Or(word, OneShifted(bit)), c) <==> Bit(word, c) || c == bit
      {
        OrBit(word, OneShifted(bit), c);
        OneShiftedBit(bit, c);
      }
    }
    Or(word, OneShifted(bit))
  }

  /** memory_map[id] &= ~(1 << bit) */
  function Cleared(word: uint32, bit: nat): (r: uint32)
    requires bit < BITS
    ensures forall c: nat :: Bit(r, c) <==> Bit(word, c) && c != bit
  {
    AndNotFits(word, OneShifted(bit));
    assert forall c: nat :: Bit(AndNot(word, OneShifted(bit)), c) <==> Bit(word, c) && c != bit by {
      forall c: nat
        ensures Bit(AndNot(word, OneShifted(bit)), c) <==> Bit(word, c) && c != bit
      {
        AndNotBit(word, OneShifted(bit), c);
        OneShiftedBit(bit, c);
      }
    }
    AndNot(word, OneShifted(bit))
  }

  lemma FrameBit(f: nat, g: nat)
    ensures f / BITS == g / BITS && f % BITS == g % BITS <==> f == g
  {
  }

  lemma MarkedFrames(words: Words, f: nat)
    requires f < PAGES
    ensures FreeFrames(words[f / BITS := Marked(words[f / BITS], f % BITS)]) == FreeFrames(words) + {f}
  {
    var words' := words[f / BITS := Marked(words[f / BITS], f % BITS)];
    forall g: nat
      ensures g in FreeFrames(words') <==> g in FreeFrames(words) || g == f
    {
      FrameBit(f, g);
    }
  }

  lemma ClearedFrames(words: Words, f: nat)
    requires f < PAGES
    ensures FreeFrames(words[f / BITS := Cleared(words[f / BITS], f % BITS)]) == FreeFrames(words) - {f}
  {
    var words' := words[f / BITS := Cleared(words[f / BITS], f % BITS)];
    forall g: nat
      ensures g in FreeFrames(words') <==> g in FreeFrames(words) && g != f
    {
      FrameBit(f, g);
    }
  }

  /** The words before a position hold no free frame exactly when they are zero. */
  lemma ZeroWords(words: Words, i: nat)
    requires i <= ENTRIES
    ensures (forall j :: 0 <= j < i ==> words[j] == 0) <==> (forall f: nat :: f < BITS * i ==> !IsFree(words, f))
  {
    WordBits();
    if forall j :: 0 <= j < i ==> words[j] == 0 {
      forall f: nat | f < BITS * i
        ensures !IsFree(words, f)
      {
        ZeroBit(f % BITS);
      }
    }
    if forall f: nat :: f < BITS * i ==> !IsFree(words, f) {
      forall j | 0 <= j < i
        ensures words[j] == 0
      {
        if words[j] != 0 {
          var c := SomeBit(words[j], BITS);
          FrameAt(j, c);
          assert IsFree(words, BITS * j + c);
        }
      }
    }
  }

  lemma FrameAt(j: nat, c: nat)
    requires c < BITS
    ensures (BITS * j + c) / BITS == j && (BITS * j + c) % BITS == c
  {
  }

  /** The frames that a range operation reaches, its addresses taken in 32 bits. */
  function RangeFrames(addr: uint32, pages: nat): set<nat> {
    if pages == 0 then {} else RangeFrames(addr, pages - 1) + {Wrap(addr + PAGE_SIZE * (pages - 1)) / PAGE_SIZE}
  }

  /** They are consecutive, and go on from frame 0 after the last one. */
  lemma {:induction false} RangeIsConsecutive(addr: uint32, pages: nat, f: nat)
    ensures f in RangeFrames(addr, pages) <==> f < PAGES && (f - addr / PAGE_SIZE) % PAGES < pages
  {
    if pages > 0 {
      RangeIsConsecutive(addr, pages - 1, f);
      FrameAfter(addr, pages - 1, f);
    }
  }

  lemma FrameAfter(addr: uint32, i: nat, f: nat)
    ensures f == Wrap(addr + PAGE_SIZE * i) / PAGE_SIZE <==> f < PAGES && (f - addr / PAGE_SIZE) % PAGES == i % PAGES
  {
    var p, o := addr / 0x1000, addr % 0x1000;
    var q, r := (p + i) / 0x10_0000, (p + i) % 0x10_0000;
    assert addr + PAGE_SIZE * i == 0x1_0000_0000 * q + (0x1000 * r + o);
    assert Wrap(addr + PAGE_SIZE * i) == 0x1000 * r + o;
    assert (0x1000 * r + o) / 0x1000 == r;
    SameResidue(f, r, p, i, q);
  }

  lemma SameResidue(f: nat, r: nat, p: nat, i: nat, q: nat)
    requires p + i == 0x10_0000 * q + r && r < 0x10_0000
    ensures f == r <==> f < 0x10_0000 && (f - p) % 0x10_0000 == i % 0x10_0000
  {
    if f < 0x10_0000 && (f - p) % 0x10_0000 == i % 0x10_0000 {
      var k := (f - p) / 0x10_0000 - i / 0x10_0000;
      assert f - r == 0x10_0000 * (k + q);
    }
    if f == r {
      assert f - p == i - 0x10_0000 * q;
    }
  }

  class FrameMap {
    const memoryMap: array<uint32>
    var lock: bool

    ghost predicate Valid()
      reads this, memoryMap
    {
      memoryMap.Length == ENTRIES + 1 && memoryMap[ENTRIES] == 0xFFFF_FFFF
    }

    ghost function Frames(): (free: set<nat>)
      requires Valid()
      reads this, memoryMap
      ensures forall f :: f in free ==> f < PAGES
    {
      FreeFrames(memoryMap[..])
    }

    /** Memory that starts out zero, then mem_phys_init: no frame is free. */
    constructor ()
      ensures Valid() && fresh(memoryMap) && Frames() == {} && !lock
    {
      memoryMap := new uint32[ENTRIES + 1](_ => 0);
      lock := false;
      new;
      memoryMap[ENTRIES] := 0xFFFF_FFFF;
      ZeroWords(memoryMap[..], ENTRIES);
    }

    method MemPhysFree(addr: uint32)
      requires Valid()
      modifies memoryMap
      ensures Valid() && Frames() == old(Frames()) + {addr / PAGE_SIZE}
    {
      MarkedFrames(memoryMap[..], addr / PAGE_SIZE);
      var page := addr / PAGE_SIZE;
      var id, bit := page / BITS, page % BITS;
      memoryMap[id] := Marked(memoryMap[id], bit);
      assert memoryMap[..] == old(memoryMap[..])[id := Marked(old(memoryMap[id]), bit)];
    }

    method MemPhysReserve(addr: uint32)
      requires Valid()
      modifies memoryMap
      ensures Valid() && Frames() == old(Frames()) - {addr / PAGE_SIZE}
    {
      ClearedFrames(memoryMap[..], addr / PAGE_SIZE);
      var page := addr / PAGE_SIZE;
      var id, bit := page / BITS, page % BITS;
      memoryMap[id] := Cleared(memoryMap[id], bit);
      assert memoryMap[..] == old(memoryMap[..])[id := Cleared(old(memoryMap[id]), bit)];
    }

    /**
     * The lowest free frame, no longer free; or, exactly when there is none, 0xDEADC0DE,
     * and then the lock stays taken.
     */
    method MemPhysAlloc() returns (addr: uint32)
      requires Valid() && !lock
      modifies this, memoryMap
      ensures Valid() && lock == (old(Frames()) == {})
      ensures old(Frames()) == {} ==> addr == EXHAUSTED && Frames() == {}
      ensures old(Frames()) != {} ==> addr % PAGE_SIZE == 0 && addr / PAGE_SIZE in old(Frames())
                                      && (forall f :: f in old(Frames()) ==> addr / PAGE_SIZE <= f)
                                      && Frames() == old(Frames()) - {addr / PAGE_SIZE}
    {
      lock := true;
      var i: uint32 := FirstWord();
      if i == ENTRIES {
        return EXHAUSTED;
      }
      var bit := FirstBit(memoryMap[i]);
      FrameAt(i, bit);
      LeastFrame(memoryMap[..], i, bit);
      addr := PAGE_SIZE * (BITS * i + bit);
      MemPhysReserve(addr);
      lock := false;
    }

    /** The first loop of mem_phys_alloc; the guard ends it. */
    method FirstWord() returns (i: uint32)
      requires Valid()
      ensures i <= ENTRIES && memoryMap[i] != 0
      ensures i == ENTRIES <==> Frames() == {}
      ensures forall j :: 0 <= j < i ==> memoryMap[j] == 0
    {
      i := 0;
      while memoryMap[i] == 0
        invariant i <= ENTRIES && forall j :: 0 <= j < i ==> memoryMap[j] == 0
        decreases ENTRIES - i
      {
        i := i + 1;
      }
      ZeroWords(memoryMap[..], i);
      if i < ENTRIES {
        ZeroWords(memoryMap[..], i + 1);
        var f: nat :| f < BITS * (i + 1) && IsFree(memoryMap[..], f);
        assert f in Frames();
      }
    }

    method MemPhysFreeRange(addr: uint32, pages: uint32)
      requires Valid()
      modifies memoryMap
      ensures Valid() && Frames() == old(Frames()) + RangeFrames(addr, pages)
    {
      var i: uint32 := 0;
      while i < pages
        invariant i <= pages && Valid() && Frames() == old(Frames()) + RangeFrames(addr, i)
      {
        MemPhysFree(Wrap(addr + PAGE_SIZE * i));
        i := i + 1;
      }
    }

    method MemPhysReserveRange(addr: uint32, pages: uint32)
      requires Valid()
      modifies memoryMap
      ensures Valid() && Frames() == old(Frames()) - RangeFrames(addr, pages)
    {
      var i: uint32 := 0;
      while i < pages
        invariant i <= pages && Valid() && Frames() == old(Frames()) - RangeFrames(addr, i)
      {
        MemPhysReserve(Wrap(addr + PAGE_SIZE * i));
        i := i + 1;
      }
    }
  }

  /** The second loop of mem_phys_alloc: shifts until the lowest bit is set. */
  method FirstBit(word: uint32) returns (bit: uint8)
    requires word != 0
    ensures bit < BITS && Bit(word, bit) && forall c: nat :: c < bit ==> !Bit(word, c)
  {
    WordBits();
    var tmp: uint32 := word;
    bit := 0;
    while tmp % 2 == 0
      invariant tmp != 0 && bit <= BITS && tmp < OneShifted(BITS - bit) && tmp == ShiftRight(word, bit)
      invariant forall c: nat :: c < bit ==> !Bit(word, c)
      decreases tmp
    {
      ShiftBit(word, bit);
      tmp := tmp / 2;
      bit := bit + 1;
    }
    ShiftBit(word, bit);
  }

  /** The lowest bit of the first word that is not zero is the lowest free frame. */
  lemma LeastFrame(words: Words, i: nat, bit: nat)
    requires i < ENTRIES && bit < BITS && forall j :: 0 <= j < i ==> words[j] == 0
    requires Bit(words[i], bit) && forall c: nat :: c < bit ==> !Bit(words[i], c)
    ensures BITS * i + bit in FreeFrames(words)
    ensures forall f :: f in FreeFrames(words) ==> BITS * i + bit <= f
  {
    FrameAt(i, bit);
    ZeroWords(words, i);
    forall f | f in FreeFrames(words)
      ensures BITS * i + bit <= f
    {
      assert f == BITS * (f / BITS) + f % BITS;
    }
  }
}

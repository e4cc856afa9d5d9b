/** Two-level page tables as the processor walks them, and what one map operation does to them. */
module PageTables {
  import opened MachineTypes
  import opened Palloc

  type Table = t: seq<uint32> | |t| == 1024 witness seq(1024, _ => 0)

  function Zeros(): Table {
    seq(1024, _ => 0)
  }

  /** Physical memory, frame by frame. */
  type Ram = m: seq<Table> | |m| == PAGES witness seq<Table>(PAGES, _ => Zeros())

  const PAGE_PRESENT: uint32 := 1
  const PAGE_WRITABLE: uint32 := 2
  const PAGE_USERMODE: uint32 := 4

  predicate Present(entry: uint32) { entry % 2 == 1 }

  predicate Writable(entry: uint32) { entry / 2 % 2 == 1 }

  predicate User(entry: uint32) { entry / 4 % 2 == 1 }

  function FrameOf(entry: uint32): (f: nat)
    ensures f < PAGES
  {
    entry / PAGE_SIZE
  }

  function PageEntry(addr: uint32, flags: uint32): (entry: uint32)
    ensures FrameOf(entry) == addr / PAGE_SIZE
    ensures Present(entry) == Present(flags) && Writable(entry) == Writable(flags) && User(entry) == User(flags)
  {
    LowFlags(addr / PAGE_SIZE, flags);
    addr / PAGE_SIZE * PAGE_SIZE + flags % PAGE_SIZE
  }

  /** The flags of an entry are the low 12 bits of the flags given. */
  lemma LowFlags(frame: nat, flags: uint32)
    requires frame < PAGES
    ensures var entry := frame * 0x1000 + flags % 0x1000;
            && entry < WORD && entry / 0x1000 == frame && entry % 2 == flags % 2
            && entry / 2 % 2 == flags / 2 % 2 && entry / 4 % 2 == flags / 4 % 2
  {
    var low, high := flags % 0x1000, flags / 0x1000;
    ThreeBits(512 * frame + low / 8, low % 8, frame * 0x1000 + low);
    ThreeBits(512 * high + low / 8, low % 8, flags);
  }

  lemma ThreeBits(n: nat, b: nat, x: nat)
    requires b < 8 && x == 8 * n + b
    ensures x % 2 == b % 2 && x / 2 % 2 == b / 2 % 2 && x / 4 % 2 == b / 4 % 2
  {
    Halved(4 * n, b);
    Halved(2 * n, b / 2);
    Halved(n, b / 2 / 2);
    Quartered(x);
    Quartered(b);
  }

  lemma Halved(n: nat, b: nat)
    ensures (2 * n + b) % 2 == b % 2 && (2 * n + b) / 2 == n + b / 2
  {
  }

  lemma Quartered(x: nat)
    ensures x / 4 == x / 2 / 2
  {
  }

  function DirIndex(v: uint32): (i: nat)
    ensures i < 1024
  {
    v / 0x40_0000
  }

  function TableIndex(v: uint32): (i: nat)
    ensures i < 1024
  {
    v / PAGE_SIZE % 1024
  }

  function WordIndex(v: uint32): (i: nat)
    ensures i < 1024
  {
    v % PAGE_SIZE / 4
  }

  datatype Translation = Fault | To(frame: nat, writable: bool, user: bool)

  /** Section 4.3 of the Intel SDM, Volume 3A: the walk from the directory in CR3, for 4-KByte pages. */
  function Walk(ram: Ram, dir: nat, v: uint32): (t: Translation)
    requires dir < PAGES
    ensures t.To? ==> t.frame < PAGES
  {
    var pde := ram[dir][DirIndex(v)];
    if !Present(pde) then Fault
    else
      var pte := ram[FrameOf(pde)][TableIndex(v)];
      if !Present(pte) then Fault
      else To(FrameOf(pte), Writable(pde) && Writable(pte), User(pde) && User(pte))
  }

  /** The slot of a directory that points back at the directory. */
  const SELF := 1023

  /** Where the self-map shows the page tables, and where it shows the directory. */
  const TABLES_VIRT: uint32 := 0xFFC0_0000
  const PAGE_DIR_VIRT_ADDR: uint32 := 0xFFFF_F000

  predicate SelfMapped(ram: Ram, dir: nat)
    requires dir < PAGES
  {
    Present(ram[dir][SELF]) && FrameOf(ram[dir][SELF]) == dir
  }

  /** The address of word j of the table of slot i. */
  function InTable(i: nat, j: nat): (v: uint32)
    requires i < 1024 && j < 1024
    ensures DirIndex(v) == SELF && TableIndex(v) == i && WordIndex(v) == j && v >= TABLES_VIRT
    ensures i == SELF ==> v == PAGE_DIR_VIRT_ADDR + 4 * j
  {
    TABLES_VIRT + i * PAGE_SIZE + 4 * j
  }

  /** What the self-map shows: the directory in its last page, and below it the present tables. */
  lemma SelfMapShows(ram: Ram, dir: nat, i: nat, j: nat)
    requires dir < PAGES && SelfMapped(ram, dir) && i < 1024 && j < 1024
    ensures Present(ram[dir][i]) ==> Walk(ram, dir, InTable(i, j)).To?
                                     && Walk(ram, dir, InTable(i, j)).frame == FrameOf(ram[dir][i])
    ensures !Present(ram[dir][i]) ==> Walk(ram, dir, InTable(i, j)).Fault?
  {
  }

  /** Memory, its free frames, and which frames hold page directories and page tables. */
  datatype Memory = Memory(ram: Ram, free: set<nat>, dirs: set<nat>, tables: set<nat>)

  predicate PointsAtTables(ram: Ram, dir: nat, tables: set<nat>)
    requires dir < PAGES
  {
    forall i :: 0 <= i < SELF && Present(ram[dir][i]) ==> FrameOf(ram[dir][i]) in tables
  }

  /**
   * No frame is of two kinds, every directory maps itself, and the other slots of directories
   * point at page tables.
   */
  ghost predicate Tidy(m: Memory) {
    && m.dirs !! m.tables && m.dirs !! m.free && m.tables !! m.free
    && (forall f :: f in m.dirs || f in m.tables || f in m.free ==> f < PAGES)
    && forall d :: d in m.dirs ==> SelfMapped(m.ram, d) && PointsAtTables(m.ram, d, m.tables)
  }

  /** Entry i of frame f is one of the words that the walk of v from dir reads. */
  predicate Reads(ram: Ram, dir: nat, v: uint32, f: nat, i: nat)
    requires dir < PAGES
  {
    || (f == dir && i == DirIndex(v))
    || (Present(ram[dir][DirIndex(v)]) && f == FrameOf(ram[dir][DirIndex(v)]) && i == TableIndex(v))
  }

  function Written(ram: Ram, f: nat, i: nat, word: uint32): Ram
    requires f < PAGES && i < 1024
  {
    ram[f := ram[f][i := word]]
  }

  predicate HasTable(m: Memory, dir: nat, virt: uint32)
    requires dir < PAGES
  {
    Present(m.ram[dir][DirIndex(virt)])
  }

  const TABLE_FLAGS: uint32 := PAGE_WRITABLE + PAGE_USERMODE + PAGE_PRESENT

  /** The memory after paging_map; `spare` is the frame it gets if it needs a new table. */
  function MapPage(m: Memory, dir: nat, virt: uint32, phys: uint32, flags: uint32, spare: nat): Memory
    requires dir < PAGES && spare < PAGES
  {
    if HasTable(m, dir, virt) then
      m.(ram := Written(m.ram, FrameOf(m.ram[dir][DirIndex(virt)]), TableIndex(virt), PageEntry(phys, flags)))
    else
      var linked := Written(m.ram, dir, DirIndex(virt), PageEntry(spare * PAGE_SIZE, TABLE_FLAGS));
      Memory(linked[spare := Zeros()[TableIndex(virt) := PageEntry(phys, flags)]],
             m.free - {spare}, m.dirs, m.tables + {spare})
  }

  /** When paging_map can work: the directory is one of ours, and a frame for a new table is free. */
  predicate MayMap(m: Memory, dir: nat, virt: uint32, spare: nat) {
    && dir in m.dirs && dir < PAGES && virt < TABLES_VIRT && spare < PAGES
    && (!HasTable(m, dir, virt) ==> spare in m.free)
  }

  ghost predicate CanMap(m: Memory, dir: nat, virt: uint32, spare: nat) {
    Tidy(m) && MayMap(m, dir, virt, spare)
  }

  /** Mapping keeps the structures tidy. */
  lemma MapTidy(m: Memory, dir: nat, virt: uint32, phys: uint32, flags: uint32, spare: nat)
    requires CanMap(m, dir, virt, spare)
    ensures Tidy(MapPage(m, dir, virt, phys, flags, spare))
  {
  }

  /** What an entry just written translates to, in a slot that held `pde`; an absent slot gets a table with all rights. */
  function Entered(pde: uint32, phys: uint32, flags: uint32): Translation {
    if Present(flags)
    then To(phys / PAGE_SIZE, Writable(flags) && (Present(pde) ==> Writable(pde)), User(flags) && (Present(pde) ==> User(pde)))
    else Fault
  }

  /** The address mapped translates to the frame asked for, with the rights of the slot and the flags. */
  lemma MapTranslates(m: Memory, dir: nat, virt: uint32, phys: uint32, flags: uint32, spare: nat)
    requires CanMap(m, dir, virt, spare)
    ensures var t, pde := Walk(MapPage(m, dir, virt, phys, flags, spare).ram, dir, virt), m.ram[dir][DirIndex(virt)];
            && t == Entered(pde, phys, flags) && (t.To? <==> Present(flags))
            && (t.To? ==> t.frame == phys / PAGE_SIZE
                          && t.writable == (Writable(flags) && (Present(pde) ==> Writable(pde)))
                          && t.user == (User(flags) && (Present(pde) ==> User(pde))))
  {
  }

  /** The word that decides the mapping: the table's entry, or the directory's slot if there is no table. */
  predicate Touches(m: Memory, dir: nat, virt: uint32, d: nat, v: uint32)
    requires dir < PAGES && d < PAGES
  {
    if HasTable(m, dir, virt) then Reads(m.ram, d, v, FrameOf(m.ram[dir][DirIndex(virt)]), TableIndex(virt))
    else Reads(m.ram, d, v, dir, DirIndex(virt))
  }

  /** In every directory, every walk that does not read that word gives what it gave before. */
  lemma MapKeeps(m: Memory, dir: nat, virt: uint32, phys: uint32, flags: uint32, spare: nat, d: nat, v: uint32)
    requires CanMap(m, dir, virt, spare) && d in m.dirs && !Touches(m, dir, virt, d, v)
    ensures Walk(MapPage(m, dir, virt, phys, flags, spare).ram, d, v) == Walk(m.ram, d, v)
  {
  }

  /** Below the self-map, only addresses that reach the same table and index, or lie in the new table's slot, change. */
  lemma TouchesBelow(m: Memory, dir: nat, virt: uint32, d: nat, v: uint32)
    requires Tidy(m) && dir in m.dirs && d in m.dirs && virt < TABLES_VIRT && v < TABLES_VIRT
    ensures Touches(m, dir, virt, d, v) <==>
              if HasTable(m, dir, virt)
              then HasTable(m, d, v) && TableIndex(v) == TableIndex(virt)
                   && FrameOf(m.ram[d][DirIndex(v)]) == FrameOf(m.ram[dir][DirIndex(virt)])
              else d == dir && DirIndex(v) == DirIndex(virt)
  {
  }

  /** A new table maps the one page and nothing else of the 4 MBytes of its slot. */
  lemma NewTableMapsOnePage(m: Memory, dir: nat, virt: uint32, phys: uint32, flags: uint32, spare: nat, v: uint32)
    requires CanMap(m, dir, virt, spare) && !HasTable(m, dir, virt) && DirIndex(v) == DirIndex(virt)
    ensures Walk(MapPage(m, dir, virt, phys, flags, spare).ram, dir, v) ==
              if v / PAGE_SIZE == virt / PAGE_SIZE && Present(flags)
              then To(phys / PAGE_SIZE, Writable(flags), User(flags)) else Fault
  {
    SamePage(v, virt);
  }

  lemma SamePage(v: uint32, w: uint32)
    ensures v / PAGE_SIZE == w / PAGE_SIZE <==> DirIndex(v) == DirIndex(w) && TableIndex(v) == TableIndex(w)
  {
    SlotOfPage(v);
    SlotOfPage(w);
  }

  lemma SlotOfPage(v: uint32)
    ensures v / 0x1000 == 1024 * DirIndex(v) + TableIndex(v)
  {
    assert v / 0x40_0000 == v / 0x1000 / 1024;
  }

  /** All addresses of a page translate alike. */
  lemma WalkByPage(ram: Ram, dir: nat, v: uint32, w: uint32)
    requires dir < PAGES && v / PAGE_SIZE == w / PAGE_SIZE
    ensures Walk(ram, dir, v) == Walk(ram, dir, w)
  {
    SamePage(v, w);
  }

  /** A frame that is neither a directory nor a table plays no part in translation. */
  lemma OtherFramesDoNotMatter(m: Memory, f: nat, content: Table, d: nat, v: uint32)
    requires Tidy(m) && f < PAGES && f !in m.dirs && f !in m.tables && d in m.dirs
    ensures Tidy(m.(ram := m.ram[f := content])) && Walk(m.ram[f := content], d, v) == Walk(m.ram, d, v)
  {
  }
}

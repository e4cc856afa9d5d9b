/** kernel/paging.c: page tables edited through the directory's map of itself. */
module Paging {
  import opened MachineTypes
  import opened Palloc
  import opened PageTables

  /** Where page_dir_clone maps the two directories. */
  const OLDDIR_VIRT: uint32 := 0xCCCC_0000
  const NEWDIR_VIRT: uint32 := 0xDDDD_0000

  function PageTableVirtAddr(id: nat): (v: uint32)
    requires id < 1024
    ensures v == InTable(id, 0)
  {
    Wrap(PAGE_DIR_VIRT_ADDR - 0x40_0000 + (id + 1) * 0x1000)
  }

  /** What kernel/entry.s leaves in the two frames. */
  predicate Booted(ram: Ram, dir: nat, table: nat)
    requires dir < PAGES && table < PAGES
  {
    && (forall i :: 0 <= i < 1024 ==> ram[table][i] == PageEntry(i * PAGE_SIZE, 7))
    && (forall i :: 0 <= i < 1024 ==>
                      ram[dir][i] == if i == 0 || i == 768 then PageEntry(table * PAGE_SIZE, 7)
                                     else if i == SELF then PageEntry(dir * PAGE_SIZE, 7) else 0)
  }

  /** The first 4 MBytes appear at 0 and at 0xC0000000, and nothing else below the self-map. */
  lemma BootMap(ram: Ram, dir: nat, table: nat, v: uint32)
    requires dir < PAGES && table < PAGES && Booted(ram, dir, table) && v < TABLES_VIRT
    ensures Walk(ram, dir, v) == if v < 0x40_0000 || 0xC000_0000 <= v < 0xC040_0000
                                 then To(v % 0x40_0000 / PAGE_SIZE, true, true) else Fault
  {
    assert TableIndex(v) == v % 0x40_0000 / PAGE_SIZE;
    assert DirIndex(v) == 0 <==> v < 0x40_0000;
    assert DirIndex(v) == 768 <==> 0xC000_0000 <= v < 0xC040_0000;
  }

  class Machine {
    var ram: Ram
    var cr3: nat
    const frames: FrameMap

    ghost var dirs: set<nat>
    ghost var tables: set<nat>

    ghost function State(): Memory
      requires frames.Valid()
      reads this, frames, frames.memoryMap
    {
      Memory(ram, frames.Frames(), dirs, tables)
    }

    ghost predicate Valid()
      reads this, frames, frames.memoryMap
    {
      frames.Valid() && !frames.lock && Tidy(State()) && cr3 in dirs
    }

    /**
     * kernel/entry.s: the first 4 MBytes appear at 0 and at 0xC0000000, through one page table
     * in two slots, and the directory maps itself.
     */
    constructor (memory: Ram, kpageDir: nat, kpageTable: nat, frames: FrameMap)
      requires frames.Valid() && !frames.lock
      requires kpageDir < PAGES && kpageTable < PAGES && kpageDir != kpageTable
      requires kpageDir !in frames.Frames() && kpageTable !in frames.Frames()
      ensures Valid() && this.frames == frames && cr3 == kpageDir && dirs == {kpageDir} && tables == {kpageTable}
      ensures Booted(ram, kpageDir, kpageTable)
    {
      this.frames, cr3, dirs, tables := frames, kpageDir, {kpageDir}, {kpageTable};
      var r := memory;
      var i := 0;
      while i < 1024
        invariant i <= 1024
        invariant forall j :: 0 <= j < i ==> r[kpageDir][j] == 0 && r[kpageTable][j] == PageEntry(j * PAGE_SIZE, 7)
      {
        r := Written(r, kpageDir, i, 0);
        r := Written(r, kpageTable, i, PageEntry(i * PAGE_SIZE, 7));
        i := i + 1;
      }
      r := Written(r, kpageDir, 0, PageEntry(kpageTable * PAGE_SIZE, 7));
      r := Written(r, kpageDir, 768, PageEntry(kpageTable * PAGE_SIZE, 7));
      r := Written(r, kpageDir, SELF, PageEntry(kpageDir * PAGE_SIZE, 7));
      ram := r;
      new;
    }

    /** A supervisor load through the page tables. */
    method Load(v: uint32) returns (word: uint32)
      requires cr3 < PAGES && Walk(ram, cr3, v).To?
      ensures word == ram[Walk(ram, cr3, v).frame][WordIndex(v)]
    {
      word := ram[Walk(ram, cr3, v).frame][WordIndex(v)];
    }

    /** A supervisor store, which ignores the writable bits because CR0.WP is clear. */
    method Store(v: uint32, word: uint32)
      requires cr3 < PAGES && Walk(ram, cr3, v).To?
      modifies this`ram
      ensures ram == Written(old(ram), Walk(old(ram), cr3, v).frame, WordIndex(v), word)
    {
      ram := Written(ram, Walk(ram, cr3, v).frame, WordIndex(v), word);
    }

    method PagingIsMapped(virt: uint32) returns (mapped: uint32)
      requires Valid()
      ensures mapped == if Walk(ram, cr3, virt).To? then 1 else 0
    {
      var index := DirIndex(virt);
      SelfMapShows(ram, cr3, SELF, index);
      SelfMapShows(ram, cr3, index, TableIndex(virt));
      var entry := Load(PAGE_DIR_VIRT_ADDR + 4 * index);
      if Present(entry) {
        var pte := Load(PageTableVirtAddr(index) + 4 * TableIndex(virt));
        mapped := pte % 2;
      } else {
        return 0;
      }
    }

    method PagingGetPhys(addr: uint32) returns (phys: uint32)
      requires Valid()
      ensures phys == if Walk(ram, cr3, addr).To? then Walk(ram, cr3, addr).frame * PAGE_SIZE else 0
    {
      var index := DirIndex(addr);
      var mapped := PagingIsMapped(addr);
      if mapped == 0 {
        return 0;
      }
      SelfMapShows(ram, cr3, index, TableIndex(addr));
      var pte := Load(PageTableVirtAddr(index) + 4 * TableIndex(addr));
      phys := FrameOf(pte) * PAGE_SIZE;
    }

    /** kmemset32 over a page that the self-map shows. */
    method ClearTable(index: nat)
      requires cr3 < PAGES && SelfMapped(ram, cr3) && index < SELF && Present(ram[cr3][index])
      requires FrameOf(ram[cr3][index]) != cr3
      modifies this`ram
      ensures ram == old(ram)[FrameOf(old(ram)[cr3][index]) := Zeros()]
    {
      var i := 0;
      ghost var frame := FrameOf(ram[cr3][index]);
      while i < 1024
        invariant i <= 1024 && |ram[frame]| == 1024 && forall j :: 0 <= j < i ==> ram[frame][j] == 0
        invariant ram == old(ram)[frame := ram[frame]]
      {
        SelfMapShows(ram, cr3, index, i);
        Store(PageTableVirtAddr(index) + 4 * i, 0);
        i := i + 1;
      }
      assert ram[frame] == Zeros();
    }

    /** A cleared table for a slot that has none. */
    method NewTable(index: nat) returns (ghost spare: nat)
      requires Valid() && index < SELF && !Present(ram[cr3][index]) && frames.Frames() != {}
      modifies this`ram, frames, frames.memoryMap
      ensures frames.Valid() && !frames.lock
      ensures spare in old(frames.Frames()) && frames.Frames() == old(frames.Frames()) - {spare}
      ensures ram == Written(old(ram), cr3, index, PageEntry(spare * PAGE_SIZE, TABLE_FLAGS))[spare := Zeros()]
    {
      assert SelfMapped(ram, cr3) && cr3 !in frames.Frames();
      var frame := frames.MemPhysAlloc();
      spare := frame / PAGE_SIZE;
      SelfMapShows(ram, cr3, SELF, index);
      assert InTable(SELF, index) == PAGE_DIR_VIRT_ADDR + 4 * index;
      Store(PAGE_DIR_VIRT_ADDR + 4 * index, PageEntry(frame, TABLE_FLAGS));
      assert spare != cr3;
      ClearTable(index);
    }

    /** The page of virt now belongs to phys, or to nothing; a missing page table gets a frame of its own. */
    method PagingMap(virt: uint32, phys: uint32, flags: uint32) returns (ghost spare: nat)
      requires Valid() && virt < TABLES_VIRT
      requires HasTable(State(), cr3, virt) || frames.Frames() != {}
      modifies this`ram, this`tables, frames, frames.memoryMap
      ensures Valid() && CanMap(old(State()), cr3, virt, spare)
      ensures State() == MapPage(old(State()), cr3, virt, phys, flags, spare)
    {
      var index := DirIndex(virt);
      ghost var m := State();
      SelfMapShows(ram, cr3, SELF, index);
      assert InTable(SELF, index) == PAGE_DIR_VIRT_ADDR + 4 * index;
      var entry := Load(PAGE_DIR_VIRT_ADDR + 4 * index);
      spare := 0;
      if !Present(entry) {
        spare := NewTable(index);
        tables := tables + {spare};
      }
      StoreEntry(virt, PageEntry(phys, flags));
      assert State() == MapPage(m, cr3, virt, phys, flags, spare);
      MapTidy(m, cr3, virt, phys, flags, spare);
    }

    /** The last store of paging_map, into the table of the address. */
    method StoreEntry(virt: uint32, entry: uint32)
      requires cr3 < PAGES && SelfMapped(ram, cr3) && virt < TABLES_VIRT && Present(ram[cr3][DirIndex(virt)])
      modifies this`ram
      ensures ram == Written(old(ram), FrameOf(old(ram)[cr3][DirIndex(virt)]), TableIndex(virt), entry)
    {
      SelfMapShows(ram, cr3, DirIndex(virt), TableIndex(virt));
      Store(PageTableVirtAddr(DirIndex(virt)) + 4 * TableIndex(virt), entry);
    }

    /** The active directory becomes another of ours. */
    method PageDirSwitch(newpdir: uint32)
      requires Valid() && newpdir / PAGE_SIZE in dirs
      modifies this`cr3
      ensures Valid() && cr3 == newpdir / PAGE_SIZE
    {
      cr3 := newpdir / PAGE_SIZE;
    }

    /** The copying loop of page_dir_clone, through its two windows. */
    method CopySlots(newdir: uint32, ghost olddir: nat)
      requires Valid() && olddir in dirs && newdir / PAGE_SIZE !in dirs && newdir / PAGE_SIZE !in tables
      requires Shows(ram, cr3, OLDDIR_VIRT, olddir) && Shows(ram, cr3, NEWDIR_VIRT, newdir / PAGE_SIZE)
      modifies this`ram
      ensures ram == old(ram)[newdir / PAGE_SIZE := old(ram)[olddir][..SELF] + [PageEntry(newdir, PAGE_PRESENT)]]
    {
      ghost var m, f := State(), newdir / PAGE_SIZE;
      var i := 0;
      assert m.ram[f] == m.ram[olddir][..0] + m.ram[f][0..];
      while i < 1023
        invariant i <= 1023 && ram == m.ram[f := m.ram[olddir][..i] + m.ram[f][i..]]
      {
        WindowKept(m, f, ram[f], cr3, OLDDIR_VIRT, i);
        WindowKept(m, f, ram[f], cr3, NEWDIR_VIRT, i);
        var word := Load(OLDDIR_VIRT + 4 * i);
        Store(NEWDIR_VIRT + 4 * i, word);
        OneSlotMore(m.ram[olddir], m.ram[f], i);
        i := i + 1;
      }
      WindowKept(m, f, ram[f], cr3, NEWDIR_VIRT, 1023);
      Store(NEWDIR_VIRT + 4 * 1023, PageEntry(newdir, PAGE_PRESENT));
      LastSlot(m.ram[olddir], m.ram[f], PageEntry(newdir, PAGE_PRESENT));
    }

    /** The copy is a directory from now on. */
    method AddDirectory(newdir: uint32, ghost olddir: nat)
      requires Valid() && olddir in dirs && newdir % PAGE_SIZE == 0
      requires var f := newdir / PAGE_SIZE; f !in dirs && f !in tables && f !in frames.Frames()
      requires Shows(ram, cr3, OLDDIR_VIRT, olddir) && Shows(ram, cr3, NEWDIR_VIRT, newdir / PAGE_SIZE)
      modifies this`ram, this`dirs
      ensures Valid() && State() == Copied(old(State()), olddir, newdir / PAGE_SIZE)
    {
      ghost var m := State();
      CopySlots(newdir, olddir);
      dirs := dirs + {newdir / PAGE_SIZE};
      CopiedTidy(m, olddir, newdir / PAGE_SIZE);
    }

    /** The first part of page_dir_clone: a frame for the new directory, and both directories in their windows. */
    method OpenWindows(olddir: uint32) returns (newdir: uint32, ghost spares: (nat, nat))
      requires Valid() && olddir / PAGE_SIZE in dirs && |frames.Frames()| >= 3
      modifies this`ram, this`tables, frames, frames.memoryMap
      ensures Valid() && newdir % PAGE_SIZE == 0
      ensures CanClone(old(State()), cr3, olddir / PAGE_SIZE, newdir / PAGE_SIZE, spares)
      ensures State() == Opened(old(State()), cr3, olddir / PAGE_SIZE, newdir / PAGE_SIZE, spares)
    {
      ghost var m := State();
      newdir := frames.MemPhysAlloc();
      ghost var m1 := State();
      assert m1 == m.(free := m.free - {newdir / PAGE_SIZE}) && |m1.free| == |m.free| - 1;
      ghost var first := PagingMap(OLDDIR_VIRT, olddir / PAGE_SIZE * PAGE_SIZE, WINDOW_FLAGS);
      ghost var m2 := State();
      assert |m2.free| >= |m1.free| - 1;
      ghost var second := PagingMap(NEWDIR_VIRT, newdir / PAGE_SIZE * PAGE_SIZE, WINDOW_FLAGS);
      spares := (first, second);
      BothMapped(m, cr3, olddir / PAGE_SIZE, newdir / PAGE_SIZE, spares);
    }

    /** The last part of page_dir_clone. */
    method CloseWindows()
      requires Valid() && HasTable(State(), cr3, OLDDIR_VIRT) && HasTable(State(), cr3, NEWDIR_VIRT)
      modifies this`ram, this`tables, frames, frames.memoryMap
      ensures Valid() && State() == Closed(old(State()), cr3)
    {
      ghost var m := State();
      TablesStay(m, cr3, OLDDIR_VIRT, 0, 0, 0, NEWDIR_VIRT);
      ghost var third := PagingMap(OLDDIR_VIRT, 0, 0);
      assert State() == MapPage(m, cr3, OLDDIR_VIRT, 0, 0, 0);
      ghost var fourth := PagingMap(NEWDIR_VIRT, 0, 0);
    }

    /** A new directory with the old one's slots and a map of itself. */
    method PageDirClone(olddir: uint32) returns (newdir: uint32, ghost spares: (nat, nat))
      requires Valid() && olddir / PAGE_SIZE in dirs && |frames.Frames()| >= 3
      modifies this`ram, this`dirs, this`tables, frames, frames.memoryMap
      ensures Valid() && newdir % PAGE_SIZE == 0
      ensures CanClone(old(State()), cr3, olddir / PAGE_SIZE, newdir / PAGE_SIZE, spares)
      ensures State() == Cloned(old(State()), cr3, olddir / PAGE_SIZE, newdir / PAGE_SIZE, spares)
    {
      ghost var m := State();
      newdir, spares := OpenWindows(olddir);
      OpenedShows(m, cr3, olddir / PAGE_SIZE, newdir / PAGE_SIZE, spares);
      AddDirectory(newdir, olddir / PAGE_SIZE);
      CloseWindows();
    }
  }

  lemma OneSlotMore(from: Table, to: Table, i: nat)
    requires i < 1024
    ensures (from[..i] + to[i..])[i := from[i]] == from[..i + 1] + to[i + 1..]
  {
  }

  lemma LastSlot(from: Table, to: Table, entry: uint32)
    ensures (from[..1023] + to[1023..])[1023 := entry] == from[..1023] + [entry]
  {
  }

  /** The page at v shows a frame. */
  predicate Shows(ram: Ram, dir: nat, v: uint32, f: nat)
    requires dir < PAGES
  {
    Walk(ram, dir, v).To? && Walk(ram, dir, v).frame == f
  }

  /** A window still shows what it showed while the new directory is being written. */
  lemma WindowKept(m: Memory, f: nat, content: Table, dir: nat, window: uint32, i: nat)
    requires Tidy(m) && f < PAGES && f !in m.dirs && f !in m.tables && dir in m.dirs
    requires window % PAGE_SIZE == 0 && i < 1024
    ensures window + 4 * i < WORD && WordIndex(window + 4 * i) == i
    ensures Walk(m.ram[f := content], dir, window + 4 * i) == Walk(m.ram, dir, window)
  {
    OtherFramesDoNotMatter(m, f, content, dir, window);
    WalkByPage(m.ram[f := content], dir, window, window + 4 * i);
  }

  /** The rights of the windows. */
  const WINDOW_FLAGS: uint32 := PAGE_WRITABLE + PAGE_PRESENT

  /** The memory with the old directory in its window. */
  function HalfOpened(m: Memory, cr3: nat, olddir: nat, newdir: nat, spares: (nat, nat)): Memory
    requires cr3 < PAGES && olddir < PAGES && spares.0 < PAGES
  {
    MapPage(m.(free := m.free - {newdir}), cr3, OLDDIR_VIRT, olddir * PAGE_SIZE, WINDOW_FLAGS, spares.0)
  }

  /** The memory with both directories in their windows, as page_dir_clone copies between them. */
  function Opened(m: Memory, cr3: nat, olddir: nat, newdir: nat, spares: (nat, nat)): Memory
    requires cr3 < PAGES && olddir < PAGES && newdir < PAGES && spares.0 < PAGES && spares.1 < PAGES
  {
    MapPage(HalfOpened(m, cr3, olddir, newdir, spares), cr3, NEWDIR_VIRT, newdir * PAGE_SIZE, WINDOW_FLAGS, spares.1)
  }

  /** Both windows can be opened, one after the other. */
  lemma BothCanOpen(m: Memory, cr3: nat, olddir: nat, newdir: nat, spares: (nat, nat))
    requires CanClone(m, cr3, olddir, newdir, spares)
    ensures var h := HalfOpened(m, cr3, olddir, newdir, spares);
            && CanMap(m.(free := m.free - {newdir}), cr3, OLDDIR_VIRT, spares.0) && CanMap(h, cr3, NEWDIR_VIRT, spares.1)
            && h.dirs == m.dirs && newdir !in h.dirs && newdir !in h.tables && newdir !in h.free
  {
    MapTidy(m.(free := m.free - {newdir}), cr3, OLDDIR_VIRT, olddir * PAGE_SIZE, WINDOW_FLAGS, spares.0);
  }

  function Copied(m: Memory, olddir: nat, newdir: nat): Memory
    requires olddir < PAGES && newdir < PAGES
  {
    Memory(m.ram[newdir := m.ram[olddir][..SELF] + [PageEntry(newdir * PAGE_SIZE, PAGE_PRESENT)]], m.free, m.dirs + {newdir}, m.tables)
  }

  function Closed(m: Memory, cr3: nat): Memory
    requires cr3 < PAGES
  {
    MapPage(MapPage(m, cr3, OLDDIR_VIRT, 0, 0, 0), cr3, NEWDIR_VIRT, 0, 0, 0)
  }

  /** The memory after page_dir_clone; `spares` are the frames its windows get if they need tables. */
  function Cloned(m: Memory, cr3: nat, olddir: nat, newdir: nat, spares: (nat, nat)): Memory
    requires cr3 < PAGES && olddir < PAGES && newdir < PAGES && spares.0 < PAGES && spares.1 < PAGES
  {
    Closed(Copied(Opened(m, cr3, olddir, newdir, spares), olddir, newdir), cr3)
  }

  /** When page_dir_clone can work: both directories are ours, and the frames it needs are free. */
  predicate MayClone(m: Memory, cr3: nat, olddir: nat, newdir: nat, spares: (nat, nat)) {
    && cr3 in m.dirs && cr3 < PAGES && olddir in m.dirs && olddir < PAGES && newdir in m.free && newdir < PAGES
    && spares.0 < PAGES && spares.1 < PAGES
    && (!HasTable(m, cr3, OLDDIR_VIRT) ==> spares.0 in m.free && spares.0 != newdir)
    && (!HasTable(m, cr3, NEWDIR_VIRT) ==> spares.1 in m.free && spares.1 != newdir)
    && (!HasTable(m, cr3, OLDDIR_VIRT) && !HasTable(m, cr3, NEWDIR_VIRT) ==> spares.0 != spares.1)
  }

  ghost predicate CanClone(m: Memory, cr3: nat, olddir: nat, newdir: nat, spares: (nat, nat)) {
    Tidy(m) && MayClone(m, cr3, olddir, newdir, spares)
  }

  lemma OpenedShows(m: Memory, cr3: nat, olddir: nat, newdir: nat, spares: (nat, nat))
    requires CanClone(m, cr3, olddir, newdir, spares)
    ensures Tidy(Opened(m, cr3, olddir, newdir, spares))
    ensures var o := Opened(m, cr3, olddir, newdir, spares);
            && Shows(o.ram, cr3, OLDDIR_VIRT, olddir) && Shows(o.ram, cr3, NEWDIR_VIRT, newdir)
            && newdir !in o.dirs && newdir !in o.tables && newdir !in o.free && o.dirs == m.dirs
            && HasTable(o, cr3, OLDDIR_VIRT) && HasTable(o, cr3, NEWDIR_VIRT)
  {
    var m1, h := m.(free := m.free - {newdir}), HalfOpened(m, cr3, olddir, newdir, spares);
    BothCanOpen(m, cr3, olddir, newdir, spares);
    MapTidy(h, cr3, NEWDIR_VIRT, newdir * PAGE_SIZE, WINDOW_FLAGS, spares.1);
    MapShows(m1, cr3, OLDDIR_VIRT, olddir, spares.0);
    MapShows(h, cr3, NEWDIR_VIRT, newdir, spares.1);
    SecondWindow(h, cr3, newdir, spares.1);
  }

  lemma MapShows(m: Memory, dir: nat, window: uint32, f: nat, spare: nat)
    requires CanMap(m, dir, window, spare) && f < PAGES
    ensures var m' := MapPage(m, dir, window, f * PAGE_SIZE, WINDOW_FLAGS, spare);
            Shows(m'.ram, dir, window, f) && HasTable(m', dir, window)
  {
    MapTranslates(m, dir, window, f * PAGE_SIZE, WINDOW_FLAGS, spare);
  }

  /** Opening the second window leaves the first as it is. */
  lemma SecondWindow(m: Memory, cr3: nat, newdir: nat, spare: nat)
    requires CanMap(m, cr3, NEWDIR_VIRT, spare) && newdir < PAGES && HasTable(m, cr3, OLDDIR_VIRT)
    ensures var m' := MapPage(m, cr3, NEWDIR_VIRT, newdir * PAGE_SIZE, WINDOW_FLAGS, spare);
            Walk(m'.ram, cr3, OLDDIR_VIRT) == Walk(m.ram, cr3, OLDDIR_VIRT) && HasTable(m', cr3, OLDDIR_VIRT)
  {
    TouchesBelow(m, cr3, NEWDIR_VIRT, cr3, OLDDIR_VIRT);
    MapKeeps(m, cr3, NEWDIR_VIRT, newdir * PAGE_SIZE, WINDOW_FLAGS, spare, cr3, OLDDIR_VIRT);
    TablesStay(m, cr3, NEWDIR_VIRT, newdir * PAGE_SIZE, WINDOW_FLAGS, spare, OLDDIR_VIRT);
  }

  lemma BothMapped(m: Memory, cr3: nat, olddir: nat, newdir: nat, spares: (nat, nat))
    requires Tidy(m) && cr3 in m.dirs && olddir in m.dirs && newdir in m.free
    requires CanMap(m.(free := m.free - {newdir}), cr3, OLDDIR_VIRT, spares.0) && spares.1 < PAGES
    requires CanMap(MapPage(m.(free := m.free - {newdir}), cr3, OLDDIR_VIRT, olddir * PAGE_SIZE, WINDOW_FLAGS, spares.0),
                    cr3, NEWDIR_VIRT, spares.1)
    ensures CanClone(m, cr3, olddir, newdir, spares)
  {
    assert PointsAtTables(m.ram, cr3, m.tables);
  }

  /** Copying keeps the structures tidy: the new directory points at the old one's tables. */
  lemma CopiedTidy(m: Memory, olddir: nat, newdir: nat)
    requires Tidy(m) && olddir in m.dirs && newdir < PAGES && newdir !in m.dirs && newdir !in m.tables && newdir !in m.free
    ensures Tidy(Copied(m, olddir, newdir))
  {
  }

  /** No map operation takes a table away. */
  lemma TablesStay(m: Memory, dir: nat, virt: uint32, phys: uint32, flags: uint32, spare: nat, v: uint32)
    requires CanMap(m, dir, virt, spare) && HasTable(m, dir, v)
    ensures HasTable(MapPage(m, dir, virt, phys, flags, spare), dir, v)
  {
  }
}

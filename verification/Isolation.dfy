/** kernel/process.c and what page_dir_clone promises it: whose translations a mapping can change. */
module Isolation {
  import opened MachineTypes
  import opened Palloc
  import opened PageTables
  import opened Paging

  /** v is translated from d by the very entry that translates virt from dir. */
  predicate SameEntry(m: Memory, dir: nat, virt: uint32, d: nat, v: uint32)
    requires dir < PAGES && d < PAGES
  {
    && HasTable(m, dir, virt) && HasTable(m, d, v) && TableIndex(v) == TableIndex(virt)
    && FrameOf(m.ram[d][DirIndex(v)]) == FrameOf(m.ram[dir][DirIndex(virt)])
  }

  /** From one directory: the page mapped at u is the page of w, or has the same entry. */
  predicate Meets(m: Memory, d: nat, u: uint32, w: uint32)
    requires d < PAGES
  {
    u / PAGE_SIZE == w / PAGE_SIZE || SameEntry(m, d, u, d, w)
  }

  /** Below the self-map, mapping a page changes exactly the addresses that share its entry, and says to what. */
  lemma MapBelow(m: Memory, dir: nat, virt: uint32, phys: uint32, flags: uint32, spare: nat, d: nat, v: uint32)
    requires CanMap(m, dir, virt, spare) && d in m.dirs && v < TABLES_VIRT
    ensures var m' := MapPage(m, dir, virt, phys, flags, spare);
            Walk(m'.ram, d, v) == if SameEntry(m', dir, virt, d, v) then Entered(m.ram[d][DirIndex(v)], phys, flags)
                                  else Walk(m.ram, d, v)
  {
  }

  /** Which addresses share an entry of a directory's does not change once the entry's table is there. */
  lemma SameEntryStays(m: Memory, dir: nat, virt: uint32, phys: uint32, flags: uint32, spare: nat, e: nat, w: uint32, d: nat, v: uint32)
    requires CanMap(m, dir, virt, spare) && d in m.dirs && v < TABLES_VIRT && w < TABLES_VIRT && e in m.dirs && HasTable(m, e, w)
    ensures SameEntry(MapPage(m, dir, virt, phys, flags, spare), e, w, d, v) == SameEntry(m, e, w, d, v)
  {
  }

  /** Where there was no table there was nothing to translate. */
  lemma NewlyShared(m: Memory, dir: nat, virt: uint32, phys: uint32, flags: uint32, spare: nat, d: nat, v: uint32)
    requires CanMap(m, dir, virt, spare) && d in m.dirs && v < TABLES_VIRT
    requires SameEntry(MapPage(m, dir, virt, phys, flags, spare), dir, virt, d, v) && !SameEntry(m, dir, virt, d, v)
    ensures Walk(m.ram, d, v).Fault? && d == dir && DirIndex(v) == DirIndex(virt)
  {
  }

  /** v shows what one of the windows of page_dir_clone shows. */
  predicate InWindow(m: Memory, cr3: nat, d: nat, v: uint32)
    requires cr3 < PAGES && d < PAGES
  {
    SameEntry(m, cr3, OLDDIR_VIRT, d, v) || SameEntry(m, cr3, NEWDIR_VIRT, d, v)
  }

  /** Outside its windows, opening them changes no translation. */
  lemma OpenedOutside(m: Memory, cr3: nat, olddir: nat, newdir: nat, spares: (nat, nat), d: nat, v: uint32)
    requires CanClone(m, cr3, olddir, newdir, spares) && d in m.dirs && v < TABLES_VIRT
    ensures var o := Opened(m, cr3, olddir, newdir, spares);
            !InWindow(o, cr3, d, v) ==> Walk(o.ram, d, v) == Walk(m.ram, d, v)
  {
    var m1, m2, flags := m.(free := m.free - {newdir}), HalfOpened(m, cr3, olddir, newdir, spares), WINDOW_FLAGS;
    BothCanOpen(m, cr3, olddir, newdir, spares);
    MapBelow(m1, cr3, OLDDIR_VIRT, olddir * PAGE_SIZE, flags, spares.0, d, v);
    MapBelow(m2, cr3, NEWDIR_VIRT, newdir * PAGE_SIZE, flags, spares.1, d, v);
    SameEntryStays(m2, cr3, NEWDIR_VIRT, newdir * PAGE_SIZE, flags, spares.1, cr3, OLDDIR_VIRT, d, v);
  }

  /** What shows in the old directory's window showed there before, or nowhere. */
  lemma OldWindowBelow(m: Memory, cr3: nat, olddir: nat, newdir: nat, spares: (nat, nat), d: nat, v: uint32)
    requires CanClone(m, cr3, olddir, newdir, spares) && d in m.dirs && v < TABLES_VIRT
    ensures var before, after := SameEntry(m, cr3, OLDDIR_VIRT, d, v), SameEntry(Opened(m, cr3, olddir, newdir, spares), cr3, OLDDIR_VIRT, d, v);
            (before ==> after) && (after && !before ==> Walk(m.ram, d, v).Fault?)
  {
    var m1, h := m.(free := m.free - {newdir}), HalfOpened(m, cr3, olddir, newdir, spares);
    BothCanOpen(m, cr3, olddir, newdir, spares);
    SameEntryStays(h, cr3, NEWDIR_VIRT, newdir * PAGE_SIZE, WINDOW_FLAGS, spares.1, cr3, OLDDIR_VIRT, d, v);
    if HasTable(m, cr3, OLDDIR_VIRT) {
      SameEntryStays(m1, cr3, OLDDIR_VIRT, olddir * PAGE_SIZE, WINDOW_FLAGS, spares.0, cr3, OLDDIR_VIRT, d, v);
    } else if SameEntry(h, cr3, OLDDIR_VIRT, d, v) {
      NewlyShared(m1, cr3, OLDDIR_VIRT, olddir * PAGE_SIZE, WINDOW_FLAGS, spares.0, d, v);
    }
  }

  /** The same of the new directory's window. */
  lemma NewWindowBelow(m: Memory, cr3: nat, olddir: nat, newdir: nat, spares: (nat, nat), d: nat, v: uint32)
    requires CanClone(m, cr3, olddir, newdir, spares) && d in m.dirs && v < TABLES_VIRT
    ensures var before, after := SameEntry(m, cr3, NEWDIR_VIRT, d, v), SameEntry(Opened(m, cr3, olddir, newdir, spares), cr3, NEWDIR_VIRT, d, v);
            (before ==> after) && (after && !before ==> Walk(m.ram, d, v).Fault?)
  {
    var m1, h := m.(free := m.free - {newdir}), HalfOpened(m, cr3, olddir, newdir, spares);
    BothCanOpen(m, cr3, olddir, newdir, spares);
    if HasTable(m, cr3, NEWDIR_VIRT) {
      SameEntryStays(m1, cr3, OLDDIR_VIRT, olddir * PAGE_SIZE, WINDOW_FLAGS, spares.0, cr3, NEWDIR_VIRT, d, v);
      SameEntryStays(h, cr3, NEWDIR_VIRT, newdir * PAGE_SIZE, WINDOW_FLAGS, spares.1, cr3, NEWDIR_VIRT, d, v);
    } else if SameEntry(Opened(m, cr3, olddir, newdir, spares), cr3, NEWDIR_VIRT, d, v) && !SameEntry(h, cr3, NEWDIR_VIRT, d, v) {
      NewlyShared(h, cr3, NEWDIR_VIRT, newdir * PAGE_SIZE, WINDOW_FLAGS, spares.1, d, v);
    }
  }

  /** Copying touches no directory but the new one. */
  lemma CopiedKeeps(m: Memory, cr3: nat, olddir: nat, newdir: nat, d: nat, v: uint32)
    requires Tidy(m) && olddir in m.dirs && newdir < PAGES && newdir !in m.dirs && newdir !in m.tables && newdir !in m.free
    requires d in m.dirs && cr3 in m.dirs
    ensures Walk(Copied(m, olddir, newdir).ram, d, v) == Walk(m.ram, d, v)
    ensures InWindow(Copied(m, olddir, newdir), cr3, d, v) == InWindow(m, cr3, d, v)
  {
  }

  lemma ClosedBelow(m: Memory, cr3: nat, d: nat, v: uint32)
    requires Tidy(m) && cr3 in m.dirs && d in m.dirs && v < TABLES_VIRT
    requires HasTable(m, cr3, OLDDIR_VIRT) && HasTable(m, cr3, NEWDIR_VIRT)
    ensures Tidy(Closed(m, cr3)) && InWindow(Closed(m, cr3), cr3, d, v) == InWindow(m, cr3, d, v)
    ensures Walk(Closed(m, cr3).ram, d, v) == if InWindow(m, cr3, d, v) then Fault else Walk(m.ram, d, v)
  {
  }

  /** Cloning leaves every directory's translations alone, but for what it unmaps at its windows. */
  lemma CloneKeeps(m: Memory, cr3: nat, olddir: nat, newdir: nat, spares: (nat, nat), d: nat, v: uint32)
    requires CanClone(m, cr3, olddir, newdir, spares) && d in m.dirs && v < TABLES_VIRT
    ensures Tidy(Cloned(m, cr3, olddir, newdir, spares))
    ensures Walk(Cloned(m, cr3, olddir, newdir, spares).ram, d, v) ==
              if InWindow(m, cr3, d, v) then Fault else Walk(m.ram, d, v)
  {
    var o := Opened(m, cr3, olddir, newdir, spares);
    OpenedShows(m, cr3, olddir, newdir, spares);
    OpenedOutside(m, cr3, olddir, newdir, spares, d, v);
    OldWindowBelow(m, cr3, olddir, newdir, spares, d, v);
    NewWindowBelow(m, cr3, olddir, newdir, spares, d, v);
    CopiedTidy(o, olddir, newdir);
    CopiedKeeps(o, cr3, olddir, newdir, d, v);
    ClosedBelow(Copied(o, olddir, newdir), cr3, d, v);
  }

  /** Closing the windows writes no directory. */
  lemma ClosedDirs(m: Memory, cr3: nat)
    requires Tidy(m) && cr3 in m.dirs && HasTable(m, cr3, OLDDIR_VIRT) && HasTable(m, cr3, NEWDIR_VIRT)
    ensures Tidy(Closed(m, cr3)) && Closed(m, cr3).dirs == m.dirs
    ensures forall d :: d in m.dirs ==> Closed(m, cr3).ram[d] == m.ram[d]
  {
  }

  /** What stands in the directories after a clone. */
  lemma ClonedSlots(m: Memory, cr3: nat, olddir: nat, newdir: nat, spares: (nat, nat))
    requires CanClone(m, cr3, olddir, newdir, spares)
    ensures var c, o := Cloned(m, cr3, olddir, newdir, spares), Opened(m, cr3, olddir, newdir, spares);
            && Tidy(c) && Tidy(o) && c.dirs == m.dirs + {newdir} && c.tables == o.tables && newdir !in m.dirs
            && (forall d :: d in m.dirs ==> c.ram[d] == o.ram[d])
            && (forall i :: 0 <= i < SELF ==> c.ram[newdir][i] == o.ram[olddir][i])
            && c.ram[newdir][SELF] == PageEntry(newdir * PAGE_SIZE, PAGE_PRESENT)
  {
    var o := Opened(m, cr3, olddir, newdir, spares);
    OpenedShows(m, cr3, olddir, newdir, spares);
    CopiedTidy(o, olddir, newdir);
    CopiedSlots(o, olddir, newdir);
    ClosedDirs(Copied(o, olddir, newdir), cr3);
  }

  lemma CopiedSlots(m: Memory, olddir: nat, newdir: nat)
    requires Tidy(m) && olddir in m.dirs && newdir < PAGES && newdir !in m.dirs
    ensures var c := Copied(m, olddir, newdir);
            && (forall d :: d in m.dirs ==> c.ram[d] == m.ram[d])
            && (forall i :: 0 <= i < SELF ==> c.ram[newdir][i] == m.ram[olddir][i])
            && c.ram[newdir][SELF] == PageEntry(newdir * PAGE_SIZE, PAGE_PRESENT)
            && c.dirs == m.dirs + {newdir} && c.tables == m.tables
  {
  }

  /** Below the self-map the new directory translates as the old one does. */
  lemma CloneAgrees(m: Memory, cr3: nat, olddir: nat, newdir: nat, spares: (nat, nat), v: uint32)
    requires CanClone(m, cr3, olddir, newdir, spares) && v < TABLES_VIRT
    ensures var c := Cloned(m, cr3, olddir, newdir, spares);
            Tidy(c) && newdir in c.dirs && olddir in c.dirs && Walk(c.ram, newdir, v) == Walk(c.ram, olddir, v)
  {
    ClonedSlots(m, cr3, olddir, newdir, spares);
  }

  /** The new directory shows its page tables to the supervisor only. */
  lemma CloneGuardsTables(m: Memory, cr3: nat, olddir: nat, newdir: nat, spares: (nat, nat), v: uint32)
    requires CanClone(m, cr3, olddir, newdir, spares) && v >= TABLES_VIRT
    ensures var t := Walk(Cloned(m, cr3, olddir, newdir, spares).ram, newdir, v); t.To? ==> !t.user
  {
    ClonedSlots(m, cr3, olddir, newdir, spares);
    SelfSlotIsSupervisors(Cloned(m, cr3, olddir, newdir, spares).ram, newdir, v);
  }

  lemma SelfSlotIsSupervisors(ram: Ram, dir: nat, v: uint32)
    requires dir < PAGES && ram[dir][SELF] == PageEntry(dir * PAGE_SIZE, PAGE_PRESENT) && v >= TABLES_VIRT
    ensures Walk(ram, dir, v).To? ==> !Walk(ram, dir, v).user
  {
    assert DirIndex(v) == SELF && !User(ram[dir][SELF]);
  }

  /** Both windows are shut again, in the directory that was active. */
  lemma CloneShutsWindows(m: Memory, cr3: nat, olddir: nat, newdir: nat, spares: (nat, nat))
    requires CanClone(m, cr3, olddir, newdir, spares)
    ensures var c := Cloned(m, cr3, olddir, newdir, spares);
            Walk(c.ram, cr3, OLDDIR_VIRT).Fault? && Walk(c.ram, cr3, NEWDIR_VIRT).Fault?
  {
    var o := Opened(m, cr3, olddir, newdir, spares);
    OpenedShows(m, cr3, olddir, newdir, spares);
    CopiedTidy(o, olddir, newdir);
    ClosedBelow(Copied(o, olddir, newdir), cr3, cr3, OLDDIR_VIRT);
    ClosedBelow(Copied(o, olddir, newdir), cr3, cr3, NEWDIR_VIRT);
  }
}

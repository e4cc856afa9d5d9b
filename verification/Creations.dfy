/**
 * proc_create of kernel/process.c, as a run of page table operations: what the new process, and every
 * other, sees when it is over, in terms of what there was before.
 */
module Creations {
  import opened MachineTypes
  import opened Palloc
  import opened PageTables
  import opened Paging
  import opened Isolation
  import opened Processes
  import opened MapRuns
  import HeapStates

  /**
   * The kernel's directory is cloned; the process's record may need heap pages, mapped in the directory
   * that is still active; the sections are mapped in the clone; and the kernel's directory is made active.
   */
  datatype Creation = Creation(before: System, cloned: System, growing: seq<System>, pages: seq<Mapping>,
                               mapping: seq<System>, sections: seq<Mapping>, after: System)

  /** A page that kbrk adds to the heap. */
  predicate HeapPage(p: Mapping) {
    HeapStates.HEAP_BASE <= p.virt < HeapStates.HEAP_LIMIT && p.flags == PAGE_PRESENT + PAGE_WRITABLE
  }

  ghost predicate Creates(c: Creation, newdir: nat) {
    && (exists spares: (nat, nat) :: CloneStep(c.before, newdir, spares, c.cloned))
    && Grows(c.growing, c.pages) && c.growing[0] == c.cloned && (forall k :: 0 <= k < |c.pages| ==> HeapPage(c.pages[k]))
    && MapRun(c.mapping, c.sections) && c.mapping[0] == Last(c.growing).(cr3 := newdir)
    && c.after == Last(c.mapping).(cr3 := c.before.kernel)
  }

  /** The states between are sound, and so is the one after. */
  lemma CreateSound(c: Creation, newdir: nat)
    requires Creates(c, newdir) && Sound(c.before)
    ensures newdir < PAGES && newdir !in c.before.m.dirs && c.cloned.m.dirs == c.before.m.dirs + {newdir}
    ensures Sound(c.cloned) && c.cloned.cr3 == c.before.cr3 && c.cloned.kernel == c.before.kernel
    ensures SoundAfter(c.cloned, Last(c.growing)) && SoundAfter(c.mapping[0], Last(c.mapping)) && Sound(c.mapping[0])
    ensures Sound(c.after)
  {
    var spares: (nat, nat) :| CloneStep(c.before, newdir, spares, c.cloned);
    CloneSound(c.before, newdir, spares, c.cloned);
    MapRunSound(c.growing, c.pages);
    SwitchSound(Last(c.growing), newdir, c.mapping[0]);
    MapRunSound(c.mapping, c.sections);
    SwitchSound(Last(c.mapping), c.before.kernel, c.after);
  }

  /** The slots in which page_dir_clone opens its windows. */
  predicate WindowSlot(v: uint32) {
    DirIndex(v) == DirIndex(OLDDIR_VIRT) || DirIndex(v) == DirIndex(NEWDIR_VIRT)
  }

  /**
   * A page mapped at p through a slot that directory e gave to a clone changes what d has at v. The
   * second case is a table that the cloning itself made, for a window in the active directory.
   */
  predicate HitsThrough(s: System, e: nat, p: Mapping, d: nat, v: uint32)
    requires e < PAGES && d < PAGES
  {
    || SameEntry(s.m, e, p.virt, d, v)
    || (e == d == s.cr3 && !HasTable(s.m, e, p.virt) && WindowSlot(p.virt) && v / PAGE_SIZE == p.virt / PAGE_SIZE)
  }

  /** The last of some mappings that does, or -1. */
  function LastThrough(s: System, e: nat, maps: seq<Mapping>, d: nat, v: uint32): (k: int)
    requires e < PAGES && d < PAGES
    ensures -1 <= k < |maps| && (k >= 0 ==> HitsThrough(s, e, maps[k], d, v))
    ensures forall j :: k < j < |maps| ==> !HitsThrough(s, e, maps[j], d, v)
  {
    var n := |maps| - 1;
    if maps == [] || HitsThrough(s, e, maps[n], d, v) then n else LastThrough(s, e, maps[..n], d, v)
  }

  /** What opening the windows does to hits. */
  lemma OpenedHits(m: Memory, cr3: nat, olddir: nat, newdir: nat, spares: (nat, nat), q: Mapping, d: nat, v: uint32)
    requires CanClone(m, cr3, olddir, newdir, spares) && d in m.dirs && v < TABLES_VIRT && q.virt < TABLES_VIRT
    ensures Hits(Opened(m, cr3, olddir, newdir, spares), cr3, q, d, v) == Hits(m, cr3, q, d, v)
  {
    var m1, h := m.(free := m.free - {newdir}), HalfOpened(m, cr3, olddir, newdir, spares);
    BothCanOpen(m, cr3, olddir, newdir, spares);
    HitsStay(m1, cr3, Mapping(OLDDIR_VIRT, olddir * PAGE_SIZE, WINDOW_FLAGS), spares.0, q, d, v);
    HitsStay(h, cr3, Mapping(NEWDIR_VIRT, newdir * PAGE_SIZE, WINDOW_FLAGS), spares.1, q, d, v);
  }

  /** A slot after the windows were opened, of any directory. */
  lemma OpenedSlot(m: Memory, cr3: nat, olddir: nat, newdir: nat, spares: (nat, nat), d: nat, v: uint32)
    requires CanClone(m, cr3, olddir, newdir, spares) && d in m.dirs && v < TABLES_VIRT
    ensures var o := Opened(m, cr3, olddir, newdir, spares);
            && SlotKept(m.ram[d][DirIndex(v)], o.ram[d][DirIndex(v)])
            && (HasTable(o, d, v) <==> HasTable(m, d, v) || (d == cr3 && WindowSlot(v)))
  {
    var m1, h := m.(free := m.free - {newdir}), HalfOpened(m, cr3, olddir, newdir, spares);
    BothCanOpen(m, cr3, olddir, newdir, spares);
    MapSlots(m1, cr3, OLDDIR_VIRT, olddir * PAGE_SIZE, WINDOW_FLAGS, spares.0, d, DirIndex(v));
    MapSlots(h, cr3, NEWDIR_VIRT, newdir * PAGE_SIZE, WINDOW_FLAGS, spares.1, d, DirIndex(v));
    OpenedShows(m, cr3, olddir, newdir, spares);
  }

  lemma OpenedSameEntry(m: Memory, cr3: nat, olddir: nat, newdir: nat, spares: (nat, nat), e: nat, w: uint32, d: nat, v: uint32)
    requires CanClone(m, cr3, olddir, newdir, spares) && e in m.dirs && d in m.dirs && v < TABLES_VIRT && w < TABLES_VIRT
    requires HasTable(m, e, w)
    ensures SameEntry(Opened(m, cr3, olddir, newdir, spares), e, w, d, v) == SameEntry(m, e, w, d, v)
  {
    var m1, h := m.(free := m.free - {newdir}), HalfOpened(m, cr3, olddir, newdir, spares);
    BothCanOpen(m, cr3, olddir, newdir, spares);
    SameEntryStays(m1, cr3, OLDDIR_VIRT, olddir * PAGE_SIZE, WINDOW_FLAGS, spares.0, e, w, d, v);
    MapSlots(m1, cr3, OLDDIR_VIRT, olddir * PAGE_SIZE, WINDOW_FLAGS, spares.0, e, DirIndex(w));
    SameEntryStays(h, cr3, NEWDIR_VIRT, newdir * PAGE_SIZE, WINDOW_FLAGS, spares.1, e, w, d, v);
  }

  /** Which entries are shared while the windows are open, in terms of what there was before. */
  lemma OpenedEntries(s: System, newdir: nat, spares: (nat, nat), e: nat, p: Mapping, d: nat, v: uint32)
    requires CanClone(s.m, s.cr3, s.kernel, newdir, spares) && e in s.m.dirs && d in s.m.dirs && v < TABLES_VIRT && p.virt < TABLES_VIRT
    ensures SameEntry(Opened(s.m, s.cr3, s.kernel, newdir, spares), e, p.virt, d, v) == HitsThrough(s, e, p, d, v)
  {
    if HasTable(s.m, e, p.virt) {
      OpenedSameEntry(s.m, s.cr3, s.kernel, newdir, spares, e, p.virt, d, v);
    } else {
      SamePage(v, p.virt);
      OpenedSlot(s.m, s.cr3, s.kernel, newdir, spares, e, p.virt);
      if e == s.cr3 { OpenedHits(s.m, s.cr3, s.kernel, newdir, spares, p, d, v); }
    }
  }

  /** The directory whose slots d has: a clone has the kernel's. */
  function Origin(c: Creation, newdir: nat, d: nat): nat {
    if d == newdir then c.before.kernel else d
  }

  /** A slot after the cloning is what the slot it stems from was, or a table was made for it. */
  lemma ClonedSlot(c: Creation, newdir: nat, d: nat, v: uint32)
    requires Creates(c, newdir) && Sound(c.before) && d in c.before.m.dirs + {newdir} && v < TABLES_VIRT
    ensures d < PAGES && newdir < PAGES
    ensures var o := Origin(c, newdir, d);
            && SlotKept(c.before.m.ram[o][DirIndex(v)], c.cloned.m.ram[d][DirIndex(v)])
            && (HasTable(c.cloned.m, d, v) <==> HasTable(c.before.m, o, v) || (o == c.before.cr3 && WindowSlot(v)))
  {
    var s := c.before;
    var spares: (nat, nat) :| CloneStep(s, newdir, spares, c.cloned);
    ClonedSlots(s.m, s.cr3, s.kernel, newdir, spares);
    OpenedSlot(s.m, s.cr3, s.kernel, newdir, spares, Origin(c, newdir, d), v);
  }

  /** Entries are shared after the cloning as they were, by the directories that the slots stem from. */
  lemma ClonedEntries(c: Creation, newdir: nat, e: nat, p: Mapping, d: nat, v: uint32)
    requires Creates(c, newdir) && Sound(c.before) && p.virt < TABLES_VIRT && v < TABLES_VIRT
    requires e in c.before.m.dirs + {newdir} && d in c.before.m.dirs + {newdir}
    ensures e < PAGES && d < PAGES && c.before.kernel < PAGES
    ensures SameEntry(c.cloned.m, e, p.virt, d, v) == HitsThrough(c.before, Origin(c, newdir, e), p, Origin(c, newdir, d), v)
  {
    var s, a, b := c.before, Origin(c, newdir, e), Origin(c, newdir, d);
    var spares: (nat, nat) :| CloneStep(s, newdir, spares, c.cloned);
    ClonedSlots(s.m, s.cr3, s.kernel, newdir, spares);
    AlikeEntries(Opened(s.m, s.cr3, s.kernel, newdir, spares), a, b, c.cloned.m, e, d, p.virt, v);
    OpenedEntries(s, newdir, spares, a, p, b, v);
  }

  /** Directories with the same slots share the same entries. */
  lemma AlikeEntries(m: Memory, a: nat, b: nat, m': Memory, e: nat, d: nat, w: uint32, v: uint32)
    requires a < PAGES && b < PAGES && e < PAGES && d < PAGES
    requires m'.ram[e][DirIndex(w)] == m.ram[a][DirIndex(w)] && m'.ram[d][DirIndex(v)] == m.ram[b][DirIndex(v)]
    ensures SameEntry(m', e, w, d, v) == SameEntry(m, a, w, b, v)
  {
  }

  /** Heap growth leaves the slots of the clone alone, and what shares an entry with them. */
  lemma SectionEntries(c: Creation, newdir: nat, p: Mapping, d: nat, v: uint32)
    requires Creates(c, newdir) && Sound(c.before) && p.virt < TABLES_VIRT && v < TABLES_VIRT
    requires d in c.before.m.dirs + {newdir}
    ensures newdir < PAGES && d < PAGES && c.before.kernel < PAGES
    ensures SameEntry(c.mapping[0].m, newdir, p.virt, d, v) == HitsThrough(c.before, c.before.kernel, p, Origin(c, newdir, d), v)
  {
    CreateSound(c, newdir);
    ClonedEntries(c, newdir, newdir, p, d, v);
    if HasTable(c.cloned.m, newdir, p.virt) {
      EntriesKept(c.growing, c.pages, newdir, p.virt, d, v);
    } else {
      RunShown(c.growing, c.pages, newdir, p.virt);
    }
  }

  lemma PagesBelow(run: seq<System>, maps: seq<Mapping>, k: nat)
    requires MapRun(run, maps) && k < |maps|
    ensures maps[k].virt < TABLES_VIRT
  {
    assert Maps(run[k], maps[k], run[k + 1]);
  }

  /** Directory d has at v what section j gives, or else heap page i, or else what `o` had. */
  predicate Sees(c: Creation, d: nat, v: uint32, o: nat, i: int, j: int)
    requires d < PAGES && o < PAGES && i < |c.pages| && j < |c.sections|
  {
    var slot := c.before.m.ram[o][DirIndex(v)];
    Walk(c.after.m.ram, d, v) == if j >= 0 then Entered(slot, c.sections[j].phys, c.sections[j].flags)
                                 else if i >= 0 then Entered(slot, c.pages[i].phys, c.pages[i].flags)
                                 else Walk(c.before.m.ram, o, v)
  }

  lemma ClonedWalk(c: Creation, newdir: nat, d: nat, v: uint32)
    requires Creates(c, newdir) && Sound(c.before) && d in c.before.m.dirs + {newdir} && v < TABLES_VIRT && !OnWindowPage(v)
    ensures newdir < PAGES && d < PAGES && c.before.kernel < PAGES
    ensures Walk(c.cloned.m.ram, d, v) == Walk(c.before.m.ram, Origin(c, newdir, d), v)
  {
    var s := c.before;
    var spares: (nat, nat) :| CloneStep(s, newdir, spares, c.cloned);
    CloneIsPrivate(s, newdir, spares, c.cloned, Origin(c, newdir, d), v);
    CloneAgrees(s.m, s.cr3, s.kernel, newdir, spares, v);
  }

  lemma AllSee(c: Creation, newdir: nat, d: nat, v: uint32)
    requires Creates(c, newdir) && Sound(c.before) && d in c.before.m.dirs + {newdir} && v < TABLES_VIRT
    requires newdir < PAGES && d < PAGES && (OnWindowPage(v) ==> LastHit(c.mapping[0].m, newdir, c.sections, d, v) >= 0)
    ensures newdir < PAGES && d < PAGES && c.before.kernel < PAGES && c.before.cr3 < PAGES
    ensures Sees(c, d, v, Origin(c, newdir, d), LastHit(c.cloned.m, c.before.cr3, c.pages, d, v), LastHit(c.mapping[0].m, newdir, c.sections, d, v))
  {
    CreateSound(c, newdir);
    var o, grown := Origin(c, newdir, d), Last(c.growing);
    assert SlotKept(c.before.m.ram[o][DirIndex(v)], c.cloned.m.ram[d][DirIndex(v)]) by { ClonedSlot(c, newdir, d, v); }
    if !OnWindowPage(v) { ClonedWalk(c, newdir, d, v); }
    assert Shown(c.cloned.m, c.before.cr3, grown, c.pages, d, v) by { RunShown(c.growing, c.pages, d, v); }
    assert Shown(grown.m, newdir, Last(c.mapping), c.sections, d, v) by { RunShown(c.mapping, c.sections, d, v); }
    ShownTwice(c, newdir, d, v, o);
  }

  /** The heap pages over what there was, and the sections over both. */
  lemma ShownTwice(c: Creation, newdir: nat, d: nat, v: uint32, o: nat)
    requires c.growing != [] && c.mapping != [] && newdir < PAGES && d < PAGES && o < PAGES && c.before.cr3 < PAGES
    requires c.mapping[0].m == Last(c.growing).m && c.after.m == Last(c.mapping).m
    requires SlotKept(c.before.m.ram[o][DirIndex(v)], c.cloned.m.ram[d][DirIndex(v)])
    requires !OnWindowPage(v) ==> Walk(c.cloned.m.ram, d, v) == Walk(c.before.m.ram, o, v)
    requires OnWindowPage(v) ==> LastHit(c.mapping[0].m, newdir, c.sections, d, v) >= 0
    requires Shown(c.cloned.m, c.before.cr3, Last(c.growing), c.pages, d, v)
    requires Shown(c.mapping[0].m, newdir, Last(c.mapping), c.sections, d, v)
    ensures Sees(c, d, v, o, LastHit(c.cloned.m, c.before.cr3, c.pages, d, v), LastHit(c.mapping[0].m, newdir, c.sections, d, v))
  {
  }

  /** Which heap page an old directory sees, by what there was before. */
  lemma HeapHits(c: Creation, newdir: nat, d: nat, v: uint32)
    requires Creates(c, newdir) && Sound(c.before) && d in c.before.m.dirs && v < TABLES_VIRT
    ensures d < PAGES && c.before.cr3 < PAGES
    ensures LastHit(c.cloned.m, c.before.cr3, c.pages, d, v) == LastHit(c.before.m, c.before.cr3, c.pages, d, v)
  {
    CreateSound(c, newdir);
    forall k | 0 <= k < |c.pages|
      ensures Hits(c.cloned.m, c.before.cr3, c.pages[k], d, v) == Hits(c.before.m, c.before.cr3, c.pages[k], d, v)
    {
      PagesBelow(c.growing, c.pages, k);
      ClonedEntries(c, newdir, c.before.cr3, c.pages[k], d, v);
    }
  }

  /** Which section an old directory sees. */
  lemma SectionHits(c: Creation, newdir: nat, d: nat, v: uint32)
    requires Creates(c, newdir) && Sound(c.before) && d in c.before.m.dirs && v < TABLES_VIRT
    ensures newdir < PAGES && d < PAGES && c.before.kernel < PAGES
    ensures LastHit(c.mapping[0].m, newdir, c.sections, d, v) == LastThrough(c.before, c.before.kernel, c.sections, d, v)
  {
    CreateSound(c, newdir);
    forall k | 0 <= k < |c.sections|
      ensures Hits(c.mapping[0].m, newdir, c.sections[k], d, v) == HitsThrough(c.before, c.before.kernel, c.sections[k], d, v)
    {
      PagesBelow(c.mapping, c.sections, k);
      SectionEntries(c, newdir, c.sections[k], d, v);
    }
  }

  /**
   * What the directories there were see in the end: at each address what the last section that is
   * mapped at its entry through a slot of the kernel's gives, or else the last heap page, or what it had.
   */
  lemma CreateEffect(c: Creation, newdir: nat, d: nat, v: uint32)
    requires Creates(c, newdir) && Sound(c.before) && d in c.before.m.dirs && v < TABLES_VIRT && !OnWindowPage(v)
    ensures d < PAGES && c.before.kernel < PAGES && c.before.cr3 < PAGES
    ensures Sees(c, d, v, d, LastHit(c.before.m, c.before.cr3, c.pages, d, v), LastThrough(c.before, c.before.kernel, c.sections, d, v))
    ensures LastHit(c.before.m, c.before.cr3, c.pages, d, v) >= 0 ==> Walk(c.before.m.ram, d, v).Fault?
  {
    CreateSound(c, newdir);
    AllSee(c, newdir, d, v);
    HeapHits(c, newdir, d, v);
    SectionHits(c, newdir, d, v);
    if Walk(c.before.m.ram, d, v).To? {
      ClonedWalk(c, newdir, d, v);
      GrowthMisses(c.growing, c.pages, d, v);
    }
  }

  /** An entry of an own slot is shared with no other directory. */
  lemma OwnEntry(s: System, e: nat, w: uint32, d: nat, v: uint32)
    requires Sound(s) && e in s.m.dirs && e != d && Private(s, d, DirIndex(v)) && w < TABLES_VIRT
    ensures d in s.m.dirs && e < PAGES && d < PAGES && !SameEntry(s.m, e, w, d, v)
  {
    assert Alone(s.m, d, DirIndex(v));
    assert SameEntry(s.m, e, w, d, v) ==> Points(s.m.ram, e, DirIndex(w), FrameOf(s.m.ram[d][DirIndex(v)]));
  }

  /**
   * Creating a process, with any sections: another directory keeps its translation of an address if
   * and only if the last section that is mapped at its entry, through a slot of the kernel's, gives
   * what was there, or no section is and no heap page either. What was translated meets no heap page,
   * and in slots of one's own no section is seen, and no page of others.
   */
  lemma CreateIsolates(c: Creation, newdir: nat, d: nat, v: uint32)
    requires Creates(c, newdir) && Sound(c.before) && d in c.before.m.dirs && v < TABLES_VIRT && !OnWindowPage(v)
    ensures d < PAGES && c.before.kernel < PAGES && c.before.cr3 < PAGES
    ensures var i, j := LastHit(c.before.m, c.before.cr3, c.pages, d, v), LastThrough(c.before, c.before.kernel, c.sections, d, v);
            var was, now, slot := Walk(c.before.m.ram, d, v), Walk(c.after.m.ram, d, v), c.before.m.ram[d][DirIndex(v)];
            && (now == was <==> if j >= 0 then Entered(slot, c.sections[j].phys, c.sections[j].flags) == was else i < 0)
            && (was.To? ==> i < 0)
            && (Private(c.before, d, DirIndex(v)) ==> j < 0 && (d != c.before.cr3 ==> i < 0))
  {
    CreateEffect(c, newdir, d, v);
    Changed(c, d, v, LastHit(c.before.m, c.before.cr3, c.pages, d, v), LastThrough(c.before, c.before.kernel, c.sections, d, v));
    if Private(c.before, d, DirIndex(v)) { OwnSlotMissed(c, newdir, d, v); }
  }

  lemma Changed(c: Creation, d: nat, v: uint32, i: int, j: int)
    requires d < PAGES && i < |c.pages| && j < |c.sections| && Sees(c, d, v, d, i, j) && (forall k :: 0 <= k < |c.pages| ==> HeapPage(c.pages[k]))
    requires i >= 0 ==> Walk(c.before.m.ram, d, v).Fault?
    ensures var was, now, slot := Walk(c.before.m.ram, d, v), Walk(c.after.m.ram, d, v), c.before.m.ram[d][DirIndex(v)];
            now == was <==> if j >= 0 then Entered(slot, c.sections[j].phys, c.sections[j].flags) == was else i < 0
  {
  }

  /** In slots of one's own no section is seen, and no page of others. */
  lemma OwnSlotMissed(c: Creation, newdir: nat, d: nat, v: uint32)
    requires Creates(c, newdir) && Sound(c.before) && d in c.before.m.dirs && v < TABLES_VIRT && Private(c.before, d, DirIndex(v))
    ensures d < PAGES && c.before.kernel < PAGES && c.before.cr3 < PAGES
    ensures LastThrough(c.before, c.before.kernel, c.sections, d, v) < 0
    ensures d != c.before.cr3 ==> LastHit(c.before.m, c.before.cr3, c.pages, d, v) < 0
  {
    var i, j := LastHit(c.before.m, c.before.cr3, c.pages, d, v), LastThrough(c.before, c.before.kernel, c.sections, d, v);
    if j >= 0 {
      PagesBelow(c.mapping, c.sections, j);
      OwnEntry(c.before, c.before.kernel, c.sections[j].virt, d, v);
    }
    if i >= 0 && d != c.before.cr3 {
      PagesBelow(c.growing, c.pages, i);
      OwnEntry(c.before, c.before.cr3, c.pages[i].virt, d, v);
    }
  }

  /** Which section, and which heap page, the new process sees, by what there was before. */
  lemma NewHits(c: Creation, newdir: nat, v: uint32)
    requires Creates(c, newdir) && Sound(c.before) && v < TABLES_VIRT
    ensures newdir < PAGES && c.before.kernel < PAGES && c.before.cr3 < PAGES
    ensures LastHit(c.mapping[0].m, newdir, c.sections, newdir, v) == LastHit(c.before.m, c.before.kernel, c.sections, c.before.kernel, v)
    ensures LastHit(c.cloned.m, c.before.cr3, c.pages, newdir, v) == LastThrough(c.before, c.before.cr3, c.pages, c.before.kernel, v)
  {
    CreateSound(c, newdir);
    var s := c.before;
    forall k | 0 <= k < |c.sections|
      ensures Hits(c.mapping[0].m, newdir, c.sections[k], newdir, v) == Hits(s.m, s.kernel, c.sections[k], s.kernel, v)
    {
      PagesBelow(c.mapping, c.sections, k);
      SectionEntries(c, newdir, c.sections[k], newdir, v);
    }
    forall k | 0 <= k < |c.pages|
      ensures Hits(c.cloned.m, s.cr3, c.pages[k], newdir, v) == HitsThrough(s, s.cr3, c.pages[k], s.kernel, v)
    {
      PagesBelow(c.growing, c.pages, k);
      ClonedEntries(c, newdir, s.cr3, c.pages[k], newdir, v);
    }
  }

  /**
   * What the new process sees: the last section at the address, or else a heap page, where the active
   * directory gave its table to the clone, or else what the kernel's directory had.
   */
  lemma NewSees(c: Creation, newdir: nat, v: uint32)
    requires Creates(c, newdir) && Sound(c.before) && v < TABLES_VIRT && c.before.kernel < PAGES
    requires OnWindowPage(v) ==> LastHit(c.before.m, c.before.kernel, c.sections, c.before.kernel, v) >= 0
    ensures newdir < PAGES && c.before.cr3 < PAGES
    ensures Sees(c, newdir, v, c.before.kernel, LastThrough(c.before, c.before.cr3, c.pages, c.before.kernel, v),
                 LastHit(c.before.m, c.before.kernel, c.sections, c.before.kernel, v))
  {
    CreateSound(c, newdir);
    NewHits(c, newdir, v);
    AllSee(c, newdir, newdir, v);
  }

  /**
   * The new process sees each section, with the rights asked for, as far as the kernel's slot lets
   * them through: the section itself, or the last one that was mapped at the same entry.
   */
  lemma CreateMaps(c: Creation, newdir: nat, k: nat)
    requires Creates(c, newdir) && Sound(c.before) && k < |c.sections|
    ensures newdir < PAGES && c.before.kernel < PAGES
    ensures var v, s := c.sections[k].virt, c.before;
            var j := LastHit(s.m, s.kernel, c.sections, s.kernel, v);
            k <= j && Walk(c.after.m.ram, newdir, v) == Entered(s.m.ram[s.kernel][DirIndex(v)], c.sections[j].phys, c.sections[j].flags)
  {
    PagesBelow(c.mapping, c.sections, k);
    assert Hits(c.before.m, c.before.kernel, c.sections[k], c.before.kernel, c.sections[k].virt);
    NewSees(c, newdir, c.sections[k].virt);
  }

  /** In a slot that the kernel's directory lacks, that is the last section of its page, with just the rights asked for. */
  lemma CreateMapsOwn(c: Creation, newdir: nat, k: nat)
    requires Creates(c, newdir) && Sound(c.before) && k < |c.sections| && c.before.kernel < PAGES
    requires !HasTable(c.before.m, c.before.kernel, c.sections[k].virt)
    requires forall j :: k < j < |c.sections| ==> c.sections[j].virt / PAGE_SIZE != c.sections[k].virt / PAGE_SIZE
    ensures newdir < PAGES
    ensures var p := c.sections[k];
            Present(p.flags) ==> Walk(c.after.m.ram, newdir, p.virt) == To(p.phys / PAGE_SIZE, Writable(p.flags), User(p.flags))
  {
    CreateMaps(c, newdir, k);
    LastOfPage(c.before.m, c.before.kernel, c.sections, k);
  }

  lemma LastOfPage(m: Memory, dir: nat, maps: seq<Mapping>, k: nat)
    requires k < |maps| && dir < PAGES && !HasTable(m, dir, maps[k].virt)
    requires forall j :: k < j < |maps| ==> maps[j].virt / PAGE_SIZE != maps[k].virt / PAGE_SIZE
    ensures LastHit(m, dir, maps, dir, maps[k].virt) == k
  {
    assert Hits(m, dir, maps[k], dir, maps[k].virt);
  }

  /**
   * Who sees a heap page that the record needed: the new process does, where no section is in its
   * place, if and only if the kernel's directory had the page's table before, or made it for a window.
   * So a record that needs a new heap table is not mapped in its own process.
   */
  lemma HeapPageSeen(c: Creation, newdir: nat, k: nat)
    requires Creates(c, newdir) && Sound(c.before) && k < |c.pages|
    requires Shares(c.before, c.before.cr3, DirIndex(c.pages[k].virt))
    ensures newdir < PAGES && c.before.kernel < PAGES
    ensures var v, s := c.pages[k].virt, c.before;
            LastHit(s.m, s.kernel, c.sections, s.kernel, v) < 0 ==>
              (Walk(c.after.m.ram, newdir, v).To? <==> GivesTable(s, v))
  {
    var s, v := c.before, c.pages[k].virt;
    PagesBelow(c.growing, c.pages, k);
    assert HeapPage(c.pages[k]);
    NewSees(c, newdir, v);
    if GivesTable(s, v) { SharedHit(s, c.pages[k]); } else { NoHitThrough(s, c.pages, v); }
  }

  /** The page of a record that needs just one: the directory that was active has it, where no section is in its place. */
  lemma RecordPageSeen(c: Creation, newdir: nat)
    requires Creates(c, newdir) && Sound(c.before) && |c.pages| == 1
    ensures c.before.kernel < PAGES && c.before.cr3 < PAGES
    ensures var v, s := c.pages[0].virt, c.before;
            var pde := s.m.ram[s.cr3][DirIndex(v)];
            LastThrough(s, s.kernel, c.sections, s.cr3, v) < 0 ==>
              && Walk(s.m.ram, s.cr3, v).Fault?
              && Walk(c.after.m.ram, s.cr3, v) == To(c.pages[0].phys / PAGE_SIZE, Present(pde) ==> Writable(pde), false)
  {
    var s, v := c.before, c.pages[0].virt;
    PagesBelow(c.growing, c.pages, 0);
    assert HeapPage(c.pages[0]);
    assert Hits(s.m, s.cr3, c.pages[0], s.cr3, v);
    CreateEffect(c, newdir, s.cr3, v);
  }

  /** The kernel's directory gives a clone a table for the address, one that was there or a window's. */
  predicate GivesTable(s: System, v: uint32)
    requires s.kernel < PAGES
  {
    HasTable(s.m, s.kernel, v) || (s.cr3 == s.kernel && WindowSlot(v))
  }

  lemma SharedHit(s: System, p: Mapping)
    requires Sound(s) && Shares(s, s.cr3, DirIndex(p.virt)) && GivesTable(s, p.virt)
    ensures HitsThrough(s, s.cr3, p, s.kernel, p.virt)
  {
    if s.cr3 != s.kernel { SharedSlot(s, s.cr3, s.kernel, DirIndex(p.virt)); }
  }

  lemma NoHitThrough(s: System, maps: seq<Mapping>, v: uint32)
    requires Sound(s) && !GivesTable(s, v)
    ensures LastThrough(s, s.cr3, maps, s.kernel, v) < 0 && Walk(s.m.ram, s.kernel, v).Fault?
  {
    forall k | 0 <= k < |maps|
      ensures !HitsThrough(s, s.cr3, maps[k], s.kernel, v)
    {
      SamePage(v, maps[k].virt);
    }
  }

  /** The section that is seen where one is. */
  lemma SectionSeen(c: Creation, newdir: nat, d: nat, v: uint32)
    requires Creates(c, newdir) && Sound(c.before) && d in c.before.m.dirs && v < TABLES_VIRT && d < PAGES && c.before.kernel < PAGES
    requires LastThrough(c.before, c.before.kernel, c.sections, d, v) >= 0
    ensures var p := c.sections[LastThrough(c.before, c.before.kernel, c.sections, d, v)];
            Walk(c.after.m.ram, d, v) == Entered(c.before.m.ram[d][DirIndex(v)], p.phys, p.flags)
  {
    CreateSound(c, newdir);
    SectionHits(c, newdir, d, v);
    AllSee(c, newdir, d, v);
  }

  datatype Section = Section(virtAddr: uint32, physAddr: uint32, pageCount: uint32)

  const NO_SECTION := Section(0, 0, 0)

  function PageAlign(addr: uint32): uint32 {
    addr / PAGE_SIZE * PAGE_SIZE
  }

  /** The mapping of the constants of a process. */
  function RodataMap(rodata: Section): Mapping {
    Mapping(PageAlign(rodata.virtAddr), rodata.physAddr, PAGE_PRESENT + PAGE_USERMODE)
  }

  /** The mappings of a new process: its code and constants to read, its data to write, all of it its own to use. */
  function SectionMaps(text: Section, data: Section, bss: Section, rodata: Section): (maps: seq<Mapping>)
    ensures |maps| == 4 && forall k :: 0 <= k < 4 ==> Present(maps[k].flags) && User(maps[k].flags)
    ensures !Writable(maps[0].flags) && Writable(maps[1].flags) && Writable(maps[2].flags) && !Writable(maps[3].flags)
  {
    [Mapping(PageAlign(text.virtAddr), text.physAddr, PAGE_PRESENT + PAGE_USERMODE),
     Mapping(PageAlign(data.virtAddr), data.physAddr, PAGE_PRESENT + PAGE_USERMODE + PAGE_WRITABLE),
     Mapping(PageAlign(bss.virtAddr), bss.physAddr, PAGE_PRESENT + PAGE_USERMODE + PAGE_WRITABLE),
     RodataMap(rodata)]
  }

  /** Aligning an address leaves its page and its entry. */
  lemma AlignedEntry(s: System, q: uint32, phys: uint32, flags: uint32, v: uint32)
    requires s.kernel < PAGES
    ensures PageAlign(q) / PAGE_SIZE == q / PAGE_SIZE
    ensures Hits(s.m, s.kernel, Mapping(PageAlign(q), phys, flags), s.kernel, v) == Meets(s.m, s.kernel, q, v)
  {
    assert q / 0x1000 * 0x1000 / 0x1000 == q / 0x1000;
    SamePage(PageAlign(q), q);
  }

  lemma LastSectionHit(s: System, text: Section, data: Section, bss: Section, rodata: Section, v: uint32)
    requires s.kernel < PAGES
    ensures LastHit(s.m, s.kernel, SectionMaps(text, data, bss, rodata), s.kernel, v) ==
              if Meets(s.m, s.kernel, rodata.virtAddr, v) then 3 else if Meets(s.m, s.kernel, bss.virtAddr, v) then 2
              else if Meets(s.m, s.kernel, data.virtAddr, v) then 1 else if Meets(s.m, s.kernel, text.virtAddr, v) then 0 else -1
  {
    var maps := SectionMaps(text, data, bss, rodata);
    AlignedEntry(s, text.virtAddr, maps[0].phys, maps[0].flags, v);
    AlignedEntry(s, data.virtAddr, maps[1].phys, maps[1].flags, v);
    AlignedEntry(s, bss.virtAddr, maps[2].phys, maps[2].flags, v);
    AlignedEntry(s, rodata.virtAddr, maps[3].phys, maps[3].flags, v);
  }

  /**
   * The memory that the new process has where its sections are: the last of them at an address gives its
   * own, text and rodata to read, data and bss to write, as far as a slot of the kernel's lets them.
   */
  lemma SectionsSeen(c: Creation, newdir: nat, text: Section, data: Section, bss: Section, rodata: Section, v: uint32)
    requires Creates(c, newdir) && Sound(c.before) && c.sections == SectionMaps(text, data, bss, rodata) && v < TABLES_VIRT
    ensures newdir < PAGES && c.before.kernel < PAGES
    ensures var s, t := c.before, Walk(c.after.m.ram, newdir, v);
            var pde := s.m.ram[s.kernel][DirIndex(v)];
            var w, u := Present(pde) ==> Writable(pde), Present(pde) ==> User(pde);
            if Meets(s.m, s.kernel, rodata.virtAddr, v) then t == To(rodata.physAddr / PAGE_SIZE, false, u)
            else if Meets(s.m, s.kernel, bss.virtAddr, v) then t == To(bss.physAddr / PAGE_SIZE, w, u)
            else if Meets(s.m, s.kernel, data.virtAddr, v) then t == To(data.physAddr / PAGE_SIZE, w, u)
            else Meets(s.m, s.kernel, text.virtAddr, v) ==> t == To(text.physAddr / PAGE_SIZE, false, u)
  {
    LastSectionHit(c.before, text, data, bss, rodata, v);
    if LastHit(c.before.m, c.before.kernel, c.sections, c.before.kernel, v) >= 0 { NewSees(c, newdir, v); }
    CreateSound(c, newdir);
  }

  lemma SectionsBelow(c: Creation, text: Section, data: Section, bss: Section, rodata: Section)
    requires MapRun(c.mapping, c.sections) && c.sections == SectionMaps(text, data, bss, rodata)
    ensures text.virtAddr < TABLES_VIRT && data.virtAddr < TABLES_VIRT && bss.virtAddr < TABLES_VIRT && rodata.virtAddr < TABLES_VIRT
  {
    SectionBelow(c, 0, text.virtAddr);
    SectionBelow(c, 1, data.virtAddr);
    SectionBelow(c, 2, bss.virtAddr);
    SectionBelow(c, 3, rodata.virtAddr);
  }

  lemma SectionBelow(c: Creation, k: nat, q: uint32)
    requires MapRun(c.mapping, c.sections) && k < |c.sections| && c.sections[k].virt == PageAlign(q)
    ensures q < TABLES_VIRT
  {
    PagesBelow(c.mapping, c.sections, k);
    assert q / 0x1000 * 0x1000 < 0xFFC0_0000 ==> q < 0xFFC0_0000;
  }

  /** So, in slots that the kernel's directory lacks, each section whose page no later one has. */
  lemma OwnSections(c: Creation, newdir: nat, text: Section, data: Section, bss: Section, rodata: Section)
    requires Creates(c, newdir) && Sound(c.before) && c.sections == SectionMaps(text, data, bss, rodata)
    ensures newdir < PAGES && c.before.kernel < PAGES
    ensures !HasTable(c.before.m, c.before.kernel, text.virtAddr) && text.virtAddr / PAGE_SIZE != data.virtAddr / PAGE_SIZE
            && text.virtAddr / PAGE_SIZE != bss.virtAddr / PAGE_SIZE && text.virtAddr / PAGE_SIZE != rodata.virtAddr / PAGE_SIZE ==>
              Walk(c.after.m.ram, newdir, text.virtAddr) == To(text.physAddr / PAGE_SIZE, false, true)
    ensures !HasTable(c.before.m, c.before.kernel, data.virtAddr)
            && data.virtAddr / PAGE_SIZE != bss.virtAddr / PAGE_SIZE && data.virtAddr / PAGE_SIZE != rodata.virtAddr / PAGE_SIZE ==>
              Walk(c.after.m.ram, newdir, data.virtAddr) == To(data.physAddr / PAGE_SIZE, true, true)
    ensures !HasTable(c.before.m, c.before.kernel, bss.virtAddr) && bss.virtAddr / PAGE_SIZE != rodata.virtAddr / PAGE_SIZE ==>
              Walk(c.after.m.ram, newdir, bss.virtAddr) == To(bss.physAddr / PAGE_SIZE, true, true)
    ensures !HasTable(c.before.m, c.before.kernel, rodata.virtAddr) ==>
              Walk(c.after.m.ram, newdir, rodata.virtAddr) == To(rodata.physAddr / PAGE_SIZE, false, true)
  {
    SectionsBelow(c, text, data, bss, rodata);
    SectionsSeen(c, newdir, text, data, bss, rodata, text.virtAddr);
    SectionsSeen(c, newdir, text, data, bss, rodata, data.virtAddr);
    SectionsSeen(c, newdir, text, data, bss, rodata, bss.virtAddr);
    SectionsSeen(c, newdir, text, data, bss, rodata, rodata.virtAddr);
  }

  lemma LastOfFour(s: System, maps: seq<Mapping>, d: nat, v: uint32)
    requires s.kernel < PAGES && d < PAGES && |maps| == 4 && HitsThrough(s, s.kernel, maps[2], d, v)
    ensures LastThrough(s, s.kernel, maps, d, v) == if HitsThrough(s, s.kernel, maps[3], d, v) then 3 else 2
  {
  }

  /**
   * The program loader never fills in bss, so page 0 is mapped each time. Who has the kernel's slot 0
   * then sees frame 0 at page 0, to be written as far as the slot is; but if rodata is missing too, only to be read.
   */
  lemma PageZero(c: Creation, newdir: nat, text: Section, data: Section, rodata: Section, d: nat, v: uint32)
    requires Creates(c, newdir) && Sound(c.before) && c.sections == SectionMaps(text, data, NO_SECTION, rodata)
    requires d in c.before.m.dirs && v < TABLES_VIRT && d < PAGES && c.before.kernel < PAGES
    requires SameEntry(c.before.m, c.before.kernel, 0, d, v)
    ensures var last, pde := Walk(c.after.m.ram, d, v), c.before.m.ram[d][DirIndex(v)];
            && (rodata == NO_SECTION ==> last == To(0, false, User(pde)))
            && (!HitsThrough(c.before, c.before.kernel, RodataMap(rodata), d, v) ==> last == To(0, Writable(pde), User(pde)))
  {
    LastOfFour(c.before, c.sections, d, v);
    SectionSeen(c, newdir, d, v);
  }

  /** At boot page 0 and its double have one entry, which lets the user write. */
  lemma BootPageZeroEntry(s: System, table: nat, v: uint32)
    requires AtBoot(s, table) && (v < PAGE_SIZE || 0xC000_0000 <= v < 0xC000_0000 + PAGE_SIZE)
    ensures Sound(s) && SameEntry(s.m, s.kernel, 0, s.kernel, v) && User(s.m.ram[s.kernel][DirIndex(v)])
    ensures Walk(s.m.ram, s.kernel, v) == To(0, true, true)
  {
    BootSound(s, table);
    BootMap(s.m.ram, s.kernel, table, v);
    assert DirIndex(v) == 0 || DirIndex(v) == 768;
    assert TableIndex(v) == 0;
  }

  /**
   * So the first process without rodata takes the right to write page 0 away from the kernel's
   * directory, also where the page appears again at 0xC0000000.
   */
  lemma BootPageZero(c: Creation, newdir: nat, table: nat, text: Section, data: Section, v: uint32)
    requires Creates(c, newdir) && AtBoot(c.before, table) && c.sections == SectionMaps(text, data, NO_SECTION, NO_SECTION)
    requires v < PAGE_SIZE || 0xC000_0000 <= v < 0xC000_0000 + PAGE_SIZE
    ensures c.before.kernel < PAGES
    ensures Walk(c.before.m.ram, c.before.kernel, v) == To(0, true, true)
    ensures Walk(c.after.m.ram, c.before.kernel, v) == To(0, false, true)
  {
    BootPageZeroEntry(c.before, table, v);
    PageZero(c, newdir, text, data, NO_SECTION, c.before.kernel, v);
  }
}

/** Runs of the page table operations of kernel/process.c: each process has its own slots to itself. */
module Processes {
  import opened MachineTypes
  import opened Palloc
  import opened PageTables
  import opened Paging
  import opened Isolation

  /** `shared` gives, for each process's directory, the slots it got from the kernel's directory. */
  datatype System = System(m: Memory, kernel: nat, cr3: nat, shared: map<nat, set<nat>>)

  predicate Points(ram: Ram, d: nat, j: nat, f: nat)
    requires d < PAGES
  {
    j < SELF && Present(ram[d][j]) && FrameOf(ram[d][j]) == f
  }

  /** Slot i of d is the only one anywhere that points at its table. */
  ghost predicate Alone(m: Memory, d: nat, i: nat)
    requires Tidy(m) && d in m.dirs && i < SELF
  {
    Present(m.ram[d][i]) ==>
      forall d', j :: d' in m.dirs && Points(m.ram, d', j, FrameOf(m.ram[d][i])) ==> d' == d && j == i
  }

  /** No slot but i, in any directory, points at the table of slot i of d. */
  ghost predicate AloneAt(m: Memory, d: nat, i: nat)
    requires Tidy(m) && d in m.dirs && i < SELF
  {
    Present(m.ram[d][i]) ==>
      forall d', j :: d' in m.dirs && Points(m.ram, d', j, FrameOf(m.ram[d][i])) ==> j == i
  }

  /** A slot that the kernel's directory lacked when d was cloned. */
  predicate Private(s: System, d: nat, i: nat) {
    d in s.shared && i < SELF && i !in s.shared[d]
  }

  /** A slot that d has in common with the kernel's directory, which d may be itself. */
  predicate Shares(s: System, d: nat, i: nat) {
    d == s.kernel || (d in s.shared && i in s.shared[d])
  }

  /** What a slot got from the kernel's directory stays what it is there. */
  ghost predicate SharedAlike(s: System)
    requires Tidy(s.m) && s.kernel in s.m.dirs
  {
    forall d: nat, i: nat {:trigger Shares(s, d, i)} :: d in s.shared && d in s.m.dirs && Shares(s, d, i) && d != s.kernel ==>
      i < SELF && Present(s.m.ram[d][i]) && s.m.ram[d][i] == s.m.ram[s.kernel][i]
  }

  ghost predicate Placed(s: System) {
    && Tidy(s.m) && s.kernel in s.m.dirs && s.cr3 in s.m.dirs
    && s.shared.Keys == s.m.dirs - {s.kernel}
  }

  /** The tables of a process's own slots are reached from nowhere else. */
  ghost predicate OwnAlone(s: System)
    requires Placed(s)
  {
    forall d, i {:trigger Private(s, d, i)} :: Private(s, d, i) ==> Alone(s.m, d, i)
  }

  /** The tables of the windows of page_dir_clone are reached through the windows' slots only. */
  ghost predicate WindowsAlone(s: System)
    requires Placed(s)
  {
    forall d :: d in s.m.dirs ==> AloneAt(s.m, d, DirIndex(OLDDIR_VIRT)) && AloneAt(s.m, d, DirIndex(NEWDIR_VIRT))
  }

  ghost predicate Sound(s: System) {
    Placed(s) && OwnAlone(s) && WindowsAlone(s) && SharedAlike(s)
  }

  ghost predicate MapStep(s: System, virt: uint32, phys: uint32, flags: uint32, spare: nat, s': System) {
    MayMap(s.m, s.cr3, virt, spare) && s' == s.(m := MapPage(s.m, s.cr3, virt, phys, flags, spare))
  }

  function PresentSlots(ram: Ram, d: nat): set<nat>
    requires d < PAGES
  {
    set i: nat | i < SELF && Present(ram[d][i])
  }

  ghost predicate CloneStep(s: System, newdir: nat, spares: (nat, nat), s': System) {
    && MayClone(s.m, s.cr3, s.kernel, newdir, spares)
    && var c := Cloned(s.m, s.cr3, s.kernel, newdir, spares);
       s' == System(c, s.kernel, s.cr3, s.shared[newdir := PresentSlots(c.ram, newdir)])
  }

  /** What mapping does to directories: at most one slot appears, pointing at a frame that was free. */
  lemma MapSlots(m: Memory, dir: nat, virt: uint32, phys: uint32, flags: uint32, spare: nat, d: nat, j: nat)
    requires CanMap(m, dir, virt, spare) && d in m.dirs && j < SELF
    ensures var ram' := MapPage(m, dir, virt, phys, flags, spare).ram;
            if !HasTable(m, dir, virt) && d == dir && j == DirIndex(virt)
            then FrameOf(ram'[d][j]) == spare && spare !in m.tables && Present(ram'[d][j]) && Writable(ram'[d][j]) && User(ram'[d][j])
            else ram'[d][j] == m.ram[d][j]
  {
  }

  lemma MapAlone(m: Memory, dir: nat, virt: uint32, phys: uint32, flags: uint32, spare: nat, d: nat, i: nat)
    requires CanMap(m, dir, virt, spare) && d in m.dirs && i < SELF
    ensures var m' := MapPage(m, dir, virt, phys, flags, spare);
            Tidy(m') && (Alone(m, d, i) ==> Alone(m', d, i)) && (AloneAt(m, d, i) ==> AloneAt(m', d, i))
  {
    var m' := MapPage(m, dir, virt, phys, flags, spare);
    MapTidy(m, dir, virt, phys, flags, spare);
    MapSlots(m, dir, virt, phys, flags, spare, d, i);
    if Present(m'.ram[d][i]) {
      forall d', j | d' in m'.dirs && Points(m'.ram, d', j, FrameOf(m'.ram[d][i]))
        ensures (d' == d && j == i) || (Present(m.ram[d][i]) && Points(m.ram, d', j, FrameOf(m.ram[d][i])))
      {
        MapSlots(m, dir, virt, phys, flags, spare, d', j);
        assert PointsAtTables(m.ram, d', m.tables) && PointsAtTables(m.ram, d, m.tables);
      }
    }
  }

  lemma MapOwnAlone(s: System, virt: uint32, phys: uint32, flags: uint32, spare: nat, s': System)
    requires Sound(s) && MapStep(s, virt, phys, flags, spare, s') && Placed(s')
    ensures OwnAlone(s') && WindowsAlone(s')
  {
    forall d: nat, i: nat | Private(s', d, i)
      ensures Alone(s'.m, d, i)
    {
      assert Private(s, d, i);
      MapAlone(s.m, s.cr3, virt, phys, flags, spare, d, i);
    }
    forall d | d in s'.m.dirs
      ensures AloneAt(s'.m, d, DirIndex(OLDDIR_VIRT)) && AloneAt(s'.m, d, DirIndex(NEWDIR_VIRT))
    {
      MapAlone(s.m, s.cr3, virt, phys, flags, spare, d, DirIndex(OLDDIR_VIRT));
      MapAlone(s.m, s.cr3, virt, phys, flags, spare, d, DirIndex(NEWDIR_VIRT));
    }
  }

  lemma MapSharedAlike(s: System, virt: uint32, phys: uint32, flags: uint32, spare: nat, s': System)
    requires Sound(s) && MapStep(s, virt, phys, flags, spare, s') && Placed(s')
    ensures SharedAlike(s')
  {
    forall d: nat, i: nat | d in s'.shared && Shares(s', d, i) && d != s.kernel
      ensures i < SELF && Present(s'.m.ram[d][i]) && s'.m.ram[d][i] == s'.m.ram[s.kernel][i]
    {
      assert Shares(s, d, i);
      MapSlots(s.m, s.cr3, virt, phys, flags, spare, d, i);
      MapSlots(s.m, s.cr3, virt, phys, flags, spare, s.kernel, i);
    }
  }

  lemma MapSound(s: System, virt: uint32, phys: uint32, flags: uint32, spare: nat, s': System)
    requires Sound(s) && MapStep(s, virt, phys, flags, spare, s')
    ensures Sound(s') && s'.m.dirs == s.m.dirs
  {
    MapTidy(s.m, s.cr3, virt, phys, flags, spare);
    MapOwnAlone(s, virt, phys, flags, spare, s');
    MapSharedAlike(s, virt, phys, flags, spare, s');
  }

  /** Mapping in a slot of one's own changes no other directory's translations, of any address. */
  lemma MapIsPrivate(s: System, virt: uint32, phys: uint32, flags: uint32, spare: nat, s': System, d: nat, v: uint32)
    requires Sound(s) && MapStep(s, virt, phys, flags, spare, s')
    requires Private(s, s.cr3, DirIndex(virt)) && d in s.m.dirs && d != s.cr3
    ensures Walk(s'.m.ram, d, v) == Walk(s.m.ram, d, v)
  {
    assert Alone(s.m, s.cr3, DirIndex(virt));
    assert SelfMapped(s.m.ram, d) && PointsAtTables(s.m.ram, s.cr3, s.m.tables) && PointsAtTables(s.m.ram, d, s.m.tables);
    if HasTable(s.m, s.cr3, virt) && Present(s.m.ram[d][DirIndex(v)]) {
      assert Points(s.m.ram, d, DirIndex(v), FrameOf(s.m.ram[s.cr3][DirIndex(virt)])) ==> d == s.cr3;
    }
    MapKeeps(s.m, s.cr3, virt, phys, flags, spare, d, v);
  }

  lemma OpenedAlone(m: Memory, cr3: nat, olddir: nat, newdir: nat, spares: (nat, nat), d: nat, i: nat)
    requires CanClone(m, cr3, olddir, newdir, spares) && d in m.dirs && i < SELF
    ensures var o := Opened(m, cr3, olddir, newdir, spares);
            Tidy(o) && o.dirs == m.dirs && (Alone(m, d, i) ==> Alone(o, d, i)) && (AloneAt(m, d, i) ==> AloneAt(o, d, i))
  {
    var m1, m2, flags := m.(free := m.free - {newdir}), HalfOpened(m, cr3, olddir, newdir, spares), WINDOW_FLAGS;
    BothCanOpen(m, cr3, olddir, newdir, spares);
    MapAlone(m1, cr3, OLDDIR_VIRT, olddir * PAGE_SIZE, flags, spares.0, d, i);
    MapAlone(m2, cr3, NEWDIR_VIRT, newdir * PAGE_SIZE, flags, spares.1, d, i);
  }

  /** What a clone's directory points at, the old one does, and the others point at what they did. */
  lemma ClonedPoints(m: Memory, cr3: nat, olddir: nat, newdir: nat, spares: (nat, nat), d: nat, j: nat, f: nat)
    requires CanClone(m, cr3, olddir, newdir, spares)
    ensures var c, o := Cloned(m, cr3, olddir, newdir, spares), Opened(m, cr3, olddir, newdir, spares);
            && Tidy(c) && Tidy(o) && c.dirs == m.dirs + {newdir} && o.dirs == m.dirs && newdir !in m.dirs
            && (d in c.dirs && Points(c.ram, d, j, f) ==> Points(o.ram, if d == newdir then olddir else d, j, f))
  {
    ClonedSlots(m, cr3, olddir, newdir, spares);
  }

  /** A slot of a directory that is not cloned stays the only one that points at its table. */
  lemma ClonedAlone(m: Memory, cr3: nat, olddir: nat, newdir: nat, spares: (nat, nat), d: nat, i: nat)
    requires CanClone(m, cr3, olddir, newdir, spares) && d in m.dirs && i < SELF && d != olddir && Alone(m, d, i)
    ensures var c := Cloned(m, cr3, olddir, newdir, spares);
            Tidy(c) && d in c.dirs && Alone(c, d, i)
  {
    var c, o := Cloned(m, cr3, olddir, newdir, spares), Opened(m, cr3, olddir, newdir, spares);
    ClonedSlots(m, cr3, olddir, newdir, spares);
    OpenedAlone(m, cr3, olddir, newdir, spares, d, i);
    forall d', j | d' in c.dirs && Points(c.ram, d', j, FrameOf(c.ram[d][i]))
      ensures Points(o.ram, if d' == newdir then olddir else d', j, FrameOf(o.ram[d][i]))
    {
      ClonedPoints(m, cr3, olddir, newdir, spares, d', j, FrameOf(c.ram[d][i]));
    }
  }

  /** A slot that alone, in any directory, points at its table does so still, also in the new directory. */
  lemma ClonedAloneAt(m: Memory, cr3: nat, olddir: nat, newdir: nat, spares: (nat, nat), d: nat, i: nat)
    requires CanClone(m, cr3, olddir, newdir, spares) && i < SELF && d in m.dirs + {newdir}
    requires AloneAt(m, if d == newdir then olddir else d, i)
    ensures var c := Cloned(m, cr3, olddir, newdir, spares);
            Tidy(c) && d in c.dirs && AloneAt(c, d, i)
  {
    var c, o, d0 := Cloned(m, cr3, olddir, newdir, spares), Opened(m, cr3, olddir, newdir, spares), if d == newdir then olddir else d;
    ClonedSlots(m, cr3, olddir, newdir, spares);
    OpenedAlone(m, cr3, olddir, newdir, spares, d0, i);
    forall d', j | d' in c.dirs && Points(c.ram, d', j, FrameOf(c.ram[d][i]))
      ensures Points(o.ram, if d' == newdir then olddir else d', j, FrameOf(o.ram[d0][i]))
    {
      ClonedPoints(m, cr3, olddir, newdir, spares, d', j, FrameOf(c.ram[d][i]));
    }
  }

  lemma ClonePlaced(s: System, newdir: nat, spares: (nat, nat), s': System)
    requires Sound(s) && CloneStep(s, newdir, spares, s')
    ensures Placed(s') && s'.m.dirs == s.m.dirs + {newdir} && newdir !in s.m.dirs
  {
    ClonedSlots(s.m, s.cr3, s.kernel, newdir, spares);
  }

  lemma CloneOwnAlone(s: System, newdir: nat, spares: (nat, nat), s': System)
    requires Sound(s) && CloneStep(s, newdir, spares, s') && Placed(s') && newdir !in s.m.dirs
    ensures OwnAlone(s')
  {
    forall d: nat, i: nat | Private(s', d, i)
      ensures Alone(s'.m, d, i)
    {
      if d == newdir {
        assert !Present(s'.m.ram[d][i]);
      } else {
        assert Private(s, d, i);
        ClonedAlone(s.m, s.cr3, s.kernel, newdir, spares, d, i);
      }
    }
  }

  lemma CloneWindowsAlone(s: System, newdir: nat, spares: (nat, nat), s': System)
    requires Sound(s) && CloneStep(s, newdir, spares, s') && Placed(s') && s'.m.dirs == s.m.dirs + {newdir}
    ensures WindowsAlone(s')
  {
    forall d | d in s'.m.dirs
      ensures AloneAt(s'.m, d, DirIndex(OLDDIR_VIRT)) && AloneAt(s'.m, d, DirIndex(NEWDIR_VIRT))
    {
      ClonedAloneAt(s.m, s.cr3, s.kernel, newdir, spares, d, DirIndex(OLDDIR_VIRT));
      ClonedAloneAt(s.m, s.cr3, s.kernel, newdir, spares, d, DirIndex(NEWDIR_VIRT));
    }
  }

  lemma CloneSharedAlike(s: System, newdir: nat, spares: (nat, nat), s': System)
    requires Sound(s) && CloneStep(s, newdir, spares, s') && Placed(s')
    ensures SharedAlike(s')
  {
    ClonedSlots(s.m, s.cr3, s.kernel, newdir, spares);
    forall d: nat, i: nat | d in s'.shared && Shares(s', d, i) && d != s.kernel
      ensures i < SELF && Present(s'.m.ram[d][i]) && s'.m.ram[d][i] == s'.m.ram[s.kernel][i]
    {
      if d != newdir {
        assert Shares(s, d, i);
        OpenedSlots(s.m, s.cr3, s.kernel, newdir, spares, d, i);
        OpenedSlots(s.m, s.cr3, s.kernel, newdir, spares, s.kernel, i);
      }
    }
  }

  lemma CloneSound(s: System, newdir: nat, spares: (nat, nat), s': System)
    requires Sound(s) && CloneStep(s, newdir, spares, s')
    ensures Sound(s') && s'.m.dirs == s.m.dirs + {newdir} && newdir !in s.m.dirs
  {
    ClonePlaced(s, newdir, spares, s');
    CloneOwnAlone(s, newdir, spares, s');
    CloneWindowsAlone(s, newdir, spares, s');
    CloneSharedAlike(s, newdir, spares, s');
  }

  /** Opening the windows changes no slot that is present. */
  lemma OpenedSlots(m: Memory, cr3: nat, olddir: nat, newdir: nat, spares: (nat, nat), d: nat, i: nat)
    requires CanClone(m, cr3, olddir, newdir, spares) && d in m.dirs && i < SELF && Present(m.ram[d][i])
    ensures Opened(m, cr3, olddir, newdir, spares).ram[d][i] == m.ram[d][i]
  {
    var m1, m2, flags := m.(free := m.free - {newdir}), HalfOpened(m, cr3, olddir, newdir, spares), WINDOW_FLAGS;
    BothCanOpen(m, cr3, olddir, newdir, spares);
    MapSlots(m1, cr3, OLDDIR_VIRT, olddir * PAGE_SIZE, flags, spares.0, d, i);
    MapSlots(m2, cr3, NEWDIR_VIRT, newdir * PAGE_SIZE, flags, spares.1, d, i);
  }

  /** An address of the two pages at which page_dir_clone opens its windows. */
  predicate OnWindowPage(v: uint32) {
    v / PAGE_SIZE == OLDDIR_VIRT / PAGE_SIZE || v / PAGE_SIZE == NEWDIR_VIRT / PAGE_SIZE
  }

  /** A clone leaves all translations below the self-map alone, except of the window pages. */
  lemma CloneIsPrivate(s: System, newdir: nat, spares: (nat, nat), s': System, d: nat, v: uint32)
    requires Sound(s) && CloneStep(s, newdir, spares, s') && d in s.m.dirs && v < TABLES_VIRT && !OnWindowPage(v)
    ensures Walk(s'.m.ram, d, v) == Walk(s.m.ram, d, v)
  {
    CloneKeeps(s.m, s.cr3, s.kernel, newdir, spares, d, v);
    NotInWindow(s, OLDDIR_VIRT, d, v);
    NotInWindow(s, NEWDIR_VIRT, d, v);
  }

  lemma NotInWindow(s: System, window: uint32, d: nat, v: uint32)
    requires Sound(s) && d in s.m.dirs && v < TABLES_VIRT
    requires (window == OLDDIR_VIRT || window == NEWDIR_VIRT) && v / PAGE_SIZE != window / PAGE_SIZE
    ensures !SameEntry(s.m, s.cr3, window, d, v)
  {
    SamePage(v, window);
    if SameEntry(s.m, s.cr3, window, d, v) {
      assert AloneAt(s.m, s.cr3, DirIndex(window));
      assert Points(s.m.ram, d, DirIndex(v), FrameOf(s.m.ram[s.cr3][DirIndex(window)]));
      assert false;
    }
  }

  /** Nothing that others map, in whatever slot, is seen in a slot of one's own. */
  lemma OwnSlotUnseen(s: System, virt: uint32, phys: uint32, flags: uint32, spare: nat, s': System, d: nat, v: uint32)
    requires Sound(s) && MapStep(s, virt, phys, flags, spare, s')
    requires d != s.cr3 && v < TABLES_VIRT && Private(s, d, DirIndex(v))
    ensures Walk(s'.m.ram, d, v) == Walk(s.m.ram, d, v)
  {
    TouchesBelow(s.m, s.cr3, virt, d, v);
    assert Alone(s.m, d, DirIndex(v));
    if HasTable(s.m, s.cr3, virt) && HasTable(s.m, d, v) {
      assert Points(s.m.ram, s.cr3, DirIndex(virt), FrameOf(s.m.ram[d][DirIndex(v)])) ==> s.cr3 == d;
    }
    MapKeeps(s.m, s.cr3, virt, phys, flags, spare, d, v);
  }

  /**
   * Who sees a page that is mapped: the active directory, and if its slot is the kernel's, every
   * directory that has this slot of the kernel's, to the same frame; and nobody else.
   */
  lemma MapSeenBy(s: System, virt: uint32, phys: uint32, flags: uint32, spare: nat, s': System, d: nat)
    requires Sound(s) && MapStep(s, virt, phys, flags, spare, s') && d in s.m.dirs
    ensures var i := DirIndex(virt);
            Walk(s'.m.ram, d, virt) ==
              if d == s.cr3 || (Shares(s, s.cr3, i) && Shares(s, d, i)) then Entered(s.m.ram[d][i], phys, flags)
              else Walk(s.m.ram, d, virt)
  {
    var i := DirIndex(virt);
    if d == s.cr3 {
      MapTranslates(s.m, s.cr3, virt, phys, flags, spare);
    } else if !Shares(s, s.cr3, i) {
      assert Private(s, s.cr3, i);
      MapIsPrivate(s, virt, phys, flags, spare, s', d, virt);
    } else if !Shares(s, d, i) {
      assert Private(s, d, i);
      OwnSlotUnseen(s, virt, phys, flags, spare, s', d, virt);
    } else {
      SharedSlot(s, s.cr3, d, i);
      MapBelow(s.m, s.cr3, virt, phys, flags, spare, d, virt);
      SameEntryStays(s.m, s.cr3, virt, phys, flags, spare, s.cr3, virt, d, virt);
    }
  }

  /** Two directories that share a slot with the kernel's have the same table there. */
  lemma SharedSlot(s: System, d: nat, e: nat, i: nat)
    requires Sound(s) && d in s.m.dirs && e in s.m.dirs && d != e && Shares(s, d, i) && Shares(s, e, i)
    ensures i < SELF && Present(s.m.ram[d][i]) && s.m.ram[d][i] == s.m.ram[e][i]
  {
  }

  /** A mapping of v's entry that says what the entry says already. */
  predicate Repeats(s: System, virt: uint32, phys: uint32, flags: uint32)
    requires s.cr3 < PAGES
  {
    HasTable(s.m, s.cr3, virt) && s.m.ram[FrameOf(s.m.ram[s.cr3][DirIndex(virt)])][TableIndex(virt)] == PageEntry(phys, flags)
  }

  /**
   * A mapping by another directory that p need not fear for address v: one of the two slots is its
   * directory's own, or the entries differ, or nothing new is written.
   */
  predicate LeavesAlone(s: System, virt: uint32, phys: uint32, flags: uint32, s': System, p: nat, v: uint32)
    requires s.cr3 < PAGES && p < PAGES
  {
    || (s.cr3 != p && (Private(s, p, DirIndex(v)) || Private(s, s.cr3, DirIndex(virt))))
    || !SameEntry(s'.m, s.cr3, virt, p, v)
    || Repeats(s, virt, phys, flags)
  }

  ghost predicate AnyClone(s: System, s': System) {
    exists newdir: nat, spares: (nat, nat) :: CloneStep(s, newdir, spares, s')
  }

  ghost predicate AnySwitch(s: System, s': System) {
    exists d: nat :: d in s.m.dirs && s' == s.(cr3 := d)
  }

  ghost predicate MapElsewhere(s: System, p: nat, v: uint32, s': System) {
    exists virt: uint32, phys: uint32, flags: uint32, spare: nat ::
      MapStep(s, virt, phys, flags, spare, s') && p < PAGES && LeavesAlone(s, virt, phys, flags, s', p, v)
  }

  /** The allocator hands out or takes back frames, and memory that is no directory and no table is written. */
  ghost predicate OtherFrames(s: System, s': System) {
    && s'.kernel == s.kernel && s'.cr3 == s.cr3 && s'.shared == s.shared && s'.m.dirs == s.m.dirs && s'.m.tables == s.m.tables
    && s.m.dirs !! s'.m.free && s.m.tables !! s'.m.free && (forall f :: f in s'.m.free ==> f < PAGES)
    && forall f: nat :: f < PAGES && (f in s.m.dirs || f in s.m.tables) ==> s'.m.ram[f] == s.m.ram[f]
  }

  /** The steps of a run that process p watches at address v. */
  ghost predicate StepOfOthers(s: System, p: nat, v: uint32, s': System) {
    MapElsewhere(s, p, v, s') || AnyClone(s, s') || AnySwitch(s, s') || OtherFrames(s, s')
  }

  lemma MapKeepsWatched(s: System, virt: uint32, phys: uint32, flags: uint32, spare: nat, s': System, p: nat, v: uint32)
    requires Sound(s) && MapStep(s, virt, phys, flags, spare, s') && p in s.m.dirs && v < TABLES_VIRT
    requires LeavesAlone(s, virt, phys, flags, s', p, v)
    ensures Walk(s'.m.ram, p, v) == Walk(s.m.ram, p, v)
  {
    if s.cr3 != p && Private(s, p, DirIndex(v)) {
      OwnSlotUnseen(s, virt, phys, flags, spare, s', p, v);
    } else if s.cr3 != p && Private(s, s.cr3, DirIndex(virt)) {
      MapIsPrivate(s, virt, phys, flags, spare, s', p, v);
    } else if !SameEntry(s'.m, s.cr3, virt, p, v) {
      MapBelow(s.m, s.cr3, virt, phys, flags, spare, p, v);
    } else {
      var f := FrameOf(s.m.ram[s.cr3][DirIndex(virt)]);
      assert s.m.ram[f][TableIndex(virt) := PageEntry(phys, flags)] == s.m.ram[f];
      assert s'.m.ram == s.m.ram;
    }
  }

  lemma SwitchSound(s: System, d: nat, s': System)
    requires Sound(s) && d in s.m.dirs && s' == s.(cr3 := d)
    ensures Sound(s')
  {
    forall d: nat, i: nat | Private(s', d, i)
      ensures Alone(s'.m, d, i)
    {
      assert Private(s, d, i);
    }
    forall d: nat, i: nat | d in s'.shared && Shares(s', d, i) && d != s.kernel
      ensures i < SELF && Present(s'.m.ram[d][i]) && s'.m.ram[d][i] == s'.m.ram[s.kernel][i]
    {
      assert Shares(s, d, i);
    }
  }

  lemma SameDirsAlone(m: Memory, m': Memory, d: nat, i: nat)
    requires Tidy(m) && Tidy(m') && m'.dirs == m.dirs && d in m.dirs && i < SELF
    requires forall e :: e in m.dirs ==> m'.ram[e] == m.ram[e]
    ensures Alone(m, d, i) ==> Alone(m', d, i)
    ensures AloneAt(m, d, i) ==> AloneAt(m', d, i)
  {
    forall e, j | e in m'.dirs && Points(m'.ram, e, j, FrameOf(m'.ram[d][i]))
      ensures Points(m.ram, e, j, FrameOf(m.ram[d][i]))
    {
    }
  }

  lemma OtherFramesSound(s: System, s': System)
    requires Sound(s) && OtherFrames(s, s')
    ensures Sound(s')
  {
    forall d: nat, i: nat | Private(s', d, i)
      ensures Alone(s'.m, d, i)
    {
      assert Private(s, d, i);
      SameDirsAlone(s.m, s'.m, d, i);
    }
    forall d | d in s'.m.dirs
      ensures AloneAt(s'.m, d, DirIndex(OLDDIR_VIRT)) && AloneAt(s'.m, d, DirIndex(NEWDIR_VIRT))
    {
      SameDirsAlone(s.m, s'.m, d, DirIndex(OLDDIR_VIRT));
      SameDirsAlone(s.m, s'.m, d, DirIndex(NEWDIR_VIRT));
    }
    forall d: nat, i: nat | d in s'.shared && Shares(s', d, i) && d != s.kernel
      ensures i < SELF && Present(s'.m.ram[d][i]) && s'.m.ram[d][i] == s'.m.ram[s.kernel][i]
    {
      assert Shares(s, d, i);
    }
  }

  lemma OtherFramesKeep(s: System, s': System, d: nat, v: uint32)
    requires Sound(s) && OtherFrames(s, s') && d in s.m.dirs
    ensures Walk(s'.m.ram, d, v) == Walk(s.m.ram, d, v)
  {
    assert SelfMapped(s.m.ram, d) && PointsAtTables(s.m.ram, d, s.m.tables);
  }

  /** After a step the system is sound, and p sees at v what it saw. */
  ghost predicate Kept(s: System, p: nat, v: uint32, s': System)
    requires Sound(s) && p in s.m.dirs
  {
    && Sound(s') && p in s'.m.dirs && Walk(s'.m.ram, p, v) == Walk(s.m.ram, p, v)
    && (Private(s, p, DirIndex(v)) ==> Private(s', p, DirIndex(v)))
  }

  lemma MapElsewhereKeeps(s: System, p: nat, v: uint32, s': System)
    requires Sound(s) && p in s.m.dirs && v < TABLES_VIRT && MapElsewhere(s, p, v, s')
    ensures Kept(s, p, v, s')
  {
    var virt: uint32, phys: uint32, flags: uint32, spare: nat :|
      MapStep(s, virt, phys, flags, spare, s') && p < PAGES && LeavesAlone(s, virt, phys, flags, s', p, v);
    MapKeepsWatched(s, virt, phys, flags, spare, s', p, v);
    MapSound(s, virt, phys, flags, spare, s');
  }

  lemma AnyCloneKeeps(s: System, p: nat, v: uint32, s': System)
    requires Sound(s) && p in s.m.dirs && v < TABLES_VIRT && !OnWindowPage(v) && AnyClone(s, s')
    ensures Kept(s, p, v, s')
  {
    var newdir: nat, spares: (nat, nat) :| CloneStep(s, newdir, spares, s');
    CloneIsPrivate(s, newdir, spares, s', p, v);
    CloneSound(s, newdir, spares, s');
  }

  lemma AnySwitchKeeps(s: System, p: nat, v: uint32, s': System)
    requires Sound(s) && p in s.m.dirs && AnySwitch(s, s')
    ensures Kept(s, p, v, s')
  {
    var d: nat :| d in s.m.dirs && s' == s.(cr3 := d);
    SwitchSound(s, d, s');
  }

  lemma StepKeeps(s: System, p: nat, v: uint32, s': System)
    requires Sound(s) && p in s.m.dirs && v < TABLES_VIRT && !OnWindowPage(v) && StepOfOthers(s, p, v, s')
    ensures Kept(s, p, v, s')
  {
    if MapElsewhere(s, p, v, s') {
      MapElsewhereKeeps(s, p, v, s');
    } else if AnyClone(s, s') {
      AnyCloneKeeps(s, p, v, s');
    } else if AnySwitch(s, s') {
      AnySwitchKeeps(s, p, v, s');
    } else {
      OtherFramesSound(s, s');
      OtherFramesKeep(s, s', p, v);
    }
  }

  /** Over any run of such steps the translation of v stays. */
  lemma {:induction false} RunKeeps(run: seq<System>, p: nat, v: uint32)
    requires run != [] && Sound(run[0]) && p in run[0].m.dirs && v < TABLES_VIRT && !OnWindowPage(v)
    requires forall i :: 0 <= i < |run| - 1 ==> StepOfOthers(run[i], p, v, run[i + 1])
    ensures var last := run[|run| - 1];
            Sound(last) && p in last.m.dirs && Walk(last.m.ram, p, v) == Walk(run[0].m.ram, p, v)
            && (Private(run[0], p, DirIndex(v)) ==> Private(last, p, DirIndex(v)))
    decreases |run|
  {
    if |run| > 1 {
      RunKeeps(run[..|run| - 1], p, v);
      assert StepOfOthers(run[|run| - 2], p, v, run[|run| - 2 + 1]);
      StepKeeps(run[|run| - 2], p, v, run[|run| - 1]);
    }
  }

  ghost predicate MapByOther(s: System, p: nat, s': System) {
    exists virt: uint32, phys: uint32, flags: uint32, spare: nat :: MapStep(s, virt, phys, flags, spare, s') && s.cr3 != p
  }

  /** Any step, in which p itself maps nothing. */
  ghost predicate AnyStepButBy(s: System, p: nat, s': System) {
    MapByOther(s, p, s') || AnyClone(s, s') || AnySwitch(s, s') || OtherFrames(s, s')
  }

  lemma OthersStepElsewhere(s: System, p: nat, v: uint32, s': System)
    requires AnyStepButBy(s, p, s') && p < PAGES && Private(s, p, DirIndex(v))
    ensures StepOfOthers(s, p, v, s')
  {
    if MapByOther(s, p, s') {
      var virt: uint32, phys: uint32, flags: uint32, spare: nat :| MapStep(s, virt, phys, flags, spare, s') && s.cr3 != p;
      assert LeavesAlone(s, virt, phys, flags, s', p, v);
    }
  }

  /**
   * Isolation: whatever the others map, and wherever, over any run, a process keeps its translations
   * in the slots that the kernel's directory lacked when it was created.
   */
  lemma {:induction false} RunIsolates(run: seq<System>, p: nat, v: uint32)
    requires run != [] && Sound(run[0]) && v < TABLES_VIRT && !OnWindowPage(v)
    requires Private(run[0], p, DirIndex(v))
    requires forall i :: 0 <= i < |run| - 1 ==> AnyStepButBy(run[i], p, run[i + 1])
    ensures var last := run[|run| - 1];
            Sound(last) && Private(last, p, DirIndex(v)) && p in last.m.dirs && p in run[0].m.dirs
            && Walk(last.m.ram, p, v) == Walk(run[0].m.ram, p, v)
    decreases |run|
  {
    if |run| > 1 {
      RunIsolates(run[..|run| - 1], p, v);
      assert AnyStepButBy(run[|run| - 2], p, run[|run| - 2 + 1]);
      OthersStepElsewhere(run[|run| - 2], p, v, run[|run| - 1]);
      StepKeeps(run[|run| - 2], p, v, run[|run| - 1]);
    }
  }

  ghost predicate AnyMap(s: System, s': System) {
    exists virt: uint32, phys: uint32, flags: uint32, spare: nat :: MapStep(s, virt, phys, flags, spare, s')
  }

  ghost predicate AnyStep(s: System, s': System) {
    AnyMap(s, s') || AnyClone(s, s') || AnySwitch(s, s') || OtherFrames(s, s')
  }

  lemma StepSound(s: System, s': System)
    requires Sound(s) && AnyStep(s, s')
    ensures Sound(s')
  {
    if AnyMap(s, s') {
      var virt: uint32, phys: uint32, flags: uint32, spare: nat :| MapStep(s, virt, phys, flags, spare, s');
      MapSound(s, virt, phys, flags, spare, s');
    } else if AnyClone(s, s') {
      var newdir: nat, spares: (nat, nat) :| CloneStep(s, newdir, spares, s');
      CloneSound(s, newdir, spares, s');
    } else if AnySwitch(s, s') {
      var d: nat :| d in s.m.dirs && s' == s.(cr3 := d);
      SwitchSound(s, d, s');
    } else {
      OtherFramesSound(s, s');
    }
  }

  /** The system as kernel/entry.s leaves it: no directory but the kernel's. */
  ghost predicate AtBoot(s: System, table: nat) {
    Tidy(s.m) && s.m.dirs == {s.kernel} && s.cr3 == s.kernel && s.shared == map[] && table < PAGES && Booted(s.m.ram, s.kernel, table)
  }

  /** It is sound: the kernel's directory has no table at the windows. */
  lemma BootSound(s: System, table: nat)
    requires AtBoot(s, table)
    ensures Sound(s)
  {
    assert !Present(s.m.ram[s.kernel][DirIndex(OLDDIR_VIRT)]) && !Present(s.m.ram[s.kernel][DirIndex(NEWDIR_VIRT)]);
  }

  /** A run from boot: whoever maps, clones and switches, and whatever becomes of other frames. */
  ghost predicate IsRun(run: seq<System>, table: nat) {
    run != [] && AtBoot(run[0], table) && forall i :: 0 <= i < |run| - 1 ==> AnyStep(run[i], run[i + 1])
  }

  lemma {:induction false} RunSound(run: seq<System>, table: nat)
    requires IsRun(run, table)
    ensures Sound(run[|run| - 1])
    decreases |run|
  {
    if |run| == 1 {
      BootSound(run[0], table);
    } else {
      RunSound(run[..|run| - 1], table);
      assert AnyStep(run[|run| - 2], run[|run| - 2 + 1]);
      StepSound(run[|run| - 2], run[|run| - 1]);
    }
  }

  /** So isolation holds from any moment of any run from boot, as long as the process maps nothing itself. */
  lemma IsolatedSince(run: seq<System>, table: nat, since: nat, p: nat, v: uint32)
    requires IsRun(run, table) && since < |run| && v < TABLES_VIRT && !OnWindowPage(v)
    requires Private(run[since], p, DirIndex(v))
    requires forall i :: since <= i < |run| - 1 ==> AnyStepButBy(run[i], p, run[i + 1])
    ensures p < PAGES && Walk(run[|run| - 1].m.ram, p, v) == Walk(run[since].m.ram, p, v)
  {
    RunSound(run[..since + 1], table);
    var rest := run[since..];
    forall i | 0 <= i < |rest| - 1
      ensures AnyStepButBy(rest[i], p, rest[i + 1])
    {
      assert AnyStepButBy(run[since + i], p, run[since + i + 1]);
    }
    RunIsolates(rest, p, v);
  }
}

/** Runs of paging_map in one directory: what each directory has at each address when they are over. */
module MapRuns {
  import opened MachineTypes
  import opened Palloc
  import opened PageTables
  import opened Paging
  import opened Isolation
  import opened Processes

  datatype Mapping = Mapping(virt: uint32, phys: uint32, flags: uint32)

  /** The system once the allocator has handed out some frames. */
  function HandedOut(s: System, frames: set<nat>): System {
    s.(m := s.m.(free := s.m.free - frames))
  }

  /** A page is mapped, in the active directory, after frames may have been handed out for it. */
  ghost predicate Maps(s: System, p: Mapping, s': System) {
    exists frames: set<nat>, spare: nat :: MapStep(HandedOut(s, frames), p.virt, p.phys, p.flags, spare, s')
  }

  ghost predicate MapRun(run: seq<System>, maps: seq<Mapping>) {
    |run| == |maps| + 1 && forall k {:trigger maps[k]} :: 0 <= k < |maps| ==> Maps(run[k], maps[k], run[k + 1])
  }

  /** The state a run ends in. */
  function Last(run: seq<System>): System
    requires run != []
  {
    run[|run| - 1]
  }

  lemma OneLess(run: seq<System>, maps: seq<Mapping>)
    requires MapRun(run, maps) && maps != []
    ensures var n := |maps| - 1;
            && MapRun(run[..n + 1], maps[..n]) && Maps(Last(run[..n + 1]), maps[n], Last(run))
            && run[..n + 1][0] == run[0] && maps == maps[..n] + [maps[n]]
  {
    var n := |maps| - 1;
    assert Maps(run[n], maps[n], run[n + 1]);
    forall k {:trigger maps[..n][k]} | 0 <= k < n
      ensures Maps(run[..n + 1][k], maps[..n][k], run[..n + 1][k + 1])
    {
      assert Maps(run[k], maps[k], run[k + 1]);
    }
  }

  /** Mapping is sound, and changes no more than memory. */
  ghost predicate SoundAfter(s: System, s': System) {
    Sound(s') && s'.cr3 == s.cr3 && s'.kernel == s.kernel && s'.shared == s.shared && s'.m.dirs == s.m.dirs
  }

  lemma HandedOutSound(s: System, frames: set<nat>)
    requires Sound(s)
    ensures SoundAfter(s, HandedOut(s, frames))
  {
    OtherFramesSound(s, HandedOut(s, frames));
  }

  lemma MapsSound(s: System, p: Mapping, s': System)
    requires Sound(s) && Maps(s, p, s')
    ensures SoundAfter(s, s') && p.virt < TABLES_VIRT
  {
    var frames: set<nat>, spare: nat :| MapStep(HandedOut(s, frames), p.virt, p.phys, p.flags, spare, s');
    HandedOutSound(s, frames);
    MapSound(HandedOut(s, frames), p.virt, p.phys, p.flags, spare, s');
  }

  lemma {:induction false} MapRunSound(run: seq<System>, maps: seq<Mapping>)
    requires MapRun(run, maps) && Sound(run[0])
    ensures SoundAfter(run[0], Last(run))
    decreases |maps|
  {
    if maps != [] {
      var n := |maps| - 1;
      OneLess(run, maps);
      MapRunSound(run[..n + 1], maps[..n]);
      MapsSound(Last(run[..n + 1]), maps[n], Last(run));
    }
  }

  /** Mapping frees no frame. */
  lemma {:induction false} MapRunFree(run: seq<System>, maps: seq<Mapping>)
    requires MapRun(run, maps)
    ensures Last(run).m.free <= run[0].m.free
    decreases |maps|
  {
    if maps != [] {
      var n := |maps| - 1;
      OneLess(run, maps);
      MapRunFree(run[..n + 1], maps[..n]);
    }
  }

  /** Mapping p in directory dir changes what d has at v, whether now or after other mappings there. */
  predicate Hits(m: Memory, dir: nat, p: Mapping, d: nat, v: uint32)
    requires dir < PAGES && d < PAGES
  {
    SameEntry(m, dir, p.virt, d, v) || (d == dir && v / PAGE_SIZE == p.virt / PAGE_SIZE)
  }

  /** The last of some mappings that changes what d has at v, or -1. */
  function LastHit(m: Memory, dir: nat, maps: seq<Mapping>, d: nat, v: uint32): (k: int)
    requires dir < PAGES && d < PAGES
    ensures -1 <= k < |maps| && (k >= 0 ==> Hits(m, dir, maps[k], d, v))
    ensures forall j :: k < j < |maps| ==> !Hits(m, dir, maps[j], d, v)
  {
    var n := |maps| - 1;
    if maps == [] || Hits(m, dir, maps[n], d, v) then n else LastHit(m, dir, maps[..n], d, v)
  }

  /** A mapping changes nobody's hits: tables that were there stay, and a new one is reached by its own slot alone. */
  lemma HitsStay(m: Memory, dir: nat, p: Mapping, spare: nat, q: Mapping, d: nat, v: uint32)
    requires CanMap(m, dir, p.virt, spare) && d in m.dirs && v < TABLES_VIRT && q.virt < TABLES_VIRT
    ensures var m' := MapPage(m, dir, p.virt, p.phys, p.flags, spare);
            Hits(m', dir, q, d, v) == Hits(m, dir, q, d, v)
  {
    if HasTable(m, dir, q.virt) {
      SameEntryStays(m, dir, p.virt, p.phys, p.flags, spare, dir, q.virt, d, v);
    } else {
      SamePage(v, q.virt);
      assert PointsAtTables(m.ram, dir, m.tables) && PointsAtTables(m.ram, d, m.tables);
      MapSlots(m, dir, p.virt, p.phys, p.flags, spare, dir, DirIndex(q.virt));
      MapSlots(m, dir, p.virt, p.phys, p.flags, spare, d, DirIndex(v));
    }
  }

  /** What a slot that may have got its table meanwhile lets through is what it would have let through at first. */
  predicate SlotKept(before: uint32, now: uint32) {
    if Present(before) then now == before else Present(now) ==> Writable(now) && User(now)
  }

  lemma EnteredKept(before: uint32, now: uint32, phys: uint32, flags: uint32)
    requires SlotKept(before, now)
    ensures Entered(now, phys, flags) == Entered(before, phys, flags)
  {
  }

  /** One mapping: the addresses it hits get its frame and rights, and the others stay. */
  lemma MapEffect(m: Memory, dir: nat, p: Mapping, spare: nat, d: nat, v: uint32)
    requires CanMap(m, dir, p.virt, spare) && d in m.dirs && v < TABLES_VIRT
    ensures var m' := MapPage(m, dir, p.virt, p.phys, p.flags, spare);
            && Walk(m'.ram, d, v) == (if Hits(m, dir, p, d, v) then Entered(m.ram[d][DirIndex(v)], p.phys, p.flags) else Walk(m.ram, d, v))
            && SlotKept(m.ram[d][DirIndex(v)], m'.ram[d][DirIndex(v)])
            && (d != dir ==> m'.ram[d][DirIndex(v)] == m.ram[d][DirIndex(v)])
  {
    SamePage(v, p.virt);
    HitsStay(m, dir, p, spare, p, d, v);
    MapBelow(m, dir, p.virt, p.phys, p.flags, spare, d, v);
    MapSlots(m, dir, p.virt, p.phys, p.flags, spare, d, DirIndex(v));
    HitIsShared(m, dir, p, spare, d, v);
  }

  /** Once p is mapped, what it hits is what shares its entry. */
  lemma HitIsShared(m: Memory, dir: nat, p: Mapping, spare: nat, d: nat, v: uint32)
    requires CanMap(m, dir, p.virt, spare) && d in m.dirs && v < TABLES_VIRT
    ensures var m' := MapPage(m, dir, p.virt, p.phys, p.flags, spare);
            Hits(m', dir, p, d, v) == SameEntry(m', dir, p.virt, d, v)
  {
    SamePage(v, p.virt);
    assert PointsAtTables(m.ram, dir, m.tables);
  }

  /** In state s each address has what the last of the mappings done since m that hits it gives. */
  ghost predicate Shown(m: Memory, dir: nat, s: System, done: seq<Mapping>, d: nat, v: uint32)
    requires dir < PAGES && d < PAGES
  {
    var j := LastHit(m, dir, done, d, v);
    && Walk(s.m.ram, d, v) == (if j < 0 then Walk(m.ram, d, v) else Entered(m.ram[d][DirIndex(v)], done[j].phys, done[j].flags))
    && SlotKept(m.ram[d][DirIndex(v)], s.m.ram[d][DirIndex(v)])
    && (d != dir ==> s.m.ram[d][DirIndex(v)] == m.ram[d][DirIndex(v)])
  }

  /** Hits do not depend on when they are looked at. */
  lemma {:induction false} HitsKept(run: seq<System>, maps: seq<Mapping>, q: Mapping, d: nat, v: uint32)
    requires MapRun(run, maps) && Sound(run[0]) && d in run[0].m.dirs && v < TABLES_VIRT && q.virt < TABLES_VIRT
    ensures SoundAfter(run[0], Last(run)) && Hits(Last(run).m, run[0].cr3, q, d, v) == Hits(run[0].m, run[0].cr3, q, d, v)
    decreases |maps|
  {
    MapRunSound(run, maps);
    if maps != [] {
      var n := |maps| - 1;
      OneLess(run, maps);
      HitsKept(run[..n + 1], maps[..n], q, d, v);
      var s, s' := Last(run[..n + 1]), Last(run);
      var frames: set<nat>, spare: nat :| MapStep(HandedOut(s, frames), maps[n].virt, maps[n].phys, maps[n].flags, spare, s');
      HandedOutSound(s, frames);
      HitsStay(HandedOut(s, frames).m, s.cr3, maps[n], spare, q, d, v);
    }
  }

  lemma OneMoreShown(m: Memory, s: System, p: Mapping, s': System, done: seq<Mapping>, done': seq<Mapping>, d: nat, v: uint32)
    requires Sound(s) && Maps(s, p, s') && d in s.m.dirs && v < TABLES_VIRT && done' == done + [p]
    requires Shown(m, s.cr3, s, done, d, v) && Hits(s.m, s.cr3, p, d, v) == Hits(m, s.cr3, p, d, v)
    ensures Shown(m, s.cr3, s', done', d, v)
  {
    var frames: set<nat>, spare: nat :| MapStep(HandedOut(s, frames), p.virt, p.phys, p.flags, spare, s');
    HandedOutSound(s, frames);
    MapEffect(HandedOut(s, frames).m, s.cr3, p, spare, d, v);
    EnteredKept(m.ram[d][DirIndex(v)], s.m.ram[d][DirIndex(v)], p.phys, p.flags);
    assert done'[..|done|] == done;
  }

  /** All mappings of a run are shown at its end, to every directory. */
  lemma {:induction false} RunShown(run: seq<System>, maps: seq<Mapping>, d: nat, v: uint32)
    requires MapRun(run, maps) && Sound(run[0]) && d in run[0].m.dirs && v < TABLES_VIRT
    ensures d < PAGES && Shown(run[0].m, run[0].cr3, Last(run), maps, d, v)
    decreases |maps|
  {
    if maps != [] {
      var n := |maps| - 1;
      OneLess(run, maps);
      RunShown(run[..n + 1], maps[..n], d, v);
      MapRunSound(run[..n + 1], maps[..n]);
      MapsSound(Last(run[..n + 1]), maps[n], Last(run));
      HitsKept(run[..n + 1], maps[..n], maps[n], d, v);
      OneMoreShown(run[0].m, Last(run[..n + 1]), maps[n], Last(run), maps[..n], maps, d, v);
    }
  }

  /** A run in which each page was not translated when it was mapped. */
  ghost predicate Grows(run: seq<System>, pages: seq<Mapping>) {
    MapRun(run, pages) && forall k {:trigger pages[k]} :: 0 <= k < |pages| ==> Missing(run[k], pages[k].virt)
  }

  predicate Missing(s: System, virt: uint32) {
    s.cr3 < PAGES && Walk(s.m.ram, s.cr3, virt).Fault?
  }

  /** Such a run never hits what is translated. */
  lemma {:induction false} GrowthMisses(run: seq<System>, pages: seq<Mapping>, d: nat, v: uint32)
    requires Grows(run, pages) && Sound(run[0]) && d in run[0].m.dirs && v < TABLES_VIRT
    requires Walk(run[0].m.ram, d, v).To?
    ensures LastHit(run[0].m, run[0].cr3, pages, d, v) < 0
    decreases |pages|
  {
    if pages != [] {
      var n := |pages| - 1;
      var before := run[..n + 1];
      GrowthLess(run, pages);
      GrowthMisses(before, pages[..n], d, v);
      RunShown(before, pages[..n], d, v);
      MapRunSound(before, pages[..n]);
      NoHit(Last(before), pages[n], d, v);
      HitsKept(before, pages[..n], pages[n], d, v);
    }
  }

  /** What is not translated shares no entry with what is. */
  lemma NoHit(s: System, p: Mapping, d: nat, v: uint32)
    requires Sound(s) && d in s.m.dirs && Missing(s, p.virt) && Walk(s.m.ram, d, v).To?
    ensures !Hits(s.m, s.cr3, p, d, v)
  {
    SamePage(v, p.virt);
  }

  lemma GrowthLess(run: seq<System>, pages: seq<Mapping>)
    requires Grows(run, pages) && pages != []
    ensures var n := |pages| - 1; Grows(run[..n + 1], pages[..n]) && Missing(Last(run[..n + 1]), pages[n].virt) && pages[n].virt < TABLES_VIRT
  {
    OneLess(run, pages);
    var n := |pages| - 1;
    assert Missing(run[n], pages[n].virt);
    forall k {:trigger pages[..n][k]} | 0 <= k < n
      ensures Missing(run[..n + 1][k], pages[..n][k].virt)
    {
      assert Missing(run[k], pages[k].virt);
    }
  }

  lemma OneEntryKept(s: System, p: Mapping, s': System, e: nat, w: uint32, d: nat, v: uint32)
    requires Sound(s) && Maps(s, p, s') && e in s.m.dirs && d in s.m.dirs && v < TABLES_VIRT && w < TABLES_VIRT && HasTable(s.m, e, w)
    ensures HasTable(s'.m, e, w) && SameEntry(s'.m, e, w, d, v) == SameEntry(s.m, e, w, d, v)
  {
    var frames: set<nat>, spare: nat :| MapStep(HandedOut(s, frames), p.virt, p.phys, p.flags, spare, s');
    HandedOutSound(s, frames);
    SameEntryStays(HandedOut(s, frames).m, s.cr3, p.virt, p.phys, p.flags, spare, e, w, d, v);
    MapSlots(HandedOut(s, frames).m, s.cr3, p.virt, p.phys, p.flags, spare, e, DirIndex(w));
  }

  /** Nor does it change which addresses share an entry, in whatever directory its table is. */
  lemma {:induction false} EntriesKept(run: seq<System>, maps: seq<Mapping>, e: nat, w: uint32, d: nat, v: uint32)
    requires MapRun(run, maps) && Sound(run[0]) && e in run[0].m.dirs && d in run[0].m.dirs && v < TABLES_VIRT && w < TABLES_VIRT
    requires HasTable(run[0].m, e, w)
    ensures e < PAGES && d < PAGES && HasTable(Last(run).m, e, w)
    ensures SameEntry(Last(run).m, e, w, d, v) == SameEntry(run[0].m, e, w, d, v)
    decreases |maps|
  {
    if maps != [] {
      var n := |maps| - 1;
      OneLess(run, maps);
      EntriesKept(run[..n + 1], maps[..n], e, w, d, v);
      MapRunSound(run[..n + 1], maps[..n]);
      OneEntryKept(Last(run[..n + 1]), maps[n], Last(run), e, w, d, v);
    }
  }
}

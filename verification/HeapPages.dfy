/** The paging side of kbrk in kernel/memory.c: the heap's pages become translated, and nobody loses a page. */
module HeapPages {
  import opened MachineTypes
  import opened Palloc
  import opened PageTables
  import opened Paging
  import opened Isolation
  import opened MapRuns

  /** Whatever was translated in some directory below the self-map is translated as it was. */
  ghost predicate OnlyAdds(m: Memory, m': Memory) {
    && Tidy(m) && m'.dirs == m.dirs
    && forall d: nat, v: uint32 {:trigger Walk(m'.ram, d, v)} ::
         d in m.dirs && d < PAGES && v < TABLES_VIRT && Walk(m.ram, d, v).To? ==> Walk(m'.ram, d, v) == Walk(m.ram, d, v)
  }

  /** Mapping an address that was not translated takes no translation away, in any directory. */
  lemma MapOnlyAdds(m: Memory, dir: nat, virt: uint32, phys: uint32, flags: uint32, spare: nat)
    requires CanMap(m, dir, virt, spare) && Walk(m.ram, dir, virt).Fault?
    ensures OnlyAdds(m, MapPage(m, dir, virt, phys, flags, spare))
  {
    var m' := MapPage(m, dir, virt, phys, flags, spare);
    forall d: nat, v: uint32 | d in m.dirs && d < PAGES && v < TABLES_VIRT && Walk(m.ram, d, v).To?
      ensures Walk(m'.ram, d, v) == Walk(m.ram, d, v)
    {
      MapBelow(m, dir, virt, phys, flags, spare, d, v);
      if SameEntry(m', dir, virt, d, v) {
        if SameEntry(m, dir, virt, d, v) {
          assert false;
        }
        NewlyShared(m, dir, virt, phys, flags, spare, d, v);
        assert false;
      }
    }
  }

  /**
   * kbrk: every page that the frontier passes is translated, and a page that was translated is left
   * alone. One that was not gets a frame that was free, for the kernel alone, to be written as far as
   * its slot lets; no two get the same frame, unless they have the same entry. Beside these frames only
   * those of new page tables are used up.
   */
  method Kbrk(machine: Machine, heap: uint32, pages: uint32) returns (res: uint32, heap': uint32)
    requires machine.Valid() && heap + pages * PAGE_SIZE <= TABLES_VIRT
    requires |machine.frames.Frames()| >= 2 * pages
    modifies machine`ram, machine`tables, machine.frames, machine.frames.memoryMap
    ensures machine.Valid() && machine.dirs == old(machine.dirs)
    ensures res == heap && heap' == heap + pages * PAGE_SIZE
    ensures OnlyAdds(old(machine.State()), machine.State())
    ensures forall k: nat {:trigger PageAt(heap, k)} :: k < pages ==>
              var v := PageAt(heap, k);
              var was, now, pde := Walk(old(machine.ram), machine.cr3, v), Walk(machine.ram, machine.cr3, v), old(machine.ram)[machine.cr3][DirIndex(v)];
              && now.To? && (was.To? ==> now == was)
              && (was.Fault? ==> now.frame in old(machine.frames.Frames()) && now.frame !in machine.frames.Frames()
                                 && now.writable == (Present(pde) ==> Writable(pde)) && !now.user)
    ensures forall j: nat, k: nat {:trigger PageAt(heap, j), PageAt(heap, k)} :: j < k < pages ==>
              var v, w := PageAt(heap, j), PageAt(heap, k);
              Walk(old(machine.ram), machine.cr3, v).Fault? && Walk(old(machine.ram), machine.cr3, w).Fault? ==>
                (Walk(machine.ram, machine.cr3, v).frame == Walk(machine.ram, machine.cr3, w).frame
                 <==> SameEntry(old(machine.State()), machine.cr3, v, machine.cr3, w))
    ensures forall f :: f in old(machine.frames.Frames()) && f !in machine.frames.Frames() && f !in machine.tables ==>
              exists k: nat {:trigger PageAt(heap, k)} :: k < pages && Walk(old(machine.ram), machine.cr3, PageAt(heap, k)).Fault?
                                                          && Walk(machine.ram, machine.cr3, PageAt(heap, k)).frame == f
    ensures (forall k: nat {:trigger PageAt(heap, k)} :: k < pages ==> Walk(old(machine.ram), machine.cr3, PageAt(heap, k)).To?) ==>
              machine.State() == old(machine.State())
  {
    ghost var m0, d := machine.State(), machine.cr3;
    ghost var run, turns;
    res, heap', run, turns := BackPages(machine, heap, pages);
    ghost var given := RunBacked(run, turns, d, heap, pages);
    AllBacked(m0, run[pages], d, heap, pages, given);
  }

  /** Turns of the loop of kbrk, one for each page. */
  ghost predicate BackRun(run: seq<Memory>, turns: seq<(nat, nat)>, d: nat, heap: uint32)
    requires d < PAGES
  {
    |run| == |turns| + 1
    && forall k {:trigger turns[k]} :: 0 <= k < |turns| ==> Turn(run[k], d, PageAt(heap, k), turns[k].0, turns[k].1, run[k + 1])
  }

  ghost predicate Turn(m: Memory, d: nat, page: uint32, frame: nat, spare: nat, m': Memory)
    requires d < PAGES
  {
    Backs(m, d, page, frame, spare, m') && (Walk(m.ram, d, page).Fault? ==> frame in m.free)
  }

  /** The loop of kbrk. */
  method BackPages(machine: Machine, heap: uint32, pages: uint32)
    returns (res: uint32, heap': uint32, ghost run: seq<Memory>, ghost turns: seq<(nat, nat)>)
    requires machine.Valid() && heap + pages * PAGE_SIZE <= TABLES_VIRT
    requires |machine.frames.Frames()| >= 2 * pages
    modifies machine`ram, machine`tables, machine.frames, machine.frames.memoryMap
    ensures machine.Valid() && res == heap && heap' == heap + pages * PAGE_SIZE
    ensures BackRun(run, turns, machine.cr3, heap) && |turns| == pages
    ensures run[0] == old(machine.State()) && run[pages] == machine.State()
  {
    res, heap' := heap, heap;
    var i: uint32 := 0;
    run, turns := [machine.State()], [];
    while i < pages
      invariant i <= pages && heap' == heap + i * PAGE_SIZE && machine.Valid()
      invariant |machine.frames.Frames()| >= 2 * (pages - i)
      invariant BackRun(run, turns, machine.cr3, heap) && |turns| == i
      invariant run[0] == old(machine.State()) && run[i] == machine.State()
    {
      assert heap' == PageAt(heap, i);
      ghost var frame, spare := Back(machine, heap');
      run, turns := OneMoreTurn(run, turns, machine.cr3, heap, i, frame, spare, machine.State());
      heap' := heap' + PAGE_SIZE;
      i := i + 1;
    }
  }

  lemma OneMoreTurn(run: seq<Memory>, turns: seq<(nat, nat)>, d: nat, heap: uint32, i: nat, frame: nat, spare: nat, m': Memory)
    returns (run': seq<Memory>, turns': seq<(nat, nat)>)
    requires d < PAGES && BackRun(run, turns, d, heap) && |turns| == i && Turn(run[i], d, PageAt(heap, i), frame, spare, m')
    ensures BackRun(run', turns', d, heap) && |turns'| == i + 1 && run'[0] == run[0] && run'[i + 1] == m'
  {
    run', turns' := run + [m'], turns + [(frame, spare)];
    forall k {:trigger turns'[k]} | 0 <= k <= i
      ensures Turn(run'[k], d, PageAt(heap, k), turns'[k].0, turns'[k].1, run'[k + 1])
    {
      if k < i { assert Turn(run[k], d, PageAt(heap, k), turns[k].0, turns[k].1, run[k + 1]); }
    }
  }

  /** What such a run does to each page. */
  lemma {:induction false} RunBacked(run: seq<Memory>, turns: seq<(nat, nat)>, d: nat, heap: uint32, n: nat) returns (given: map<nat, nat>)
    requires d < PAGES && BackRun(run, turns, d, heap) && n <= |turns| && heap + n * PAGE_SIZE <= TABLES_VIRT
    requires Tidy(run[0]) && d in run[0].dirs
    ensures Backing(run[0], run[n], d, heap, n, given) && Tidy(run[n]) && run[n].free <= run[0].free
    decreases n
  {
    if n == 0 {
      given := map[];
      NoneBacked(run[0], d, heap);
    } else {
      var k := n - 1;
      given := RunBacked(run, turns, d, heap, k);
      var m, m', frame, spare := run[k], run[n], turns[k].0, turns[k].1;
      assert Turn(m, d, PageAt(heap, k), frame, spare, m') by { assert Turn(run[k], d, PageAt(heap, k), turns[k].0, turns[k].1, run[k + 1]); }
      given := OneMoreBacked(run[0], m, d, heap, k, n, given, frame, spare, m');
    }
  }

  lemma NoneBacked(m: Memory, d: nat, heap: uint32)
    requires Tidy(m) && d in m.dirs && heap <= TABLES_VIRT
    ensures Backing(m, m, d, heap, 0, map[])
  {
  }

  /** What that means for each page, for two pages, and for the frames. */
  lemma AllBacked(m0: Memory, m: Memory, d: nat, heap: uint32, n: nat, given: map<nat, nat>)
    requires Backing(m0, m, d, heap, n, given)
    ensures forall k: nat {:trigger PageAt(heap, k)} :: k < n ==>
              var v := PageAt(heap, k);
              var was, now, pde := Walk(m0.ram, d, v), Walk(m.ram, d, v), m0.ram[d][DirIndex(v)];
              && now.To? && (was.To? ==> now == was)
              && (was.Fault? ==> now.frame in m0.free && now.frame !in m.free && now.writable == (Present(pde) ==> Writable(pde)) && !now.user)
    ensures forall j: nat, k: nat {:trigger PageAt(heap, j), PageAt(heap, k)} :: j < k < n ==>
              var v, w := PageAt(heap, j), PageAt(heap, k);
              Walk(m0.ram, d, v).Fault? && Walk(m0.ram, d, w).Fault? ==>
                (Walk(m.ram, d, v).frame == Walk(m.ram, d, w).frame <==> SameEntry(m0, d, v, d, w))
    ensures forall f :: f in m0.free && f !in m.free && f !in m.tables ==>
              exists k: nat {:trigger PageAt(heap, k)} :: k < n && Walk(m0.ram, d, PageAt(heap, k)).Fault? && Walk(m.ram, d, PageAt(heap, k)).frame == f
    ensures (forall k: nat {:trigger PageAt(heap, k)} :: k < n ==> Walk(m0.ram, d, PageAt(heap, k)).To?) ==> m == m0
  {
    forall k: nat {:trigger PageAt(heap, k)} | k < n
      ensures var v := PageAt(heap, k);
              var was, now, pde := Walk(m0.ram, d, v), Walk(m.ram, d, v), m0.ram[d][DirIndex(v)];
              && now.To? && (was.To? ==> now == was)
              && (was.Fault? ==> now.frame in m0.free && now.frame !in m.free && now.writable == (Present(pde) ==> Writable(pde)) && !now.user)
    {
      PageBacked(m0, m, d, heap, n, given, k);
    }
    forall j: nat, k: nat {:trigger PageAt(heap, j), PageAt(heap, k)} |
      j < k < n && Walk(m0.ram, d, PageAt(heap, j)).Fault? && Walk(m0.ram, d, PageAt(heap, k)).Fault?
      ensures Walk(m.ram, d, PageAt(heap, j)).frame == Walk(m.ram, d, PageAt(heap, k)).frame
              <==> SameEntry(m0, d, PageAt(heap, j), d, PageAt(heap, k))
    {
      PagesShare(m0, m, d, heap, n, given, j, k);
    }
    FramesUsed(m0, m, d, heap, n, given);
  }

  function PageAt(heap: uint32, k: nat): uint32 {
    Wrap(heap + k * PAGE_SIZE)
  }

  lemma AddsOnce(m: Memory, m': Memory, m'': Memory)
    requires OnlyAdds(m, m') && OnlyAdds(m', m'')
    ensures OnlyAdds(m, m'')
  {
  }

  /** A page is translated already, or is mapped to a frame that was free. */
  ghost predicate Backs(m: Memory, dir: nat, page: uint32, frame: nat, spare: nat, m': Memory)
    requires dir < PAGES
  {
    if Walk(m.ram, dir, page).To? then m' == m
    else
      && frame < PAGES && MayMap(m.(free := m.free - {frame}), dir, page, spare)
      && m' == MapPage(m.(free := m.free - {frame}), dir, page, frame * PAGE_SIZE, PAGE_PRESENT + PAGE_WRITABLE, spare)
  }

  /** One turn of the loop of kbrk. */
  method Back(machine: Machine, page: uint32) returns (ghost frame: nat, ghost spare: nat)
    requires machine.Valid() && page < TABLES_VIRT && |machine.frames.Frames()| >= 2
    modifies machine`ram, machine`tables, machine.frames, machine.frames.memoryMap
    ensures machine.Valid() && |machine.frames.Frames()| >= |old(machine.frames.Frames())| - 2
    ensures Backs(old(machine.State()), machine.cr3, page, frame, spare, machine.State())
    ensures Walk(old(machine.ram), machine.cr3, page).Fault? ==> frame in old(machine.frames.Frames())
  {
    frame, spare := 0, 0;
    var mapped := machine.PagingIsMapped(page);
    if mapped == 0 {
      ghost var m := machine.State();
      var phys := machine.frames.MemPhysAlloc();
      frame := phys / PAGE_SIZE;
      ghost var m0 := machine.State();
      assert m0 == m.(free := m.free - {frame}) && |m0.free| == |m.free| - 1;
      spare := machine.PagingMap(page, phys, PAGE_PRESENT + PAGE_WRITABLE);
      assert |machine.State().free| >= |m0.free| - 1;
    }
  }

  lemma BacksAdds(m: Memory, dir: nat, page: uint32, frame: nat, spare: nat, m': Memory)
    requires Tidy(m) && dir in m.dirs && dir < PAGES && Backs(m, dir, page, frame, spare, m')
    ensures Walk(m'.ram, dir, page).To? && OnlyAdds(m, m') && Tidy(m')
  {
    if Walk(m.ram, dir, page).Fault? {
      var m0, flags := m.(free := m.free - {frame}), PAGE_PRESENT + PAGE_WRITABLE;
      MapTranslates(m0, dir, page, frame * PAGE_SIZE, flags, spare);
      MapOnlyAdds(m0, dir, page, frame * PAGE_SIZE, flags, spare);
      MapTidy(m0, dir, page, frame * PAGE_SIZE, flags, spare);
    }
  }

  /** What a page translates to that was given a frame. */
  function Granted(m0: Memory, d: nat, v: uint32, frame: nat): Translation
    requires d < PAGES && frame < PAGES
  {
    To(frame, Present(m0.ram[d][DirIndex(v)]) ==> Writable(m0.ram[d][DirIndex(v)]), false)
  }

  /** Every address that is translated now and was not has the frame given to some page that it meets. */
  ghost predicate Explained(m0: Memory, m: Memory, d: nat, heap: uint32, given: map<nat, nat>)
    requires d < PAGES && forall k :: k in given ==> given[k] < PAGES
  {
    forall w: uint32 :: w < TABLES_VIRT && Walk(m0.ram, d, w).Fault? && Walk(m.ram, d, w).To? ==>
      exists k :: k in given && Meets(m0, d, PageAt(heap, k), w) && Walk(m.ram, d, w) == Granted(m0, d, w, given[k])
  }

  /** The frames given were free, and nothing else was used up but tables. */
  ghost predicate Accounted(m0: Memory, m: Memory, given: map<nat, nat>) {
    && (forall k :: k in given ==> given[k] < PAGES && given[k] in m0.free && given[k] !in m.free)
    && (forall j, k :: j in given && k in given && j != k ==> given[j] != given[k])
    && (forall f :: f in m0.free && f !in m.free ==> f in m.tables || exists k :: k in given && given[k] == f)
    && (given == map[] ==> m == m0)
  }

  /** Pages meet as they did, and slots let through what they did. */
  ghost predicate MeetAlike(m0: Memory, m: Memory, d: nat)
    requires d < PAGES
  {
    && (forall u: uint32, w: uint32 {:trigger Meets(m, d, u, w)} :: u < TABLES_VIRT && w < TABLES_VIRT ==> Meets(m, d, u, w) == Meets(m0, d, u, w))
    && (forall w: uint32 {:trigger DirIndex(w)} :: w < TABLES_VIRT ==> SlotKept(m0.ram[d][DirIndex(w)], m.ram[d][DirIndex(w)]))
  }

  /** The pages that were given frames were not translated and meet no other such page. */
  ghost predicate GivenApart(m0: Memory, d: nat, heap: uint32, n: nat, given: map<nat, nat>)
    requires d < PAGES
  {
    && (forall k :: k in given ==> k < n && Walk(m0.ram, d, PageAt(heap, k)).Fault?)
    && (forall j, k :: j in given && k in given && j != k ==> !Meets(m0, d, PageAt(heap, j), PageAt(heap, k)))
  }

  ghost predicate AllTranslated(m: Memory, d: nat, heap: uint32, n: nat)
    requires d < PAGES
  {
    forall k: nat {:trigger PageAt(heap, k)} :: k < n ==> Walk(m.ram, d, PageAt(heap, k)).To?
  }

  /** After n pages; `given` has the frames of those that were given one. */
  ghost predicate Backing(m0: Memory, m: Memory, d: nat, heap: uint32, n: nat, given: map<nat, nat>) {
    && Tidy(m0) && OnlyAdds(m0, m) && d in m0.dirs && d < PAGES && heap + n * PAGE_SIZE <= TABLES_VIRT
    && Accounted(m0, m, given) && GivenApart(m0, d, heap, n, given) && AllTranslated(m, d, heap, n)
    && MeetAlike(m0, m, d) && Explained(m0, m, d, heap, given)
  }

  lemma PagesDiffer(heap: uint32, j: nat, k: nat)
    requires j < k && heap + (k + 1) * PAGE_SIZE <= TABLES_VIRT
    ensures PageAt(heap, j) < TABLES_VIRT && PageAt(heap, k) < TABLES_VIRT && PageAt(heap, j) / PAGE_SIZE != PageAt(heap, k) / PAGE_SIZE
  {
  }

  lemma MeetsTranslated(m: Memory, d: nat, u: uint32, w: uint32)
    requires d < PAGES
    ensures Meets(m, d, u, w) ==> (Walk(m.ram, d, u).To? <==> Walk(m.ram, d, w).To?)
  {
    SamePage(u, w);
  }

  /** Mapping a page that was missing, to a frame that was free. */
  ghost predicate Placed(m: Memory, d: nat, page: uint32, frame: nat, spare: nat, m': Memory)
    requires d < PAGES
  {
    Walk(m.ram, d, page).Fault? && frame in m.free && Backs(m, d, page, frame, spare, m')
  }

  lemma AccountedMore(m0: Memory, m: Memory, d: nat, given: map<nat, nat>, n: nat, page: uint32, frame: nat, spare: nat, m': Memory)
    requires Tidy(m) && d < PAGES && Accounted(m0, m, given) && n !in given && Placed(m, d, page, frame, spare, m') && m.free <= m0.free
    requires m.tables <= m'.tables
    ensures Accounted(m0, m', given[n := frame])
  {
    var given' := given[n := frame];
    forall f | f in m0.free && f !in m'.free
      ensures f in m'.tables || exists k :: k in given' && given'[k] == f
    {
      if f == frame {
        assert n in given' && given'[n] == f;
      } else if f !in m.free && f !in m.tables {
        var k :| k in given && given[k] == f;
        assert k in given' && given'[k] == f;
      }
    }
  }

  lemma ApartMore(m0: Memory, m: Memory, d: nat, heap: uint32, n: nat, given: map<nat, nat>, frame: nat)
    requires d < PAGES && GivenApart(m0, d, heap, n, given) && AllTranslated(m, d, heap, n) && MeetAlike(m0, m, d)
    requires heap + (n + 1) * PAGE_SIZE <= TABLES_VIRT && Walk(m.ram, d, PageAt(heap, n)).Fault? && Walk(m0.ram, d, PageAt(heap, n)).Fault?
    ensures GivenApart(m0, d, heap, n + 1, given[n := frame])
  {
    var v := PageAt(heap, n);
    assert v < TABLES_VIRT;
    forall k | k in given
      ensures !Meets(m0, d, PageAt(heap, k), v) && !Meets(m0, d, v, PageAt(heap, k))
    {
      PagesDiffer(heap, k, n);
      assert Walk(m.ram, d, PageAt(heap, k)).To?;
      assert Meets(m, d, PageAt(heap, k), v) == Meets(m0, d, PageAt(heap, k), v);
      MeetsTranslated(m, d, PageAt(heap, k), v);
    }
  }

  lemma AlikeMore(m0: Memory, m: Memory, d: nat, page: uint32, frame: nat, spare: nat, m': Memory)
    requires Tidy(m) && d in m.dirs && d < PAGES && MeetAlike(m0, m, d) && Placed(m, d, page, frame, spare, m')
    ensures MeetAlike(m0, m', d)
  {
    var p, f := Mapping(page, frame * PAGE_SIZE, PAGE_PRESENT + PAGE_WRITABLE), m.(free := m.free - {frame});
    forall u: uint32, w: uint32 {:trigger Meets(m', d, u, w)} | u < TABLES_VIRT && w < TABLES_VIRT
      ensures Meets(m', d, u, w) == Meets(m0, d, u, w)
    {
      HitsStay(f, d, p, spare, Mapping(u, 0, 0), d, w);
      assert Meets(m, d, u, w) == Meets(m0, d, u, w);
    }
    forall w: uint32 {:trigger DirIndex(w)} | w < TABLES_VIRT
      ensures SlotKept(m0.ram[d][DirIndex(w)], m'.ram[d][DirIndex(w)])
    {
      MapEffect(f, d, p, spare, d, w);
    }
  }

  lemma ExplainedMore(m0: Memory, m: Memory, d: nat, heap: uint32, n: nat, given: map<nat, nat>, frame: nat, spare: nat, m': Memory)
    requires Tidy(m) && d in m.dirs && d < PAGES && n !in given && frame < PAGES && (forall k :: k in given ==> given[k] < PAGES)
    requires MeetAlike(m0, m, d) && Explained(m0, m, d, heap, given) && Placed(m, d, PageAt(heap, n), frame, spare, m')
    ensures Explained(m0, m', d, heap, given[n := frame])
  {
    var v, given' := PageAt(heap, n), given[n := frame];
    var p, f := Mapping(v, frame * PAGE_SIZE, PAGE_PRESENT + PAGE_WRITABLE), m.(free := m.free - {frame});
    forall w: uint32 | w < TABLES_VIRT && Walk(m0.ram, d, w).Fault? && Walk(m'.ram, d, w).To?
      ensures exists k :: k in given' && Meets(m0, d, PageAt(heap, k), w) && Walk(m'.ram, d, w) == Granted(m0, d, w, given'[k])
    {
      MapEffect(f, d, p, spare, d, w);
      assert SlotKept(m0.ram[d][DirIndex(w)], m.ram[d][DirIndex(w)]);
      if Meets(m, d, v, w) {
        assert n in given' && Meets(m0, d, PageAt(heap, n), w) && Walk(m'.ram, d, w) == Granted(m0, d, w, given'[n]);
      } else {
        var k :| k in given && Meets(m0, d, PageAt(heap, k), w) && Walk(m.ram, d, w) == Granted(m0, d, w, given[k]);
        assert k in given' && given'[k] == given[k];
      }
    }
  }

  lemma TranslatedMore(m: Memory, m': Memory, d: nat, heap: uint32, n: nat)
    requires OnlyAdds(m, m') && d in m.dirs && d < PAGES && heap + (n + 1) * PAGE_SIZE <= TABLES_VIRT
    requires AllTranslated(m, d, heap, n) && Walk(m'.ram, d, PageAt(heap, n)).To?
    ensures AllTranslated(m', d, heap, n + 1)
  {
    forall k: nat {:trigger PageAt(heap, k)} | k < n
      ensures Walk(m'.ram, d, PageAt(heap, k)).To?
    {
      assert PageAt(heap, k) < TABLES_VIRT && Walk(m.ram, d, PageAt(heap, k)).To?;
    }
  }

  /** One page more. */
  lemma OneMoreBacked(m0: Memory, m: Memory, d: nat, heap: uint32, n: nat, n': nat, given: map<nat, nat>, frame: nat, spare: nat, m': Memory)
    returns (given': map<nat, nat>)
    requires Backing(m0, m, d, heap, n, given) && Tidy(m) && n' == n + 1 && heap + n' * PAGE_SIZE <= TABLES_VIRT && m.free <= m0.free
    requires Turn(m, d, PageAt(heap, n), frame, spare, m')
    ensures Backing(m0, m', d, heap, n', given') && Tidy(m') && m'.free <= m0.free
  {
    var v := PageAt(heap, n);
    BacksAdds(m, d, v, frame, spare, m');
    AddsOnce(m0, m, m');
    TranslatedMore(m, m', d, heap, n);
    if Walk(m.ram, d, v).To? {
      given' := given;
    } else {
      given' := given[n := frame];
      assert Placed(m, d, v, frame, spare, m');
      assert v < TABLES_VIRT && Walk(m0.ram, d, v).Fault?;
      ApartMore(m0, m, d, heap, n, given, frame);
      AccountedMore(m0, m, d, given, n, v, frame, spare, m');
      AlikeMore(m0, m, d, v, frame, spare, m');
      ExplainedMore(m0, m, d, heap, n, given, frame, spare, m');
    }
  }

  /** The page whose frame page k has: itself, or one that it meets. */
  lemma GivenTo(m0: Memory, m: Memory, d: nat, heap: uint32, n: nat, given: map<nat, nat>, k: nat) returns (a: nat)
    requires d < PAGES && heap + n * PAGE_SIZE <= TABLES_VIRT && k < n
    requires (forall i :: i in given ==> given[i] < PAGES) && Explained(m0, m, d, heap, given)
    requires Walk(m0.ram, d, PageAt(heap, k)).Fault? && Walk(m.ram, d, PageAt(heap, k)).To?
    ensures a in given && Meets(m0, d, PageAt(heap, a), PageAt(heap, k)) && given[a] < PAGES
    ensures Walk(m.ram, d, PageAt(heap, k)) == Granted(m0, d, PageAt(heap, k), given[a])
  {
    var w := PageAt(heap, k);
    assert w < TABLES_VIRT;
    a :| a in given && Meets(m0, d, PageAt(heap, a), w) && Walk(m.ram, d, w) == Granted(m0, d, w, given[a]);
  }

  /** Page k in the end. */
  lemma PageBacked(m0: Memory, m: Memory, d: nat, heap: uint32, n: nat, given: map<nat, nat>, k: nat)
    requires d in m0.dirs && d < PAGES && heap + n * PAGE_SIZE <= TABLES_VIRT && k < n && OnlyAdds(m0, m)
    requires Accounted(m0, m, given) && AllTranslated(m, d, heap, n) && Explained(m0, m, d, heap, given)
    ensures var v := PageAt(heap, k);
            var was, now, pde := Walk(m0.ram, d, v), Walk(m.ram, d, v), m0.ram[d][DirIndex(v)];
            && now.To? && (was.To? ==> now == was)
            && (was.Fault? ==> now.frame in m0.free && now.frame !in m.free && now.writable == (Present(pde) ==> Writable(pde)) && !now.user)
  {
    assert Walk(m.ram, d, PageAt(heap, k)).To?;
    assert Walk(m0.ram, d, PageAt(heap, k)).To? ==> Walk(m.ram, d, PageAt(heap, k)) == Walk(m0.ram, d, PageAt(heap, k)) by {
      assert PageAt(heap, k) < TABLES_VIRT;
    }
    if Walk(m0.ram, d, PageAt(heap, k)).Fault? {
      var a := GivenTo(m0, m, d, heap, n, given, k);
    }
  }

  /** Meeting is mutual, and goes on from page to page. */
  lemma MeetsOn(m: Memory, d: nat, u: uint32, v: uint32, w: uint32)
    requires d < PAGES && Meets(m, d, u, v)
    ensures Meets(m, d, v, u) && (Meets(m, d, v, w) <==> Meets(m, d, u, w))
  {
    SamePage(u, v);
    SamePage(v, w);
    SamePage(u, w);
  }

  /** Two pages get the same frame exactly if they have the same entry. */
  lemma PagesShare(m0: Memory, m: Memory, d: nat, heap: uint32, n: nat, given: map<nat, nat>, j: nat, k: nat)
    requires Backing(m0, m, d, heap, n, given) && j < k < n
    requires Walk(m0.ram, d, PageAt(heap, j)).Fault? && Walk(m0.ram, d, PageAt(heap, k)).Fault?
    ensures Walk(m.ram, d, PageAt(heap, j)).To? && Walk(m.ram, d, PageAt(heap, k)).To?
    ensures Walk(m.ram, d, PageAt(heap, j)).frame == Walk(m.ram, d, PageAt(heap, k)).frame
            <==> SameEntry(m0, d, PageAt(heap, j), d, PageAt(heap, k))
  {
    var a := GivenTo(m0, m, d, heap, n, given, j);
    var b := GivenTo(m0, m, d, heap, n, given, k);
    PagesDiffer(heap, j, k);
    MeetsAcross(m0, d, PageAt(heap, a), PageAt(heap, j), PageAt(heap, b), PageAt(heap, k));
  }

  lemma MeetsAcross(m: Memory, d: nat, a: uint32, v: uint32, b: uint32, w: uint32)
    requires d < PAGES && Meets(m, d, a, v) && Meets(m, d, b, w)
    ensures Meets(m, d, v, w) <==> Meets(m, d, a, b)
  {
    MeetsOn(m, d, a, v, w);
    MeetsOn(m, d, b, w, a);
    if Meets(m, d, a, w) { MeetsOn(m, d, a, w, b); }
    if Meets(m, d, a, b) { MeetsOn(m, d, a, b, w); }
  }

  /** What was used up in the end. */
  lemma FramesUsed(m0: Memory, m: Memory, d: nat, heap: uint32, n: nat, given: map<nat, nat>)
    requires Backing(m0, m, d, heap, n, given)
    ensures forall f :: f in m0.free && f !in m.free && f !in m.tables ==>
              exists k: nat {:trigger PageAt(heap, k)} :: k < n && Walk(m0.ram, d, PageAt(heap, k)).Fault? && Walk(m.ram, d, PageAt(heap, k)) == Granted(m0, d, PageAt(heap, k), f)
    ensures (forall k: nat {:trigger PageAt(heap, k)} :: k < n ==> Walk(m0.ram, d, PageAt(heap, k)).To?) ==> m == m0
  {
    forall f | f in m0.free && f !in m.free && f !in m.tables
      ensures exists k: nat {:trigger PageAt(heap, k)} :: k < n && Walk(m0.ram, d, PageAt(heap, k)).Fault? && Walk(m.ram, d, PageAt(heap, k)) == Granted(m0, d, PageAt(heap, k), f)
    {
      var k :| k in given && given[k] == f;
      var a := GivenTo(m0, m, d, heap, n, given, k);
      assert a == k;
    }
  }
}

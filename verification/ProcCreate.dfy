/** proc_create of kernel/process.c, proved against its run of page table operations. */
module ProcCreate {
  import opened MachineTypes
  import opened Palloc
  import opened PageTables
  import opened Paging
  import opened Isolation
  import opened Processes
  import opened MapRuns
  import opened Creations
  import HeapPages
  import HeapStates
  import Kmalloc
  import KernelHeap

  const MAX_PROCESSES := 0x1_0000

  /** The size of a process's record: the number, four sections, the directory, a name and 32 descriptors. */
  const RECORD_SIZE: uint32 := 376

  datatype Process = Process(record: uint32, pid: nat, text: Section, data: Section, bss: Section, rodata: Section, pdir: uint32)

  datatype Option<T> = None | Some(value: T)

  /** A clone uses up at most three frames. */
  lemma FramesLeft(m: Memory, cr3: nat, olddir: nat, newdir: nat, spares: (nat, nat))
    requires CanClone(m, cr3, olddir, newdir, spares)
    ensures |Cloned(m, cr3, olddir, newdir, spares).free| >= |m.free| - 3
  {
    var o := Opened(m, cr3, olddir, newdir, spares);
    OpenedShows(m, cr3, olddir, newdir, spares);
    var c := Copied(o, olddir, newdir);
    CopiedTidy(o, olddir, newdir);
    assert HasTable(c, cr3, OLDDIR_VIRT) && HasTable(c, cr3, NEWDIR_VIRT);
    TablesStay(c, cr3, OLDDIR_VIRT, 0, 0, 0, NEWDIR_VIRT);
    assert Cloned(m, cr3, olddir, newdir, spares).free == o.free;
  }

  /** What fits in a page takes at most one page. */
  lemma OnePageAtMost(size: nat)
    requires size <= PAGE_SIZE
    ensures size <= HeapStates.MAX_REQUEST && HeapStates.MostPages(HeapStates.LevelOf(size)) == 1
  {
    HeapStates.TopSize();
    var k := HeapStates.LevelOf(size);
    if HeapStates.PAGE_LEVEL < k - 1 { Kmalloc.SizesGrow(HeapStates.PAGE_LEVEL, k - 1); }
  }

  /** The heap page of a record, if it needs one: kbrk maps the frontier. */
  ghost predicate Recorded(s: System, heap: uint32, heap': uint32, frame: nat, spare: nat, s': System)
    requires s.cr3 < PAGES
  {
    if heap' == heap then s' == s
    else HeapPages.Backs(s.m, s.cr3, heap, frame, spare, s'.m) && s' == s.(m := s'.m)
  }

  /** A block for a record, which takes at most one page. */
  method NewBlock(memory: KernelHeap.KernelMemory) returns (record: uint32)
    requires memory.Valid() && memory.CanServe(RECORD_SIZE)
    modifies memory, memory.alloc, memory.alloc.heads, memory.alloc.nodes
    ensures memory.Valid() && record !in old(memory.live) && memory.live == old(memory.live)[record := RECORD_SIZE]
    ensures HeapMoves(old(memory.heap), memory.heap)
  {
    OnePageAtMost(RECORD_SIZE);
    ghost var pages;
    record, pages := memory.Kmalloc(RECORD_SIZE);
  }

  /** The frontier stays or moves by a page. */
  predicate HeapMoves(heap: uint32, heap': uint32) {
    HeapStates.HEAP_BASE <= heap && (heap' == heap || heap' == heap + PAGE_SIZE <= HeapStates.HEAP_LIMIT)
  }

  /** If the frontier moved and its page was not translated, it is mapped to a frame that was free; else nothing is. */
  predicate RecordPage(pages: seq<Mapping>, heap: uint32, heap': uint32, s: System, s': System) {
    && |pages| == (if heap' != heap && Missing(s, heap) then 1 else 0)
    && (pages != [] ==>
          && pages[0].virt == heap && HeapPage(pages[0])
          && pages[0].phys / PAGE_SIZE in s.m.free && pages[0].phys / PAGE_SIZE !in s'.m.free)
  }

  /** The run of page table operations in which a record is allocated. */
  lemma RecordRun(s: System, heap: uint32, heap': uint32, frame: nat, spare: nat, s': System)
    returns (growing: seq<System>, pages: seq<Mapping>)
    requires Sound(s) && s.cr3 < PAGES && Recorded(s, heap, heap', frame, spare, s')
    requires HeapMoves(heap, heap') && (heap' != heap && Missing(s, heap) ==> frame in s.m.free)
    ensures Grows(growing, pages) && growing[0] == s && Last(growing) == s' && RecordPage(pages, heap, heap', s, s')
    ensures heap' != heap ==> Walk(s'.m.ram, s.cr3, heap).To?
  {
    if heap' != heap { HeapPages.BacksAdds(s.m, s.cr3, heap, frame, spare, s'.m); }
    if heap' == heap || Walk(s.m.ram, s.cr3, heap).To? {
      growing, pages := [s], [];
    } else {
      var p := Mapping(heap, frame * PAGE_SIZE, PAGE_PRESENT + PAGE_WRITABLE);
      growing, pages := [s, s'], [p];
      assert MapStep(HandedOut(s, {frame}), p.virt, p.phys, p.flags, spare, s');
      assert Maps(s, p, s') && Missing(s, p.virt);
    }
  }

  /** The least free process number, or 0 when there is none. */
  predicate IsNextPid(processes: seq<Option<Process>>, pid: nat) {
    && pid < |processes|
    && if exists i :: 0 <= i < |processes| && processes[i].None?
       then processes[pid].None? && forall i :: 0 <= i < pid ==> processes[i].Some?
       else pid == 0
  }

  /** A page that is mapped to memory of its own, for which no frame is handed out. */
  lemma MapsAtOnce(s: System, p: Mapping, spare: nat, s': System)
    requires MapStep(s, p.virt, p.phys, p.flags, spare, s')
    ensures Maps(s, p, s')
  {
    assert HandedOut(s, {}) == s;
  }

  lemma FourMaps(s0: System, s1: System, s2: System, s3: System, s4: System, maps: seq<Mapping>) returns (run: seq<System>)
    requires |maps| == 4 && Maps(s0, maps[0], s1) && Maps(s1, maps[1], s2) && Maps(s2, maps[2], s3) && Maps(s3, maps[3], s4)
    ensures MapRun(run, maps) && run[0] == s0 && Last(run) == s4
  {
    run := [s0, s1, s2, s3, s4];
  }

  lemma NewIsDirectory(before: System, newdir: nat, cloned: System, growing: seq<System>, pages: seq<Mapping>)
    requires Sound(before) && exists spares: (nat, nat) :: CloneStep(before, newdir, spares, cloned)
    requires Grows(growing, pages) && growing[0] == cloned
    ensures newdir in Last(growing).m.dirs
  {
    var spares: (nat, nat) :| CloneStep(before, newdir, spares, cloned);
    CloneSound(before, newdir, spares, cloned);
    MapRunSound(growing, pages);
  }

  lemma Assembled(before: System, newdir: nat, cloned: System, growing: seq<System>, pages: seq<Mapping>, heap: uint32, heap': uint32,
                  mapping: seq<System>, sections: seq<Mapping>, after: System) returns (c: Creation)
    requires exists spares: (nat, nat) :: CloneStep(before, newdir, spares, cloned)
    requires Grows(growing, pages) && growing[0] == cloned && RecordPage(pages, heap, heap', cloned, Last(growing))
    requires MapRun(mapping, sections) && mapping[0] == Last(growing).(cr3 := newdir) && after == Last(mapping).(cr3 := before.kernel)
    ensures c == Creation(before, cloned, growing, pages, mapping, sections, after) && Creates(c, newdir)
    ensures RecordPage(pages, heap, heap', cloned, after)
  {
    MapRunFree(mapping, sections);
    c := Creation(before, cloned, growing, pages, mapping, sections, after);
  }

  /** All sections lie below the self-map. */
  predicate AllBelow(text: Section, data: Section, bss: Section, rodata: Section) {
    text.virtAddr < TABLES_VIRT && data.virtAddr < TABLES_VIRT && bss.virtAddr < TABLES_VIRT && rodata.virtAddr < TABLES_VIRT
  }

  class ProcessTable {
    const machine: Machine
    const kpageDir: uint32
    const processes: array<Option<Process>>

    ghost var shared: map<nat, set<nat>>

    ghost function State(): System
      requires machine.frames.Valid()
      reads this`shared, machine, machine.frames, machine.frames.memoryMap
    {
      System(machine.State(), kpageDir / PAGE_SIZE, machine.cr3, shared)
    }

    ghost predicate Valid()
      reads this`shared, machine, machine.frames, machine.frames.memoryMap
    {
      machine.Valid() && Sound(State()) && processes.Length == MAX_PROCESSES
    }

    /** The kernel alone, with the directory it booted with. */
    constructor (machine: Machine)
      requires machine.Valid() && machine.dirs == {machine.cr3}
      requires forall d :: d in machine.dirs ==> AloneAt(machine.State(), d, DirIndex(OLDDIR_VIRT))
                                                 && AloneAt(machine.State(), d, DirIndex(NEWDIR_VIRT))
      ensures Valid() && this.machine == machine && fresh(processes) && shared == map[]
    {
      this.machine, kpageDir := machine, machine.cr3 * PAGE_SIZE;
      processes := new Option<Process>[MAX_PROCESSES](_ => None);
      shared := map[];
    }

    method FindNextPid() returns (pid: nat)
      requires processes.Length == MAX_PROCESSES
      ensures IsNextPid(processes[..], pid) && pid < MAX_PROCESSES
      ensures processes[pid].None? ==> forall i :: 0 <= i < pid ==> processes[i].Some?
      ensures processes[pid].Some? ==> pid == 0 && forall i :: 0 <= i < MAX_PROCESSES ==> processes[i].Some?
    {
      pid := 0;
      while pid < MAX_PROCESSES
        invariant pid <= MAX_PROCESSES && forall i :: 0 <= i < pid ==> processes[i].Some?
      {
        if processes[pid].None? { return; }
        pid := pid + 1;
      }
      pid := 0;
    }

    /** The part of page_dir_clone in proc_create. */
    method CloneDirectory() returns (pdir: uint32, ghost newdir: nat)
      requires Valid() && |machine.frames.Frames()| >= 3
      modifies this`shared, machine`ram, machine`dirs, machine`tables, machine.frames, machine.frames.memoryMap
      ensures Valid() && |machine.frames.Frames()| >= |old(machine.frames.Frames())| - 3
      ensures newdir == pdir / PAGE_SIZE < PAGES && pdir % PAGE_SIZE == 0
      ensures exists spares: (nat, nat) :: CloneStep(old(State()), newdir, spares, State())
    {
      ghost var s := State();
      ghost var spares;
      pdir, spares := machine.PageDirClone(kpageDir);
      newdir := pdir / PAGE_SIZE;
      FramesLeft(s.m, s.cr3, s.kernel, newdir, spares);
      shared := shared[newdir := PresentSlots(machine.ram, newdir)];
      assert CloneStep(s, newdir, spares, State());
      CloneSound(s, newdir, spares, State());
    }

    /** kbrk maps the page that it adds to the heap, when the frontier moved for the record. */
    method AddHeapPage(heap: uint32, heap': uint32) returns (ghost growing: seq<System>, ghost pages: seq<Mapping>)
      requires Valid() && |machine.frames.Frames()| >= 2 && HeapMoves(heap, heap')
      modifies machine`ram, machine`tables, machine.frames, machine.frames.memoryMap
      ensures Valid() && |machine.frames.Frames()| >= |old(machine.frames.Frames())| - 2
      ensures Grows(growing, pages) && growing[0] == old(State()) && Last(growing) == State()
      ensures |pages| == if heap' != heap && Walk(old(machine.ram), machine.cr3, heap).Fault? then 1 else 0
      ensures pages != [] ==>
                && pages[0].virt == heap && HeapPage(pages[0])
                && pages[0].phys / PAGE_SIZE in old(machine.frames.Frames()) && pages[0].phys / PAGE_SIZE !in machine.frames.Frames()
      ensures heap' != heap ==> Walk(machine.ram, machine.cr3, heap).To?
    {
      ghost var s := State();
      ghost var frame, spare := 0, 0;
      if heap' != heap {
        frame, spare := HeapPages.Back(machine, heap);
      }
      growing, pages := RecordRun(s, heap, heap', frame, spare, State());
      MapRunSound(growing, pages);
    }

    /** The four calls of paging_map in proc_create. */
    method MapSections(text: Section, data: Section, bss: Section, rodata: Section) returns (ghost mid: seq<System>)
      requires Valid() && |machine.frames.Frames()| >= 4
      requires AllBelow(text, data, bss, rodata)
      modifies machine`ram, machine`tables, machine.frames, machine.frames.memoryMap
      ensures Valid() && MapRun(mid, SectionMaps(text, data, bss, rodata)) && mid[0] == old(State()) && Last(mid) == State()
    {
      var maps := SectionMaps(text, data, bss, rodata);
      assert maps[0].virt < TABLES_VIRT && maps[1].virt < TABLES_VIRT && maps[2].virt < TABLES_VIRT && maps[3].virt < TABLES_VIRT;
      ghost var s2 := State();
      ghost var s3 := MapTwo(maps[0], maps[1]);
      ghost var s4 := State();
      ghost var s5 := MapTwo(maps[2], maps[3]);
      mid := FourMaps(s2, s3, s4, s5, State(), maps);
    }

    method MapTwo(p: Mapping, q: Mapping) returns (ghost between: System)
      requires Valid() && |machine.frames.Frames()| >= 2 && p.virt < TABLES_VIRT && q.virt < TABLES_VIRT
      modifies machine`ram, machine`tables, machine.frames, machine.frames.memoryMap
      ensures Valid() && |machine.frames.Frames()| >= |old(machine.frames.Frames())| - 2
      ensures Maps(old(State()), p, between) && Maps(between, q, State())
    {
      MapSection(p);
      between := State();
      MapSection(q);
    }

    method SwitchTo(pdir: uint32)
      requires Valid() && pdir / PAGE_SIZE in machine.dirs
      modifies machine`cr3
      ensures Valid() && State() == old(State()).(cr3 := pdir / PAGE_SIZE)
    {
      ghost var s := State();
      machine.PageDirSwitch(pdir);
      SwitchSound(s, pdir / PAGE_SIZE, State());
    }

    /** The last part of proc_create: the sections, in the new directory. */
    method Finish(text: Section, data: Section, bss: Section, rodata: Section, pdir: uint32) returns (ghost mapping: seq<System>)
      requires Valid() && |machine.frames.Frames()| >= 4 && pdir / PAGE_SIZE in machine.dirs
      requires AllBelow(text, data, bss, rodata)
      modifies machine`cr3, machine`ram, machine`tables, machine.frames, machine.frames.memoryMap
      ensures Valid() && MapRun(mapping, SectionMaps(text, data, bss, rodata))
      ensures mapping[0] == old(State()).(cr3 := pdir / PAGE_SIZE) && State() == Last(mapping).(cr3 := kpageDir / PAGE_SIZE)
    {
      SwitchTo(pdir);
      mapping := MapSections(text, data, bss, rodata);
      SwitchTo(kpageDir);
    }

    /** NEW(struct process): a block for the record, and the page that kbrk maps if it adds one. */
    method NewRecord(memory: KernelHeap.KernelMemory) returns (record: uint32, ghost growing: seq<System>, ghost pages: seq<Mapping>)
      requires Valid() && |machine.frames.Frames()| >= 2 && memory.Valid() && memory.CanServe(RECORD_SIZE)
      modifies machine`ram, machine`tables, machine.frames, machine.frames.memoryMap
      modifies memory, memory.alloc, memory.alloc.heads, memory.alloc.nodes
      ensures Valid() && |machine.frames.Frames()| >= |old(machine.frames.Frames())| - 2
      ensures memory.Valid() && record !in old(memory.live) && memory.live == old(memory.live)[record := RECORD_SIZE]
      ensures Grows(growing, pages) && growing[0] == old(State()) && Last(growing) == State()
      ensures RecordPage(pages, old(memory.heap), memory.heap, old(State()), State())
    {
      var heap := memory.heap;
      record := NewBlock(memory);
      assert State() == old(State());
      ghost var kept := memory.State();
      growing, pages := AddHeapPage(heap, memory.heap);
      assert memory.State() == kept;
    }

    /** The record is allocated and filled in. */
    method AddRecord(pid: nat, text: Section, data: Section, bss: Section, rodata: Section, pdir: uint32, memory: KernelHeap.KernelMemory)
      returns (record: uint32, ghost growing: seq<System>, ghost pages: seq<Mapping>)
      requires Valid() && |machine.frames.Frames()| >= 2 && memory.Valid() && memory.CanServe(RECORD_SIZE) && pid < MAX_PROCESSES
      modifies machine`ram, machine`tables, machine.frames, machine.frames.memoryMap, processes
      modifies memory, memory.alloc, memory.alloc.heads, memory.alloc.nodes
      ensures Valid() && |machine.frames.Frames()| >= |old(machine.frames.Frames())| - 2
      ensures processes[..] == old(processes[..])[pid := Some(Process(record, pid, text, data, bss, rodata, pdir))]
      ensures memory.Valid() && record !in old(memory.live) && memory.live == old(memory.live)[record := RECORD_SIZE]
      ensures Grows(growing, pages) && growing[0] == old(State()) && Last(growing) == State()
      ensures RecordPage(pages, old(memory.heap), memory.heap, old(State()), State())
    {
      record, growing, pages := NewRecord(memory);
      ghost var s, kept := State(), memory.State();
      processes[pid] := Some(Process(record, pid, text, data, bss, rodata, pdir));
      assert State() == s;
      assert memory.State() == kept;
    }

    /** The first half of proc_create: a directory, and a record. */
    method Begin(pid: nat, text: Section, data: Section, bss: Section, rodata: Section, memory: KernelHeap.KernelMemory)
      returns (pdir: uint32, record: uint32, ghost newdir: nat, ghost cloned: System, ghost growing: seq<System>, ghost pages: seq<Mapping>)
      requires Valid() && |machine.frames.Frames()| >= 5 && memory.Valid() && memory.CanServe(RECORD_SIZE) && pid < MAX_PROCESSES
      modifies this`shared, machine`ram, machine`dirs, machine`tables, machine.frames, machine.frames.memoryMap, processes
      modifies memory, memory.alloc, memory.alloc.heads, memory.alloc.nodes
      ensures Valid() && |machine.frames.Frames()| >= |old(machine.frames.Frames())| - 5
      ensures newdir == pdir / PAGE_SIZE < PAGES && pdir % PAGE_SIZE == 0
      ensures processes[..] == old(processes[..])[pid := Some(Process(record, pid, text, data, bss, rodata, pdir))]
      ensures exists spares: (nat, nat) :: CloneStep(old(State()), newdir, spares, cloned)
      ensures memory.Valid() && record !in old(memory.live) && memory.live == old(memory.live)[record := RECORD_SIZE]
      ensures Grows(growing, pages) && growing[0] == cloned && Last(growing) == State()
      ensures RecordPage(pages, old(memory.heap), memory.heap, cloned, State())
    {
      pdir, newdir := CloneDirectory();
      assert memory.State() == old(memory.State());
      cloned := State();
      record, growing, pages := AddRecord(pid, text, data, bss, rodata, pdir, memory);
    }

    /** That touches neither the heap nor the table of processes. */
    method FinishOnly(text: Section, data: Section, bss: Section, rodata: Section, pdir: uint32, memory: KernelHeap.KernelMemory)
      returns (ghost mapping: seq<System>)
      requires Valid() && |machine.frames.Frames()| >= 4 && pdir / PAGE_SIZE in machine.dirs
      requires AllBelow(text, data, bss, rodata) && memory.Valid()
      modifies machine`cr3, machine`ram, machine`tables, machine.frames, machine.frames.memoryMap
      ensures Valid() && MapRun(mapping, SectionMaps(text, data, bss, rodata))
      ensures mapping[0] == old(State()).(cr3 := pdir / PAGE_SIZE) && State() == Last(mapping).(cr3 := kpageDir / PAGE_SIZE)
      ensures memory.Valid() && memory.live == old(memory.live) && memory.heap == old(memory.heap) && processes[..] == old(processes[..])
    {
      mapping := Finish(text, data, bss, rodata, pdir);
      assert memory.State() == old(memory.State());
    }

    /** The second half: the sections are mapped in the new directory. */
    method Complete(text: Section, data: Section, bss: Section, rodata: Section, pdir: uint32, ghost before: System, ghost newdir: nat,
                    ghost cloned: System, ghost growing: seq<System>, ghost pages: seq<Mapping>,
                    ghost heap: uint32, ghost heap': uint32, memory: KernelHeap.KernelMemory)
      returns (ghost c: Creation)
      requires Valid() && |machine.frames.Frames()| >= 4
      requires AllBelow(text, data, bss, rodata) && memory.Valid()
      requires Sound(before) && newdir == pdir / PAGE_SIZE && before.kernel == kpageDir / PAGE_SIZE
      requires exists spares: (nat, nat) :: CloneStep(before, newdir, spares, cloned)
      requires Grows(growing, pages) && growing[0] == cloned && Last(growing) == State() && RecordPage(pages, heap, heap', cloned, State())
      modifies machine`cr3, machine`ram, machine`tables, machine.frames, machine.frames.memoryMap
      ensures Valid() && memory.Valid() && memory.live == old(memory.live) && memory.heap == old(memory.heap) && processes[..] == old(processes[..])
      ensures c.before == before && c.after == State() && c.sections == SectionMaps(text, data, bss, rodata)
      ensures Creates(c, newdir) && c.cloned == cloned && c.pages == pages && RecordPage(pages, heap, heap', cloned, State())
    {
      NewIsDirectory(before, newdir, cloned, growing, pages);
      ghost var mapping := FinishOnly(text, data, bss, rodata, pdir, memory);
      c := Assembled(before, newdir, cloned, growing, pages, heap, heap', mapping, SectionMaps(text, data, bss, rodata), State());
    }

    /** The record and the tables of the process that gets this number. */
    method Create(pid: nat, text: Section, data: Section, bss: Section, rodata: Section, memory: KernelHeap.KernelMemory)
      returns (record: uint32, ghost c: Creation, ghost newdir: nat, ghost pdir: uint32)
      requires Valid() && |machine.frames.Frames()| >= 9 && memory.Valid() && memory.CanServe(RECORD_SIZE) && pid < MAX_PROCESSES
      requires AllBelow(text, data, bss, rodata)
      modifies this`shared, machine, machine.frames, machine.frames.memoryMap, processes
      modifies memory, memory.alloc, memory.alloc.heads, memory.alloc.nodes
      ensures Valid() && newdir == pdir / PAGE_SIZE < PAGES && pdir % PAGE_SIZE == 0
      ensures processes[..] == old(processes[..])[pid := Some(Process(record, pid, text, data, bss, rodata, pdir))]
      ensures memory.Valid() && record !in old(memory.live) && memory.live == old(memory.live)[record := RECORD_SIZE]
      ensures c.before == old(State()) && c.after == State() && c.sections == SectionMaps(text, data, bss, rodata)
      ensures Creates(c, newdir) && machine.cr3 == kpageDir / PAGE_SIZE
      ensures c.cloned.cr3 < PAGES
      ensures |c.pages| == if memory.heap != old(memory.heap) && Walk(c.cloned.m.ram, c.cloned.cr3, old(memory.heap)).Fault? then 1 else 0
      ensures c.pages != [] ==>
                && c.pages[0].virt == old(memory.heap)
                && c.pages[0].phys / PAGE_SIZE in c.cloned.m.free && c.pages[0].phys / PAGE_SIZE !in machine.frames.Frames()
    {
      ghost var before, heap := State(), memory.heap;
      var newDirPhys;
      ghost var cloned, growing, pages;
      newDirPhys, record, newdir, cloned, growing, pages := Begin(pid, text, data, bss, rodata, memory);
      pdir := newDirPhys;
      c := Complete(text, data, bss, rodata, newDirPhys, before, newdir, cloned, growing, pages, heap, memory.heap, memory);
    }

    /** A new process with a record and a directory of its own, in which its sections are mapped. */
    method ProcCreate(text: Section, data: Section, bss: Section, rodata: Section, memory: KernelHeap.KernelMemory)
      returns (record: uint32, pid: nat, ghost c: Creation, ghost newdir: nat, ghost pdir: uint32)
      requires Valid() && |machine.frames.Frames()| >= 9 && memory.Valid() && memory.CanServe(RECORD_SIZE)
      requires AllBelow(text, data, bss, rodata)
      modifies this`shared, machine, machine.frames, machine.frames.memoryMap, processes
      modifies memory, memory.alloc, memory.alloc.heads, memory.alloc.nodes
      ensures Valid() && IsNextPid(old(processes[..]), pid) && newdir == pdir / PAGE_SIZE < PAGES && pdir % PAGE_SIZE == 0
      ensures processes[..] == old(processes[..])[pid := Some(Process(record, pid, text, data, bss, rodata, pdir))]
      ensures memory.Valid() && record !in old(memory.live) && memory.live == old(memory.live)[record := RECORD_SIZE]
      ensures c.before == old(State()) && c.after == State() && c.sections == SectionMaps(text, data, bss, rodata)
      ensures Creates(c, newdir) && machine.cr3 == c.before.kernel == kpageDir / PAGE_SIZE < PAGES
      ensures c.cloned.cr3 < PAGES
      ensures |c.pages| == if memory.heap != old(memory.heap) && Walk(c.cloned.m.ram, c.cloned.cr3, old(memory.heap)).Fault? then 1 else 0
      ensures c.pages != [] ==>
                && c.pages[0].virt == old(memory.heap)
                && c.pages[0].phys / PAGE_SIZE in c.cloned.m.free && c.pages[0].phys / PAGE_SIZE !in machine.frames.Frames()
      // text and rodata to read, data and bss to write, each where the kernel's directory has no table and no later section the page
      ensures !HasTable(c.before.m, c.before.kernel, text.virtAddr) && text.virtAddr / PAGE_SIZE != data.virtAddr / PAGE_SIZE
              && text.virtAddr / PAGE_SIZE != bss.virtAddr / PAGE_SIZE && text.virtAddr / PAGE_SIZE != rodata.virtAddr / PAGE_SIZE ==>
                Walk(machine.ram, newdir, text.virtAddr) == To(text.physAddr / PAGE_SIZE, false, true)
      ensures !HasTable(c.before.m, c.before.kernel, data.virtAddr)
              && data.virtAddr / PAGE_SIZE != bss.virtAddr / PAGE_SIZE && data.virtAddr / PAGE_SIZE != rodata.virtAddr / PAGE_SIZE ==>
                Walk(machine.ram, newdir, data.virtAddr) == To(data.physAddr / PAGE_SIZE, true, true)
      ensures !HasTable(c.before.m, c.before.kernel, bss.virtAddr) && bss.virtAddr / PAGE_SIZE != rodata.virtAddr / PAGE_SIZE ==>
                Walk(machine.ram, newdir, bss.virtAddr) == To(bss.physAddr / PAGE_SIZE, true, true)
      ensures !HasTable(c.before.m, c.before.kernel, rodata.virtAddr) ==>
                Walk(machine.ram, newdir, rodata.virtAddr) == To(rodata.physAddr / PAGE_SIZE, false, true)
    {
      pid := FindNextPid();
      record, c, newdir, pdir := Create(pid, text, data, bss, rodata, memory);
      OwnSections(c, newdir, text, data, bss, rodata);
    }


    /** One paging_map in the new process's directory. */
    method MapSection(p: Mapping)
      requires Valid() && p.virt < TABLES_VIRT && machine.frames.Frames() != {}
      modifies machine`ram, machine`tables, machine.frames, machine.frames.memoryMap
      ensures Valid() && Maps(old(State()), p, State())
      ensures |machine.frames.Frames()| >= |old(machine.frames.Frames())| - 1
    {
      ghost var s := State();
      ghost var spare := machine.PagingMap(p.virt, p.phys, p.flags);
      MapSound(s, p.virt, p.phys, p.flags, spare, State());
      MapsAtOnce(s, p, spare, State());
    }
  }
}

/** What ticks keep over runs on all processors, and how long a thread can have to wait. */
module SchedulerRuns {
  import opened Scheduler

  /**
   * A tick runs the first thread of the top queue that has no event set or whose event holds, and
   * clears its event; those passed over have events that do not hold, and go behind the others.
   */
  lemma TickRuns(c: Cpu, waiting: set<Thread>, holds: Thread -> bool, priority: Priorities, p: nat, k: nat)
    requires Queued(c, priority) && p < MAX_PRIORITY
    requires var q := PutBack(c, c.current, priority).queues;
             && (forall r :: 0 <= r < p ==> q[r] == [])
             && k < |q[p]| && (q[p][k] !in waiting || holds(q[p][k])) && forall j :: 0 <= j < k ==> q[p][j] in waiting && !holds(q[p][j])
    ensures var q, c' := PutBack(c, c.current, priority).queues, Ticked(c, waiting, holds, priority);
            && c'.current == q[p][k] && c'.queues == q[p := q[p][k + 1..] + q[p][..k]] && c'.idle == c.idle
            && c'.next == if c'.current == c.current then c.current else 0
  {
    var b := PutBack(c, c.current, priority);
    PutBackQueued(c, c.current, priority);
    TopUnique(b.queues, p);
    FirstUnique(b.queues[p], waiting, holds, k);
    assert MayQueue(b, b.queues[p][k], p, priority);
  }

  /** What a tick that can end runs: the idle thread if there is no other, or such a thread. */
  lemma TickPicks(c: Cpu, waiting: set<Thread>, holds: Thread -> bool, priority: Priorities) returns (p: nat, k: nat)
    requires Queued(c, priority) && Ends(PutBack(c, c.current, priority), waiting, holds)
    ensures var q, t := PutBack(c, c.current, priority).queues, Ticked(c, waiting, holds, priority).current;
            && (t !in waiting || holds(t))
            && (forall r :: 0 <= r < p && r < MAX_PRIORITY ==> q[r] == [])
            && (p >= MAX_PRIORITY ==> t == c.idle)
            && (p < MAX_PRIORITY ==> k < |q[p]| && t == q[p][k] && forall j :: 0 <= j < k ==> q[p][j] in waiting && !holds(q[p][j]))
  {
    var b := PutBack(c, c.current, priority);
    p := Top(b.queues, 0);
    k := 0;
    if p < MAX_PRIORITY {
      k := FirstRunnable(b.queues[p], waiting, holds);
      TickRuns(c, waiting, holds, priority, p, k);
    }
  }

  lemma FirstUnique(q: seq<Thread>, waiting: set<Thread>, holds: Thread -> bool, k: nat)
    requires k < |q| && CanRun(q[k], waiting, holds) && forall j :: 0 <= j < k ==> !CanRun(q[j], waiting, holds)
    ensures FirstRunnable(q, waiting, holds) == k
  {
  }

  /** With no thread anywhere the idle thread runs. */
  lemma TickIdles(c: Cpu, waiting: set<Thread>, holds: Thread -> bool, priority: Priorities)
    requires c.idle != 0 && forall r :: 0 <= r < MAX_PRIORITY ==> PutBack(c, c.current, priority).queues[r] == []
    ensures Ticked(c, waiting, holds, priority).current == c.idle
    ensures Ticked(c, waiting, holds, priority).next == if c.current == c.idle then c.idle else 0
  {
  }

  /** The threads of the queues above p are none, also after the running thread is put back. */
  predicate NothingAbove(c: Cpu, priority: Priorities, p: nat)
    requires p < MAX_PRIORITY
  {
    forall r :: 0 <= r < p ==> PutBack(c, c.current, priority).queues[r] == []
  }

  /** A runnable thread of the top queue runs at the tick, or gets nearer to the head. */
  lemma TickAdvances(c: Cpu, waiting: set<Thread>, holds: Thread -> bool, priority: Priorities, p: nat, k: nat) returns (k': nat)
    requires Queued(c, priority) && p < MAX_PRIORITY && NothingAbove(c, priority, p)
    requires k < |c.queues[p]| && CanRun(c.queues[p][k], waiting, holds)
    ensures var c' := Ticked(c, waiting, holds, priority);
            c'.current == c.queues[p][k] || (k' < k && k' < |c'.queues[p]| && c'.queues[p][k'] == c.queues[p][k])
  {
    var q := PutBack(c, c.current, priority).queues[p];
    assert q[k] == c.queues[p][k];
    var m := FirstRunnable(q, waiting, holds);
    assert m <= k;
    TickRuns(c, waiting, holds, priority, p, m);
    k' := if m < k then k - m - 1 else 0;
    assert m < k ==> (q[m + 1..] + q[..m])[k - m - 1] == q[k];
  }

  /** What a tick of one processor sees of the threads' events. */
  datatype Events = Events(waiting: set<Thread>, holds: Thread -> bool)

  /** Between two ticks other threads may join the ends of queues, none of them above p. */
  ghost predicate Arrivals(c: Cpu, c': Cpu, priority: Priorities, p: nat)
    requires p < MAX_PRIORITY
  {
    Queued(c', priority) && NothingAbove(c', priority, p) && c.queues[p] <= c'.queues[p]
  }

  /** Ticks of one processor: run[i] is its state just before tick i. */
  ghost predicate Ticks(run: seq<Cpu>, seen: seq<Events>, priority: Priorities, p: nat)
    requires p < MAX_PRIORITY
  {
    && |seen| == |run| >= 1 && Queued(run[0], priority) && NothingAbove(run[0], priority, p)
    && forall i :: 0 <= i < |run| - 1 ==> Arrivals(Ticked(run[i], seen[i].waiting, seen[i].holds, priority), run[i + 1], priority, p)
  }

  /** Bounded waiting: a thread at position k of the top queue with no event, or one that holds, at each tick runs within k + 1 ticks. */
  lemma {:induction false} BoundedWaiting(run: seq<Cpu>, seen: seq<Events>, priority: Priorities, p: nat, t: Thread, k: nat) returns (i: nat)
    requires p < MAX_PRIORITY && Ticks(run, seen, priority, p) && |run| > k
    requires k < |run[0].queues[p]| && run[0].queues[p][k] == t
    requires forall i :: 0 <= i < |run| ==> t !in seen[i].waiting || seen[i].holds(t)
    ensures i <= k && Ticked(run[i], seen[i].waiting, seen[i].holds, priority).current == t
    decreases k
  {
    var k' := TickAdvances(run[0], seen[0].waiting, seen[0].holds, priority, p, k);
    if Ticked(run[0], seen[0].waiting, seen[0].holds, priority).current == t {
      i := 0;
    } else {
      assert Arrivals(Ticked(run[0], seen[0].waiting, seen[0].holds, priority), run[0 + 1], priority, p);
      var run', seen' := run[1..], seen[1..];
      forall i | 0 <= i < |run'| - 1
        ensures Arrivals(Ticked(run'[i], seen'[i].waiting, seen'[i].holds, priority), run'[i + 1], priority, p)
      {
        assert Arrivals(Ticked(run[i + 1], seen[i + 1].waiting, seen[i + 1].holds, priority), run[i + 1 + 1], priority, p);
      }
      i := BoundedWaiting(run', seen', priority, p, t, k');
      i := i + 1;
    }
  }

  /** So a thread that waits for an event is woken: if the event holds at each tick, it runs within k + 1 ticks. */
  lemma EventWakes(run: seq<Cpu>, seen: seq<Events>, priority: Priorities, p: nat, t: Thread, k: nat) returns (i: nat)
    requires p < MAX_PRIORITY && Ticks(run, seen, priority, p) && |run| > k
    requires k < |run[0].queues[p]| && run[0].queues[p][k] == t
    requires forall i :: 0 <= i < |run| ==> t in seen[i].waiting && seen[i].holds(t)
    ensures i <= k && Ticked(run[i], seen[i].waiting, seen[i].holds, priority).current == t
  {
    i := BoundedWaiting(run, seen, priority, p, t, k);
  }

  /** The threads queued, as often as they are. */
  function InQueues(qs: Queues): multiset<Thread> {
    multiset(qs[0]) + multiset(qs[1]) + multiset(qs[2]) + multiset(qs[3]) + multiset(qs[4])
  }

  /** The places where a processor has threads other than its idle one. */
  function Places(c: Cpu): multiset<Thread> {
    InQueues(c.queues) + Unless(c.current, c.idle)
  }

  lemma QueueReplaced(qs: Queues, p: nat, q: seq<Thread>)
    requires p < MAX_PRIORITY
    ensures InQueues(qs[p := q]) + multiset(qs[p]) == InQueues(qs) + multiset(q)
  {
  }

  /** A processor between ticks. */
  predicate Settled(c: Cpu, priority: Priorities) {
    Queued(c, priority) && c.current != 0 && (c.next == 0 || c.next == c.current)
  }

  /** A thread, unless it is the idle one. */
  function Unless(t: Thread, idle: Thread): multiset<Thread> {
    if t == idle then multiset{} else multiset{t}
  }

  /** Picking moves one thread out of the queues. */
  lemma PickedPlaces(b: Cpu, waiting: set<Thread>, holds: Thread -> bool, priority: Priorities)
    requires Queued(b, priority) && Ends(b, waiting, holds)
    ensures var c := Picked(b, waiting, holds);
            && c.idle == b.idle && c.current == b.current && c.next != 0 && Queued(c, priority)
            && InQueues(c.queues) + Unless(c.next, c.idle) == InQueues(b.queues)
  {
    var p := Top(b.queues, 0);
    if p < MAX_PRIORITY {
      var q := b.queues[p];
      var k := FirstRunnable(q, waiting, holds);
      var q' := q[k + 1..] + q[..k];
      TakenOut(b.queues, p, k);
      assert MayQueue(b, b.queues[p][k], p, priority);
      PickedQueued(b, p, q', Picked(b, waiting, holds), priority);
    }
  }

  lemma Cancel(all': multiset<Thread>, here: multiset<Thread>, all: multiset<Thread>, more: multiset<Thread>)
    requires all' + here == all + (here + more)
    ensures all' == all + more
  {
    assert forall t :: all'[t] + here[t] == (all' + here)[t] == (all + (here + more))[t];
  }

  lemma TakenOut(qs: Queues, p: nat, k: nat)
    requires p < MAX_PRIORITY && k < |qs[p]|
    ensures InQueues(qs[p := qs[p][k + 1..] + qs[p][..k]]) + multiset{qs[p][k]} == InQueues(qs)
  {
    var q := qs[p];
    var q' := q[k + 1..] + q[..k];
    OneTakenOut(q, k);
    QueueReplaced(qs, p, q');
    Cancel(InQueues(qs), multiset(q'), InQueues(qs[p := q']), multiset{q[k]});
  }

  lemma OneTakenOut(q: seq<Thread>, k: nat)
    requires k < |q|
    ensures multiset(q) == multiset(q[k + 1..] + q[..k]) + multiset{q[k]}
  {
    assert q == q[..k] + [q[k]] + q[k + 1..];
  }

  lemma PickedQueued(b: Cpu, p: nat, q': seq<Thread>, c: Cpu, priority: Priorities)
    requires Queued(b, priority) && p < MAX_PRIORITY && forall t :: t in q' ==> t in b.queues[p]
    requires c.queues == b.queues[p := q'] && c.idle == b.idle
    ensures Queued(c, priority)
  {
    forall r, i {:trigger c.queues[r][i]} | 0 <= r < MAX_PRIORITY && 0 <= i < |c.queues[r]|
      ensures MayQueue(c, c.queues[r][i], r, priority)
    {
      var t := c.queues[r][i];
      assert t in c.queues[r];
      var j :| 0 <= j < |b.queues[r]| && b.queues[r][j] == t;
      assert MayQueue(b, b.queues[r][j], r, priority);
    }
  }

  /** A tick moves threads between the queues and the processor, and loses and doubles none. */
  lemma TickKeepsPlaces(c: Cpu, waiting: set<Thread>, holds: Thread -> bool, priority: Priorities)
    requires Settled(c, priority) && Ends(PutBack(c, c.current, priority), waiting, holds)
    ensures var c' := Ticked(c, waiting, holds, priority);
            Settled(c', priority) && c'.idle == c.idle && Places(c') == Places(c)
  {
    var b := PutBack(c, c.current, priority);
    PutBackQueued(c, c.current, priority);
    PutBackPlaces(c, c.current, priority);
    PickedPlaces(b, waiting, holds, priority);
  }

  lemma PutBackPlaces(c: Cpu, t: Thread, priority: Priorities)
    requires t != 0
    ensures InQueues(PutBack(c, t, priority).queues) == InQueues(c.queues) + Unless(t, c.idle)
  {
    if t != c.idle {
      QueueReplaced(c.queues, priority(t), c.queues[priority(t)] + [t]);
      assert multiset(c.queues[priority(t)] + [t]) == multiset(c.queues[priority(t)]) + multiset{t};
    }
  }

  lemma OnePutBack(c: Cpu, th: Thread, priority: Priorities, t: Thread)
    requires th != 0 && t != c.idle
    ensures InQueues(PutBack(c, th, priority).queues)[t] == InQueues(c.queues)[t] + if th == t then 1 else 0
  {
    PutBackPlaces(c, th, priority);
  }

  lemma CountFirst(ths: seq<Thread>, t: Thread)
    requires ths != []
    ensures multiset(ths)[t] == multiset(ths[1..])[t] + if ths[0] == t then 1 else 0
  {
    assert ths == [ths[0]] + ths[1..];
  }

  /** Threads that are woken are all in the queues then, the idle one excepted. */
  lemma {:induction false} WokenPlaces(c: Cpu, ths: seq<Thread>, priority: Priorities, t: Thread)
    requires 0 !in ths && t != c.idle
    ensures InQueues(PutBackAll(c, ths, priority).queues)[t] == InQueues(c.queues)[t] + multiset(ths)[t]
    decreases |ths|
  {
    if ths != [] {
      OnePutBack(c, ths[0], priority, t);
      CountFirst(ths, t);
      WokenPlaces(PutBack(c, ths[0], priority), ths[1..], priority, t);
    }
  }

  /** All processors, and the threads with an event set. */
  datatype System = System(cpus: seq<Cpu>, waiting: set<Thread>)

  function Total(ms: seq<multiset<Thread>>): multiset<Thread> {
    if ms == [] then multiset{} else Total(ms[..|ms| - 1]) + ms[|ms| - 1]
  }

  function PlacesOf(cpus: seq<Cpu>): (ms: seq<multiset<Thread>>)
    ensures |ms| == |cpus| && forall j :: 0 <= j < |cpus| ==> ms[j] == Places(cpus[j])
  {
    seq(|cpus|, j requires 0 <= j < |cpus| => Places(cpus[j]))
  }

  function AllPlaces(cpus: seq<Cpu>): multiset<Thread> {
    Total(PlacesOf(cpus))
  }

  lemma {:induction false} TotalChanged(ms: seq<multiset<Thread>>, j: nat, m: multiset<Thread>)
    requires j < |ms|
    ensures Total(ms[j := m]) + ms[j] == Total(ms) + m
  {
    var n := |ms| - 1;
    if j < n {
      TotalChanged(ms[..n], j, m);
      assert ms[j := m][..n] == ms[..n][j := m] && ms[j := m][n] == ms[n];
      Rearranged(Total(ms[..n][j := m]), ms[j], Total(ms[..n]), m, ms[n]);
    } else {
      assert ms[j := m][..n] == ms[..n];
    }
  }

  lemma Rearranged(a': multiset<Thread>, m: multiset<Thread>, a: multiset<Thread>, m': multiset<Thread>, last: multiset<Thread>)
    requires a' + m == a + m'
    ensures a' + last + m == a + last + m'
  {
    assert a' + last + m == a' + m + last;
    assert a + last + m' == a + m' + last;
  }

  lemma OneCpuChanged(cpus: seq<Cpu>, j: nat, c: Cpu, more: multiset<Thread>)
    requires j < |cpus|
    requires Places(c) == Places(cpus[j]) + more
    ensures AllPlaces(cpus[j := c]) == AllPlaces(cpus) + more
  {
    TotalChanged(PlacesOf(cpus), j, Places(c));
    assert PlacesOf(cpus[j := c]) == PlacesOf(cpus)[j := Places(c)];
    Cancel(AllPlaces(cpus[j := c]), Places(cpus[j]), AllPlaces(cpus), more);
  }

  datatype Happening =
    | Ready(cpu: nat, thread: Thread)           // sched_thread_ready of a new thread, on the processor found
    | Tick(cpu: nat, holds: Thread -> bool)     // sched_tick, by the timer or by sched_yield
    | Wait(cpu: nat)                            // the running thread sets an event
    | Resume(cpu: nat)                          // the running thread finds that its event holds, and clears it

  ghost predicate Possible(s: System, h: Happening, priority: Priorities) {
    && h.cpu < |s.cpus|
    && match h
       case Ready(j, t) => t != 0 && t !in AllPlaces(s.cpus) && forall i :: 0 <= i < |s.cpus| ==> t != s.cpus[i].idle
       case Tick(j, holds) => Ends(PutBack(s.cpus[j], s.cpus[j].current, priority), s.waiting, holds)
       case Wait(j) => true
       case Resume(j) => true
  }

  function Happened(s: System, h: Happening, priority: Priorities): System
    requires h.cpu < |s.cpus|
  {
    match h
    case Ready(j, t) => s.(cpus := s.cpus[j := PutBack(s.cpus[j], t, priority)])
    case Tick(j, holds) =>
      var c := Ticked(s.cpus[j], s.waiting, holds, priority);
      System(s.cpus[j := c], s.waiting - {c.current})
    case Wait(j) => s.(waiting := s.waiting + {s.cpus[j].current})
    case Resume(j) => s.(waiting := s.waiting - {s.cpus[j].current})
  }

  /** Every thread made ready is in one place, and all processors are settled. */
  ghost predicate Conserved(s: System, threads: set<Thread>, priority: Priorities) {
    AllSettled(s.cpus, threads, priority) && AllPlaces(s.cpus) == multiset(threads)
  }

  ghost predicate AllSettled(cpus: seq<Cpu>, threads: set<Thread>, priority: Priorities) {
    forall j {:trigger cpus[j]} :: 0 <= j < |cpus| ==> SettledWithout(cpus[j], threads, priority)
  }

  predicate SettledWithout(c: Cpu, threads: set<Thread>, priority: Priorities) {
    Settled(c, priority) && c.idle !in threads
  }

  lemma OneSettled(cpus: seq<Cpu>, threads: set<Thread>, priority: Priorities, j: nat, c: Cpu)
    requires AllSettled(cpus, threads, priority) && j < |cpus| && SettledWithout(c, threads, priority)
    ensures AllSettled(cpus[j := c], threads, priority)
  {
  }

  function ThreadsAfter(threads: set<Thread>, h: Happening): set<Thread> {
    if h.Ready? then threads + {h.thread} else threads
  }

  lemma ReadyConserves(s: System, threads: set<Thread>, j: nat, t: Thread, priority: Priorities)
    requires Conserved(s, threads, priority) && Possible(s, Ready(j, t), priority)
    ensures Conserved(Happened(s, Ready(j, t), priority), threads + {t}, priority)
  {
    var c := s.cpus[j];
    var c' := PutBack(c, t, priority);
    assert Settled(c', priority) by { PutBackQueued(c, t, priority); }
    assert Places(c') == Places(c) + multiset{t} by { PutBackPlaces(c, t, priority); }
    OneCpuChanged(s.cpus, j, c', multiset{t});
    SetGrows(threads, t);
    MoreThreads(s.cpus, threads, t, priority);
    OneSettled(s.cpus, threads + {t}, priority, j, c');
  }

  lemma MoreThreads(cpus: seq<Cpu>, threads: set<Thread>, t: Thread, priority: Priorities)
    requires AllSettled(cpus, threads, priority) && forall i :: 0 <= i < |cpus| ==> t != cpus[i].idle
    ensures AllSettled(cpus, threads + {t}, priority)
  {
  }

  lemma SetGrows(threads: set<Thread>, t: Thread)
    requires t !in multiset(threads)
    ensures multiset(threads + {t}) == multiset(threads) + multiset{t}
  {
  }

  lemma TickConserves(s: System, threads: set<Thread>, j: nat, holds: Thread -> bool, priority: Priorities)
    requires Conserved(s, threads, priority) && Possible(s, Tick(j, holds), priority)
    ensures Conserved(Happened(s, Tick(j, holds), priority), threads, priority)
  {
    var c := s.cpus[j];
    var c' := Ticked(c, s.waiting, holds, priority);
    assert Settled(c', priority) && c'.idle == c.idle && Places(c') == Places(c) by {
      TickKeepsPlaces(c, s.waiting, holds, priority);
    }
    OneCpuChanged(s.cpus, j, c', multiset{});
    OneSettled(s.cpus, threads, priority, j, c');
  }

  lemma HappeningConserves(s: System, threads: set<Thread>, h: Happening, priority: Priorities)
    requires Conserved(s, threads, priority) && Possible(s, h, priority)
    ensures Conserved(Happened(s, h, priority), ThreadsAfter(threads, h), priority)
  {
    match h
    case Ready(j, t) => ReadyConserves(s, threads, j, t, priority);
    case Tick(j, holds) => TickConserves(s, threads, j, holds, priority);
    case Wait(j) =>
    case Resume(j) =>
  }

  /** Boot: every processor runs its idle thread and has no other. */
  predicate Booted(s: System) {
    forall j :: 0 <= j < |s.cpus| ==> s.cpus[j].idle != 0 && s.cpus[j] == Cpu([[], [], [], [], []], s.cpus[j].idle, s.cpus[j].idle, 0)
  }

  lemma {:induction false} NothingInAll(ms: seq<multiset<Thread>>)
    requires forall j :: 0 <= j < |ms| ==> ms[j] == multiset{}
    ensures Total(ms) == multiset{}
  {
    if ms != [] { NothingInAll(ms[..|ms| - 1]); }
  }

  lemma BootConserves(s: System, priority: Priorities)
    requires Booted(s)
    ensures Conserved(s, {}, priority)
  {
    forall j {:trigger s.cpus[j]} | 0 <= j < |s.cpus|
      ensures SettledWithout(s.cpus[j], {}, priority) && Places(s.cpus[j]) == multiset{}
    {
      BootPlaces(s.cpus[j], s.cpus[j].idle, priority);
    }
    NothingInAll(PlacesOf(s.cpus));
  }

  lemma BootPlaces(c: Cpu, idle: Thread, priority: Priorities)
    requires idle != 0 && c == Cpu([[], [], [], [], []], idle, idle, 0)
    ensures SettledWithout(c, {}, priority) && Places(c) == multiset{}
  {
    assert forall p :: 0 <= p < MAX_PRIORITY ==> c.queues[p] == [];
  }

  function ReadyIn(events: seq<Happening>): set<Thread> {
    if events == [] then {} else ThreadsAfter(ReadyIn(events[..|events| - 1]), events[|events| - 1])
  }

  /** Conservation: over any run the threads made ready are all there, each once, whatever ticks, waits and resumptions come. */
  lemma {:induction false} RunConserves(run: seq<System>, events: seq<Happening>, priority: Priorities)
    requires |run| == |events| + 1 && Booted(run[0])
    requires forall i :: 0 <= i < |events| ==> Possible(run[i], events[i], priority) && run[i + 1] == Happened(run[i], events[i], priority)
    ensures Conserved(run[|events|], ReadyIn(events), priority)
    decreases |events|
  {
    if events == [] {
      BootConserves(run[0], priority);
    } else {
      var n := |events| - 1;
      var before := run[..|events|];
      RunConserves(before, events[..n], priority);
      assert before[|events[..n]|] == run[n];
      HappeningConserves(run[n], ReadyIn(events[..n]), events[n], priority);
      assert run[n + 1] == run[|events|];
    }
  }

  lemma {:induction false} PartOfTotal(ms: seq<multiset<Thread>>, j: nat, t: Thread)
    requires j < |ms|
    ensures ms[j][t] <= Total(ms)[t]
  {
    if j < |ms| - 1 { PartOfTotal(ms[..|ms| - 1], j, t); }
  }

  lemma {:induction false} TwoPartsOfTotal(ms: seq<multiset<Thread>>, i: nat, j: nat, t: Thread)
    requires i < j < |ms|
    ensures ms[i][t] + ms[j][t] <= Total(ms)[t]
  {
    if j < |ms| - 1 { TwoPartsOfTotal(ms[..|ms| - 1], i, j, t); } else { PartOfTotal(ms[..|ms| - 1], i, t); }
  }

  lemma InQueuesOrRunning(c: Cpu, t: Thread)
    requires t == c.current != c.idle && Places(c)[t] <= 1
    ensures Places(c)[t] == 1 && forall p :: 0 <= p < MAX_PRIORITY ==> t !in c.queues[p]
  {
  }

  /** No thread runs on two processors, or runs while it is queued. */
  lemma InOnePlace(s: System, threads: set<Thread>, priority: Priorities, i: nat, j: nat)
    requires Conserved(s, threads, priority) && i < |s.cpus| && j < |s.cpus|
    requires s.cpus[i].current != s.cpus[i].idle
    ensures s.cpus[i].current in threads
    ensures i != j ==> s.cpus[i].current !in Places(s.cpus[j])
    ensures forall p :: 0 <= p < MAX_PRIORITY ==> s.cpus[i].current !in s.cpus[i].queues[p]
  {
    var t := s.cpus[i].current;
    var ms := PlacesOf(s.cpus);
    PartOfTotal(ms, i, t);
    if i < j { TwoPartsOfTotal(ms, i, j, t); }
    if j < i { TwoPartsOfTotal(ms, j, i, t); }
    assert Total(ms)[t] <= 1;
    InQueuesOrRunning(s.cpus[i], t);
  }
}

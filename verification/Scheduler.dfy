/** kernel/scheduler.c: queues by priority on each processor, polled by a tick until a thread can run. */
module Scheduler {

  const MAX_PRIORITY := 5

  /** The address of a thread; 0 is the null pointer. */
  type Thread = nat

  type Queues = qs: seq<seq<Thread>> | |qs| == MAX_PRIORITY witness [[], [], [], [], []]

  /** The scheduler of one processor. */
  datatype Cpu = Cpu(queues: Queues, idle: Thread, current: Thread, next: Thread)

  /** What the scheduler reads in a thread: its priority and whether an event is set that it waits for. */
  type Priority = p: nat | p < MAX_PRIORITY

  type Priorities = Thread -> Priority

  /** A thread can run if it waits for no event, or its event holds; events do not change in a tick. */
  predicate CanRun(t: Thread, waiting: set<Thread>, holds: Thread -> bool) {
    t !in waiting || holds(t)
  }

  function PutBack(c: Cpu, t: Thread, priority: Priorities): Cpu {
    if t == 0 || t == c.idle then c
    else c.(queues := c.queues[priority(t) := c.queues[priority(t)] + [t]])
  }

  function PutBackAll(c: Cpu, ths: seq<Thread>, priority: Priorities): Cpu
    decreases |ths|
  {
    if ths == [] then c else PutBackAll(PutBack(c, ths[0], priority), ths[1..], priority)
  }

  /** The highest priority with a thread, or MAX_PRIORITY if there is none. */
  function Top(queues: Queues, from: nat): (p: nat)
    requires from <= MAX_PRIORITY
    ensures from <= p <= MAX_PRIORITY && (p < MAX_PRIORITY ==> queues[p] != [])
    ensures forall q :: from <= q < p ==> queues[q] == []
    decreases MAX_PRIORITY - from
  {
    if from == MAX_PRIORITY || queues[from] != [] then from else Top(queues, from + 1)
  }

  /** The first thread of a queue that can run, or its length if there is none. */
  function FirstRunnable(q: seq<Thread>, waiting: set<Thread>, holds: Thread -> bool): (k: nat)
    ensures k <= |q| && (k < |q| ==> CanRun(q[k], waiting, holds))
    ensures forall j :: 0 <= j < k ==> !CanRun(q[j], waiting, holds)
  {
    if q == [] || CanRun(q[0], waiting, holds) then 0 else 1 + FirstRunnable(q[1..], waiting, holds)
  }

  /** A queue after its first k threads were polled in vain and put back. */
  function Rotated(q: seq<Thread>, k: nat): seq<Thread>
    requires k <= |q|
  {
    q[k..] + q[..k]
  }

  /** What a tick picks, with its events stable: a queue rotated to its first runnable thread. */
  function Picked(c: Cpu, waiting: set<Thread>, holds: Thread -> bool): Cpu {
    var p := Top(c.queues, 0);
    if p == MAX_PRIORITY then c.(next := c.idle)
    else
      var k := FirstRunnable(c.queues[p], waiting, holds);
      if k == |c.queues[p]| then c
      else c.(queues := c.queues[p := c.queues[p][k + 1..] + c.queues[p][..k]], next := c.queues[p][k])
  }

  /** scheduler_switch: nothing happens when the thread picked is running already. */
  function Switched(c: Cpu): Cpu {
    if c.next == 0 || c.next == c.current then c else c.(current := c.next, next := 0)
  }

  function Ticked(c: Cpu, waiting: set<Thread>, holds: Thread -> bool, priority: Priorities): Cpu {
    Switched(Picked(PutBack(c, c.current, priority), waiting, holds))
  }

  /** A tick ends: all queues are empty and the idle thread waits for nothing, or a thread of the top queue can run. */
  predicate Ends(c: Cpu, waiting: set<Thread>, holds: Thread -> bool) {
    var p := Top(c.queues, 0);
    if p == MAX_PRIORITY then CanRun(c.idle, waiting, holds) else FirstRunnable(c.queues[p], waiting, holds) < |c.queues[p]|
  }

  /** Threads are queued by their priority, and neither null nor the idle thread is. */
  predicate Queued(c: Cpu, priority: Priorities) {
    c.idle != 0 && forall p, i {:trigger c.queues[p][i]} :: 0 <= p < MAX_PRIORITY && 0 <= i < |c.queues[p]| ==> MayQueue(c, c.queues[p][i], p, priority)
  }

  predicate MayQueue(c: Cpu, t: Thread, p: nat, priority: Priorities) {
    t != 0 && t != c.idle && priority(t) == p
  }

  lemma PutBackQueued(c: Cpu, t: Thread, priority: Priorities)
    requires Queued(c, priority)
    ensures Queued(PutBack(c, t, priority), priority)
  {
  }

  /** The thread that a turn of the polling loop picks. */
  function Polled(c: Cpu): Thread {
    var p := Top(c.queues, 0);
    if p == MAX_PRIORITY then c.idle else c.queues[p][0]
  }

  /** The queues after a turn in vain. */
  function PollAgain(c: Cpu): Cpu {
    var p := Top(c.queues, 0);
    if p == MAX_PRIORITY then c else c.(queues := c.queues[p := c.queues[p][1..] + [c.queues[p][0]]])
  }

  lemma TopUnique(queues: Queues, p: nat)
    requires p < MAX_PRIORITY && queues[p] != [] && forall q :: 0 <= q < p ==> queues[q] == []
    ensures Top(queues, 0) == p
  {
  }

  /** A turn in vain leaves the loop where it can end exactly if it could before. */
  lemma PollKeepsEnds(c: Cpu, waiting: set<Thread>, holds: Thread -> bool)
    requires !CanRun(Polled(c), waiting, holds)
    ensures Ends(PollAgain(c), waiting, holds) <==> Ends(c, waiting, holds)
  {
    var p := Top(c.queues, 0);
    if p < MAX_PRIORITY {
      var q, q' := c.queues[p], PollAgain(c).queues[p];
      TopUnique(PollAgain(c).queues, p);
      var k, k' := FirstRunnable(q, waiting, holds), FirstRunnable(q', waiting, holds);
      assert forall j :: 0 <= j < |q| - 1 ==> q'[j] == q[j + 1];
      if k < |q| { assert q'[k - 1] == q[k]; }
      assert k' < |q| - 1 ==> q'[k'] == q[k' + 1];
      assert q'[|q| - 1] == q[0];
    }
  }

  function PollTimes(c: Cpu, n: nat): Cpu {
    if n == 0 then c else PollAgain(PollTimes(c, n - 1))
  }

  /**
   * The loop can end exactly if there is no thread and the idle one has no event or one that holds, or
   * some thread of the highest queue that has any has no event or one that holds.
   */
  lemma EndsExactly(c: Cpu, waiting: set<Thread>, holds: Thread -> bool)
    ensures Ends(c, waiting, holds) <==>
              || ((forall q :: 0 <= q < MAX_PRIORITY ==> c.queues[q] == []) && (c.idle !in waiting || holds(c.idle)))
              || exists p :: 0 <= p < MAX_PRIORITY && (forall q :: 0 <= q < p ==> c.queues[q] == [])
                             && exists t :: t in c.queues[p] && (t !in waiting || holds(t))
  {
    var p := Top(c.queues, 0);
    if p < MAX_PRIORITY {
      var q := c.queues[p];
      var k := FirstRunnable(q, waiting, holds);
      if k < |q| { assert q[k] in q; }
      forall p' | 0 <= p' < MAX_PRIORITY && c.queues[p'] != [] && forall q :: 0 <= q < p' ==> c.queues[q] == []
        ensures p' == p
      {
        TopUnique(c.queues, p');
      }
    }
  }

  /** If the loop cannot end it goes on for ever: whatever it picks, turn after turn, has an event that does not hold. */
  lemma {:induction false} PollsForEver(c: Cpu, waiting: set<Thread>, holds: Thread -> bool, n: nat)
    requires !Ends(c, waiting, holds)
    ensures !Ends(PollTimes(c, n), waiting, holds)
    ensures var t := Polled(PollTimes(c, n)); t in waiting && !holds(t)
  {
    if n > 0 {
      PollsForEver(c, waiting, holds, n - 1);
      PollKeepsEnds(PollTimes(c, n - 1), waiting, holds);
    }
  }

  /** How many turns of the loop are in vain. */
  function TurnsLeft(c: Cpu, waiting: set<Thread>, holds: Thread -> bool): nat {
    var p := Top(c.queues, 0);
    if p == MAX_PRIORITY then 0 else FirstRunnable(c.queues[p], waiting, holds)
  }

  /** The queues after i turns in vain. */
  function AfterTurns(c: Cpu, i: nat): Cpu {
    var p := Top(c.queues, 0);
    if p < MAX_PRIORITY && i <= |c.queues[p]| then c.(queues := c.queues[p := Rotated(c.queues[p], i)]) else c
  }

  lemma PolledZero(c: Cpu, waiting: set<Thread>, holds: Thread -> bool)
    ensures AfterTurns(c, 0) == c
  {
    var p := Top(c.queues, 0);
    if p < MAX_PRIORITY { assert Rotated(c.queues[p], 0) == c.queues[p]; }
  }

  /** What turn number i picks, and what it leaves if that cannot run. */
  lemma TurnPolls(c: Cpu, waiting: set<Thread>, holds: Thread -> bool, i: nat)
    requires Ends(c, waiting, holds) && i <= TurnsLeft(c, waiting, holds)
    ensures var p, p' := Top(c.queues, 0), Top(AfterTurns(c, i).queues, 0);
            && p' == p
            && (p == MAX_PRIORITY ==> CanRun(c.idle, waiting, holds))
            && (p < MAX_PRIORITY ==>
                  var q, q' := c.queues[p], AfterTurns(c, i).queues[p];
                  && i < |q| && q' != [] && q'[0] == q[i]
                  && (CanRun(q[i], waiting, holds) <==> i == TurnsLeft(c, waiting, holds))
                  && q'[1..] + [q[i]] == Rotated(q, i + 1) && q'[1..] == q[i + 1..] + q[..i]
                  && AfterTurns(c, i).queues[p := q'[1..]] == c.queues[p := q[i + 1..] + q[..i]]
                  && AfterTurns(c, i).queues[p := q'[1..] + [q[i]]] == AfterTurns(c, i + 1).queues)
  {
  }

  /** struct scheduler, on the threads' events that all processors share. */
  class EventTable {
    var waiting: set<Thread>  // the threads with an event set
  }

  class SchedulerUnit {
    const prioQueues: array<seq<Thread>>
    const idle: Thread
    var current: Thread
    var next: Thread
    var waitingThreads: seq<Thread>
    var load: int
    var started: bool
    const events: EventTable
    const priority: Priorities

    ghost function State(): Cpu
      requires prioQueues.Length == MAX_PRIORITY
      reads this`current, this`next, prioQueues
    {
      Cpu(prioQueues[..], idle, current, next)
    }

    ghost predicate Valid()
      reads this`current, this`next, prioQueues
    {
      prioQueues.Length == MAX_PRIORITY && Queued(State(), priority)
    }

    constructor (idleThread: Thread, events: EventTable, priority: Priorities)
      requires idleThread != 0
      ensures Valid() && fresh(prioQueues) && this.events == events && this.priority == priority
      ensures State() == Cpu([[], [], [], [], []], idleThread, idleThread, 0) && load == 0 && !started
    {
      prioQueues := new seq<Thread>[MAX_PRIORITY](_ => []);
      idle, current, next := idleThread, idleThread, 0;
      waitingThreads, load, started := [], 0, false;
      this.events, this.priority := events, priority;
    }

    /** list_push on a priority queue, except for the idle thread. */
    method SchedulerPutBack(th: Thread)
      requires Valid()
      modifies prioQueues
      ensures Valid() && State() == PutBack(old(State()), th, priority)
    {
      PutBackQueued(State(), th, priority);
      if th == 0 { return; }
      if th == idle { return; }
      prioQueues[priority(th)] := prioQueues[priority(th)] + [th];
    }

    /** A new thread. */
    method Take(th: Thread)
      requires Valid() && th != 0 && th != idle
      modifies prioQueues, this`load
      ensures Valid() && State() == PutBack(old(State()), th, priority) && load == old(load) + 1
    {
      SchedulerPutBack(th);
      load := load + 1;
    }

    /** The first thread of the first queue that has one, or null. */
    method SchedulerPick() returns (t: Thread)
      requires Valid()
      modifies prioQueues
      ensures Valid()
      ensures var p := Top(old(prioQueues[..]), 0);
              if p == MAX_PRIORITY then t == 0 && prioQueues[..] == old(prioQueues[..])
              else t == old(prioQueues[p])[0] && prioQueues[..] == old(prioQueues[..])[p := old(prioQueues[p])[1..]]
    {
      var p := 0;
      while p < MAX_PRIORITY
        invariant 0 <= p <= MAX_PRIORITY && prioQueues[..] == old(prioQueues[..])
        invariant Top(prioQueues[..], 0) == Top(prioQueues[..], p)
      {
        if prioQueues[p] != [] {
          t := prioQueues[p][0];
          prioQueues[p] := prioQueues[p][1..];
          return;
        }
        p := p + 1;
      }
      t := 0;
    }

    method SchedCanRun(holds: Thread -> bool) returns (run: bool)
      requires next != 0
      modifies events
      ensures run <==> next !in old(events.waiting) || holds(next)
      ensures events.waiting == if run then old(events.waiting) - {next} else old(events.waiting)
    {
      if next !in events.waiting {
        return true;
      }
      if holds(next) {
        events.waiting := events.waiting - {next};
        return true;
      }
      return false;
    }

    method SchedulerSwitch()
      requires Valid()
      modifies this`current, this`next
      ensures Valid() && State() == Switched(old(State()))
      ensures old(next) != 0 ==> current == old(next) && next == if old(next) == old(current) then old(next) else 0
      ensures old(next) == 0 ==> current == old(current) && next == 0
    {
      if next == 0 { return; }
      if current == next { return; }
      current := next;
      next := 0;
    }

    /** Threads that waited go back to their queues. */
    method SchedulerWakeAll()
      requires Valid() && 0 !in waitingThreads
      modifies this`waitingThreads, prioQueues
      ensures Valid() && waitingThreads == [] && State() == PutBackAll(old(State()), old(waitingThreads), priority)
    {
      ghost var c, ths := State(), waitingThreads;
      ghost var i := 0;
      while waitingThreads != []
        invariant 0 <= i <= |ths| && waitingThreads == ths[i..] && Valid()
        invariant PutBackAll(State(), waitingThreads, priority) == PutBackAll(c, ths, priority)
        decreases |ths| - i
      {
        var th := waitingThreads[0];
        waitingThreads := waitingThreads[1..];
        SchedulerPutBack(th);
        i := i + 1;
      }
    }

    /**
     * The first runnable thread of the top queue runs, or the idle thread if all queues are empty.
     * Where ticks are preemptive no thread is ever put among those that waited.
     */
    method SchedTick(holds: Thread -> bool)
      requires Valid() && waitingThreads == [] && Ends(PutBack(State(), current, priority), events.waiting, holds)
      modifies this`current, this`next, this`waitingThreads, prioQueues, events
      ensures Valid() && waitingThreads == [] && State() == Ticked(old(State()), old(events.waiting), holds, priority)
      ensures (current !in old(events.waiting) || holds(current)) && events.waiting == old(events.waiting) - {current}
    {
      SchedulerPutBack(current);
      SchedulerWakeAll();
      Poll(holds);
      SchedulerSwitch();
    }

    /** The loop of sched_tick. */
    method Poll(holds: Thread -> bool)
      requires Valid() && Ends(State(), events.waiting, holds)
      modifies this`next, prioQueues, events
      ensures Valid() && State() == Picked(old(State()), old(events.waiting), holds) && next != 0
      ensures (next !in old(events.waiting) || holds(next)) && events.waiting == old(events.waiting) - {next}
    {
      ghost var c, w := State(), events.waiting;
      ghost var i: nat := 0;
      var run := false;
      PolledZero(c, w, holds);
      while !run
        invariant Valid() && i <= TurnsLeft(c, w, holds)
        invariant !run ==> events.waiting == w && State().(next := c.next) == AfterTurns(c, i)
        invariant run ==> State() == Picked(c, w, holds) && next != 0 && (next !in w || holds(next)) && events.waiting == w - {next}
        decreases !run, TurnsLeft(c, w, holds) - i
      {
        run := PollOnce(holds, c, w, i);
        if !run { i := i + 1; }
      }
    }

    /** One turn of the loop. */
    method PollOnce(holds: Thread -> bool, ghost c: Cpu, ghost w: set<Thread>, ghost i: nat) returns (run: bool)
      requires Valid() && Queued(c, priority) && Ends(c, w, holds) && i <= TurnsLeft(c, w, holds)
      requires events.waiting == w && State().(next := c.next) == AfterTurns(c, i)
      modifies this`next, prioQueues, events
      ensures Valid() && (run <==> i == TurnsLeft(c, w, holds))
      ensures !run ==> events.waiting == w && State().(next := c.next) == AfterTurns(c, i + 1)
      ensures run ==> State() == Picked(c, w, holds) && next != 0 && (next !in w || holds(next)) && events.waiting == w - {next}
    {
      TurnPolls(c, w, holds, i);
      var t := SchedulerPick();
      next := t;
      if next == 0 { next := idle; }
      run := SchedCanRun(holds);
      if !run {
        SchedulerPutBack(next);
      }
    }
  }

  /** Number `found` is the first of the least loaded among the first one and those started. */
  ghost predicate LeastLoaded(schedulers: seq<SchedulerUnit>, found: nat)
    reads schedulers
  {
    && found < |schedulers| && (found == 0 || schedulers[found].started)
    && forall i :: 0 <= i < |schedulers| && (i == 0 || schedulers[i].started) ==>
         schedulers[found].load < schedulers[i].load || (schedulers[found].load == schedulers[i].load && found <= i)
  }

  /** The first of the least loaded schedulers among the first one and those started. */
  method SchedulerFind(schedulers: seq<SchedulerUnit>) returns (found: nat)
    requires schedulers != []
    ensures LeastLoaded(schedulers, found)
    ensures found < |schedulers| && (found == 0 || schedulers[found].started)
    ensures forall i :: 0 <= i < |schedulers| && (i == 0 || schedulers[i].started) ==>
              if i < found then schedulers[found].load < schedulers[i].load else schedulers[found].load <= schedulers[i].load
  {
    found := 0;
    var lowest := schedulers[0].load;
    var i := 1;
    while i < |schedulers|
      invariant 1 <= i <= |schedulers| && found < i && lowest == schedulers[found].load
      invariant found == 0 || schedulers[found].started
      invariant forall j :: 0 <= j < i && (j == 0 || schedulers[j].started) ==>
                  lowest < schedulers[j].load || (lowest == schedulers[j].load && found <= j)
    {
      if schedulers[i].started {
        var tmp := schedulers[i].load;
        if tmp < lowest {
          found, lowest := i, tmp;
        }
      }
      i := i + 1;
    }
  }

  /** Two processors' schedulers are different objects with queues of their own. */
  predicate Separate(schedulers: seq<SchedulerUnit>) {
    forall i, j :: 0 <= i < j < |schedulers| ==> schedulers[i] != schedulers[j] && schedulers[i].prioQueues != schedulers[j].prioQueues
  }

  /** A new thread joins the end of its queue on the least loaded processor; the others stay as they are. */
  method SchedThreadReady(schedulers: seq<SchedulerUnit>, thread: Thread) returns (found: nat)
    requires schedulers != [] && forall i :: 0 <= i < |schedulers| ==> schedulers[i].Valid() && thread != schedulers[i].idle
    requires thread != 0 && Separate(schedulers)
    modifies set s | s in schedulers :: s.prioQueues, set s | s in schedulers :: s
    ensures old(LeastLoaded(schedulers, found))
    ensures forall i :: 0 <= i < |schedulers| ==>
              && schedulers[i].Valid() && schedulers[i].started == old(schedulers[i].started)
              && schedulers[i].load == old(schedulers[i].load) + (if i == found then 1 else 0)
              && schedulers[i].State() == if i == found then PutBack(old(schedulers[i].State()), thread, schedulers[i].priority)
                                          else old(schedulers[i].State())
  {
    found := SchedulerFind(schedulers);
    schedulers[found].Take(thread);
  }
}

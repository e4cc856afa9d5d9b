/**
 * kernel/list.c and kernel/locks.c with any number of processors: each step of list_push and
 * list_pop that others can see, in any interleaving, refines an atomic queue.
 */
module ConcurrentQueue {

  type Pointer = nat

  /** Where a processor is in its call; `Left` has its result but has not returned it. */
  datatype At =
    | Idle
    | PushLocking(target: Pointer)
    | PushLinking(target: Pointer)
    | PushCounting(target: Pointer)
    | PushLeaving
    | PopLooking
    | PopLocking
    | PopUnlinking
    | PopCounting(result: Pointer)
    | PopLeaving(result: Pointer)
    | Left(result: Pointer)

  /** The chain of cells is what Queue.List proves it to be: the targets from head to tail. */
  datatype List = List(chain: seq<Pointer>, size: int, lock: bool, cpus: seq<At>)

  datatype Call = Push(target: Pointer) | Pop

  predicate HoldsLock(a: At) {
    a.PushLinking? || a.PushCounting? || a.PushLeaving? || a.PopUnlinking? || a.PopCounting? || a.PopLeaving?
  }

  function Begun(call: Call): At {
    match call
    case Push(target) => PushLocking(target)
    case Pop => PopLooking
  }

  /** The next step of processor c; one that finds the lock taken spins. */
  function Go(s: List, c: nat): List
    requires c < |s.cpus| && s.cpus[c] != Idle
  {
    match s.cpus[c]
    case PushLocking(t) => if s.lock then s else s.(lock := true, cpus := s.cpus[c := PushLinking(t)])
    case PushLinking(t) => s.(chain := s.chain + [t], cpus := s.cpus[c := PushCounting(t)])
    case PushCounting(t) => s.(size := s.size + 1, cpus := s.cpus[c := PushLeaving])
    case PushLeaving => s.(lock := false, cpus := s.cpus[c := Left(0)])
    case PopLooking => s.(cpus := s.cpus[c := if s.size == 0 then Left(0) else PopLocking])
    case PopLocking => if s.lock then s else s.(lock := true, cpus := s.cpus[c := PopUnlinking])
    case PopUnlinking =>
      if s.chain == [] then s.(cpus := s.cpus[c := PopLeaving(0)])
      else s.(chain := s.chain[1..], cpus := s.cpus[c := if s.chain[0] != 0 then PopCounting(s.chain[0]) else PopLeaving(0)])
    case PopCounting(r) => s.(size := s.size - 1, cpus := s.cpus[c := PopLeaving(r)])
    case PopLeaving(r) => s.(lock := false, cpus := s.cpus[c := Left(r)])
    case Left(r) => s.(cpus := s.cpus[c := Idle])
  }

  /** A call begins, or one goes on; targets pushed are not null. */
  ghost predicate Step(s: List, s': List) {
    exists c: nat :: c < |s.cpus| &&
      if s.cpus[c] == Idle
      then exists call: Call :: call != Push(0) && s' == s.(cpus := s.cpus[c := Begun(call)])
      else s' == Go(s, c)
  }

  /** The atomic queue: a call takes effect at one moment between its beginning and its end. */
  datatype Progress = NoCall | Called(call: Call) | Done(result: Pointer)

  datatype Atomic = Atomic(queue: seq<Pointer>, cpus: seq<Progress>)

  /** The moment a call takes effect. */
  function TakeEffect(a: Atomic, c: nat): Atomic
    requires c < |a.cpus| && a.cpus[c].Called?
  {
    match a.cpus[c].call
    case Push(t) => Atomic(a.queue + [t], a.cpus[c := Done(0)])
    case Pop => if a.queue == [] then Atomic([], a.cpus[c := Done(0)])
                else Atomic(a.queue[1..], a.cpus[c := Done(a.queue[0])])
  }

  ghost predicate AtomicStep(a: Atomic, a': Atomic, c: nat) {
    && c < |a.cpus|
    && (|| (a.cpus[c].NoCall? && a'.queue == a.queue && exists call: Call :: a'.cpus == a.cpus[c := Called(call)])
        || (a.cpus[c].Called? && a' == TakeEffect(a, c))
        || (a.cpus[c].Done? && a' == a.(cpus := a.cpus[c := NoCall])))
  }

  /** How far a call has come: pushes take effect when they count, pops when they count or find nothing. */
  function ProgressOf(p: At): Progress {
    match p
    case Idle => NoCall
    case PushLocking(t) => Called(Push(t))
    case PushLinking(t) => Called(Push(t))
    case PushCounting(t) => Called(Push(t))
    case PushLeaving => Done(0)
    case PopLooking => Called(Pop)
    case PopLocking => Called(Pop)
    case PopUnlinking => Called(Pop)
    case PopCounting(_) => Called(Pop)
    case PopLeaving(r) => Done(r)
    case Left(r) => Done(r)
  }

  function Progresses(cpus: seq<At>): (p: seq<Progress>)
    ensures |p| == |cpus| && forall c :: 0 <= c < |cpus| ==> p[c] == ProgressOf(cpus[c])
  {
    seq(|cpus|, c requires 0 <= c < |cpus| => ProgressOf(cpus[c]))
  }

  /** What the chain and the counted elements have to do with each other while processor c works on them. */
  predicate Counts(chain: seq<Pointer>, queue: seq<Pointer>, p: At) {
    match p
    case PushCounting(t) => chain == queue + [t]
    case PopCounting(r) => queue == [r] + chain && r != 0
    case _ => chain == queue
  }

  /** The lock has one holder or none, only it is amid a change, and `size` counts the queue. */
  ghost predicate Inv(s: List, queue: seq<Pointer>) {
    && (forall c, d :: 0 <= c < |s.cpus| && 0 <= d < |s.cpus| && HoldsLock(s.cpus[c]) && HoldsLock(s.cpus[d]) ==> c == d)
    && (s.lock <==> exists c :: 0 <= c < |s.cpus| && HoldsLock(s.cpus[c]))
    && s.size == |queue| && 0 !in queue
    && (!s.lock ==> s.chain == queue)
    && (forall c :: 0 <= c < |s.cpus| && HoldsLock(s.cpus[c]) ==> Counts(s.chain, queue, s.cpus[c]))
    && (forall c :: 0 <= c < |s.cpus| ==> s.cpus[c] != PushLocking(0) && s.cpus[c] != PushLinking(0) && s.cpus[c] != PushCounting(0))
  }

  /** The atomic queue that a state stands for. */
  function Abstract(s: List, queue: seq<Pointer>): Atomic {
    Atomic(queue, Progresses(s.cpus))
  }

  /** The atomic queue after a step of processor c: a step that counts changes it. */
  function QueueAfter(s: List, c: nat, queue: seq<Pointer>): seq<Pointer>
    requires c < |s.cpus| && (s.cpus[c].PopCounting? ==> queue != [])
  {
    match s.cpus[c]
    case PushCounting(t) => queue + [t]
    case PopCounting(r) => queue[1..]
    case _ => queue
  }

  /** Outside the lock a processor changes nothing but its own progress. */
  lemma OutsideInv(s: List, c: nat, queue: seq<Pointer>)
    requires Inv(s, queue) && c < |s.cpus|
    requires s.cpus[c].PopLooking? || s.cpus[c].Left?
    ensures Inv(Go(s, c), queue)
  {
    var s' := Go(s, c);
    assert !HoldsLock(s.cpus[c]) && !HoldsLock(s'.cpus[c]);
    assert forall d :: 0 <= d < |s.cpus| ==> HoldsLock(s'.cpus[d]) == HoldsLock(s.cpus[d]);
  }

  /** The compare-and-swap lets one processor in. */
  lemma EnteringInv(s: List, c: nat, queue: seq<Pointer>)
    requires Inv(s, queue) && c < |s.cpus|
    requires s.cpus[c].PushLocking? || s.cpus[c].PopLocking?
    ensures Inv(Go(s, c), queue)
  {
    var s' := Go(s, c);
    if !s.lock {
      assert forall d :: 0 <= d < |s.cpus| ==> !HoldsLock(s.cpus[d]);
      assert HoldsLock(s'.cpus[c]);
    }
  }

  lemma LeavingInv(s: List, c: nat, queue: seq<Pointer>)
    requires Inv(s, queue) && c < |s.cpus|
    requires s.cpus[c].PushLeaving? || s.cpus[c].PopLeaving?
    ensures Inv(Go(s, c), queue)
  {
  }

  /** The holder of the lock is alone. */
  lemma InsideInv(s: List, c: nat, queue: seq<Pointer>)
    requires Inv(s, queue) && c < |s.cpus| && HoldsLock(s.cpus[c])
    requires !s.cpus[c].PushLeaving? && !s.cpus[c].PopLeaving?
    ensures s.cpus[c].PopCounting? ==> queue != []
    ensures Inv(Go(s, c), QueueAfter(s, c, queue))
  {
    assert s.lock && Counts(s.chain, queue, s.cpus[c]);
    assert forall d :: 0 <= d < |s.cpus| && d != c ==> !HoldsLock(s.cpus[d]);
    var s', queue' := Go(s, c), QueueAfter(s, c, queue);
    assert HoldsLock(s'.cpus[c]) && Counts(s'.chain, queue', s'.cpus[c]);
    assert 0 !in queue' && s'.size == |queue'|;
  }

  lemma GoInv(s: List, c: nat, queue: seq<Pointer>)
    requires Inv(s, queue) && c < |s.cpus| && s.cpus[c] != Idle
    ensures s.cpus[c].PopCounting? ==> queue != []
    ensures Inv(Go(s, c), QueueAfter(s, c, queue))
  {
    match s.cpus[c]
    case PopLooking => OutsideInv(s, c, queue);
    case Left(_) => OutsideInv(s, c, queue);
    case PushLocking(_) => EnteringInv(s, c, queue);
    case PopLocking => EnteringInv(s, c, queue);
    case PushLeaving => LeavingInv(s, c, queue);
    case PopLeaving(_) => LeavingInv(s, c, queue);
    case _ => InsideInv(s, c, queue);
  }

  /** Each step of a processor is one of the atomic queue, by the same processor, or is not seen there. */
  lemma GoRefines(s: List, c: nat, queue: seq<Pointer>)
    requires Inv(s, queue) && c < |s.cpus| && s.cpus[c] != Idle
    ensures s.cpus[c].PopCounting? ==> queue != []
    ensures var a, a' := Abstract(s, queue), Abstract(Go(s, c), QueueAfter(s, c, queue));
            a' == a || AtomicStep(a, a', c)
  {
    if HoldsLock(s.cpus[c]) { assert Counts(s.chain, queue, s.cpus[c]); }
    var s' := Go(s, c);
    var a, a' := Abstract(s, queue), Abstract(s', QueueAfter(s, c, queue));
    assert forall d :: 0 <= d < |s.cpus| && d != c ==> s'.cpus[d] == s.cpus[d];
    assert a'.cpus == a.cpus[c := ProgressOf(s'.cpus[c])];
    if ProgressOf(s'.cpus[c]) == ProgressOf(s.cpus[c]) {
      assert a'.cpus == a.cpus;
    }
  }

  lemma BeginRefines(s: List, c: nat, call: Call, queue: seq<Pointer>)
    requires Inv(s, queue) && c < |s.cpus| && s.cpus[c] == Idle && call != Push(0)
    ensures var s' := s.(cpus := s.cpus[c := Begun(call)]);
            Inv(s', queue) && AtomicStep(Abstract(s, queue), Abstract(s', queue), c)
  {
    var s' := s.(cpus := s.cpus[c := Begun(call)]);
    assert forall d :: 0 <= d < |s.cpus| ==> HoldsLock(s'.cpus[d]) == HoldsLock(s.cpus[d]);
    assert Abstract(s', queue) == Abstract(s, queue).(cpus := Abstract(s, queue).cpus[c := Called(call)]);
  }

  ghost predicate AtomicMoment(a: Atomic, a': Atomic) {
    a' == a || exists c: nat :: AtomicStep(a, a', c)
  }

  /** A run of the atomic queue, in which some moments may pass without a step. */
  ghost predicate AtomicRun(run: seq<Atomic>, n: nat) {
    && run != [] && run[0] == Atomic([], seq(n, _ => NoCall))
    && forall i :: 0 <= i < |run| - 1 ==> AtomicMoment(run[i], run[i + 1])
  }

  ghost predicate ListRun(run: seq<List>, n: nat) {
    && run != [] && run[0] == List([], 0, false, seq(n, _ => Idle))
    && forall i :: 0 <= i < |run| - 1 ==> Step(run[i], run[i + 1])
  }

  /**
   * Linearizability: every run has a run of the atomic queue beside it, in which each call takes
   * effect between its beginning and its end and has the same result.
   */
  lemma {:induction false} Linearizable(run: seq<List>, n: nat) returns (atomic: seq<Atomic>)
    requires ListRun(run, n)
    ensures AtomicRun(atomic, n) && Beside(run, atomic)
    ensures |atomic| == |run| && forall i :: 0 <= i < |run| ==> atomic[i].cpus == Progresses(run[i].cpus)
    decreases |run|
  {
    if |run| == 1 {
      atomic := [Abstract(run[0], [])];
      assert Progresses(run[0].cpus) == seq(n, _ => NoCall);
    } else {
      var k := |run| - 1;
      var before := Linearizable(run[..k], n);
      var s, s', a := run[k - 1], run[k], before[k - 1];
      assert Step(run[k - 1], run[k - 1 + 1]) && s == run[..k][k - 1];
      var a' := StepRefines(s, s', a.queue);
      assert a == Abstract(s, a.queue);
      atomic := OneMomentMore(before, a', n);
      BesideMore(run, before, a', k);
    }
  }

  /** At every moment the calls are as far in both, and the queue is what the list holds or is about to. */
  ghost predicate Beside(run: seq<List>, atomic: seq<Atomic>) {
    && |atomic| == |run|
    && forall i :: 0 <= i < |run| ==> atomic[i].cpus == Progresses(run[i].cpus) && Inv(run[i], atomic[i].queue)
  }

  lemma BesideMore(run: seq<List>, before: seq<Atomic>, a': Atomic, k: nat)
    requires |run| == k + 1 && Beside(run[..k], before) && a'.cpus == Progresses(run[k].cpus) && Inv(run[k], a'.queue)
    ensures Beside(run, before + [a'])
  {
    forall i | 0 <= i < |run|
      ensures (before + [a'])[i].cpus == Progresses(run[i].cpus) && Inv(run[i], (before + [a'])[i].queue)
    {
      if i < k { assert run[..k][i] == run[i]; }
    }
  }

  lemma OneMomentMore(before: seq<Atomic>, a': Atomic, n: nat) returns (atomic: seq<Atomic>)
    requires AtomicRun(before, n) && AtomicMoment(before[|before| - 1], a')
    ensures AtomicRun(atomic, n) && atomic == before + [a']
  {
    atomic := before + [a'];
  }

  lemma StepRefines(s: List, s': List, queue: seq<Pointer>) returns (a': Atomic)
    requires Inv(s, queue) && Step(s, s')
    ensures a'.cpus == Progresses(s'.cpus) && Inv(s', a'.queue)
    ensures AtomicMoment(Abstract(s, queue), a')
  {
    var c: nat :| c < |s.cpus| &&
      if s.cpus[c] == Idle
      then exists call: Call :: call != Push(0) && s' == s.(cpus := s.cpus[c := Begun(call)])
      else s' == Go(s, c);
    if s.cpus[c] == Idle {
      var call: Call :| call != Push(0) && s' == s.(cpus := s.cpus[c := Begun(call)]);
      BeginRefines(s, c, call, queue);
      a' := Abstract(s', queue);
    } else {
      GoInv(s, c, queue);
      GoRefines(s, c, queue);
      a' := Abstract(s', QueueAfter(s, c, queue));
    }
  }

  /** At most one processor holds the lock, in every state a run reaches. */
  lemma MutualExclusion(run: seq<List>, n: nat, c: nat, d: nat)
    requires ListRun(run, n)
    requires c < |run[|run| - 1].cpus| && d < |run[|run| - 1].cpus|
    requires HoldsLock(run[|run| - 1].cpus[c]) && HoldsLock(run[|run| - 1].cpus[d])
    ensures c == d
  {
    var atomic := Linearizable(run, n);
  }

  /** Processor c's call takes effect between two moments. */
  predicate Effective(before: seq<Progress>, after: seq<Progress>, c: nat) {
    c < |before| == |after| && before[c].Called? && after[c].Done?
  }

  /** The target of the push that takes effect between two moments, if one does. */
  ghost function PushedAt(before: seq<Progress>, after: seq<Progress>): seq<Pointer> {
    if c: nat :| Effective(before, after, c) && before[c].call.Push? then [before[c].call.target] else []
  }

  /** The target that a pop gets that takes effect between two moments, if one does and finds any. */
  ghost function PoppedAt(before: seq<Progress>, after: seq<Progress>): seq<Pointer> {
    if c: nat :| Effective(before, after, c) && before[c].call.Pop? && after[c].result != 0 then [after[c].result] else []
  }

  ghost function Pushed(moments: seq<seq<Progress>>): seq<Pointer> {
    if |moments| < 2 then [] else Pushed(moments[..|moments| - 1]) + PushedAt(moments[|moments| - 2], moments[|moments| - 1])
  }

  ghost function Popped(moments: seq<seq<Progress>>): seq<Pointer> {
    if |moments| < 2 then [] else Popped(moments[..|moments| - 1]) + PoppedAt(moments[|moments| - 2], moments[|moments| - 1])
  }

  /** How far every processor is, at every moment of a run. */
  function Moments(run: seq<List>): (moments: seq<seq<Progress>>)
    ensures |moments| == |run| && forall i :: 0 <= i < |run| ==> moments[i] == Progresses(run[i].cpus)
  {
    seq(|run|, i requires 0 <= i < |run| => Progresses(run[i].cpus))
  }

  /** One step of the atomic queue: what is pushed joins at its end, what is popped was at its head. */
  lemma StepInOrder(a: Atomic, a': Atomic)
    requires AtomicMoment(a, a') && 0 !in a.queue && 0 !in a'.queue
    ensures a.queue + PushedAt(a.cpus, a'.cpus) == PoppedAt(a.cpus, a'.cpus) + a'.queue
  {
    if a' != a {
      var c: nat :| AtomicStep(a, a', c);
      assert forall d: nat :: d < |a.cpus| && d != c ==> a'.cpus[d] == a.cpus[d];
      assert forall d: nat :: Effective(a.cpus, a'.cpus, d) ==> d == c;
      if a.cpus[c].Called? {
        assert Effective(a.cpus, a'.cpus, c);
      }
    }
  }

  /**
   * First in, first out: over every run the targets that pops got are, in this order, the first of those
   * pushed, in the order in which calls took effect, and the others are what the list holds.
   */
  lemma FirstInFirstOut(run: seq<List>, n: nat) returns (queue: seq<Pointer>)
    requires ListRun(run, n)
    ensures Popped(Moments(run)) + queue == Pushed(Moments(run))
    ensures run[|run| - 1].size == |queue| && (!run[|run| - 1].lock ==> run[|run| - 1].chain == queue)
  {
    var atomic := Linearizable(run, n);
    InOrder(run, atomic, n);
    queue := atomic[|run| - 1].queue;
  }

  lemma {:induction false} InOrder(run: seq<List>, atomic: seq<Atomic>, n: nat)
    requires AtomicRun(atomic, n) && |atomic| == |run|
    requires forall i :: 0 <= i < |run| ==> atomic[i].cpus == Progresses(run[i].cpus) && 0 !in atomic[i].queue
    ensures Popped(Moments(run)) + atomic[|run| - 1].queue == Pushed(Moments(run))
    decreases |run|
  {
    if |run| > 1 {
      var k := |run| - 1;
      var ms := Moments(run);
      InOrder(run[..k], atomic[..k], n);
      assert Moments(run[..k]) == ms[..k];
      assert AtomicMoment(atomic[k - 1], atomic[k - 1 + 1]);
      StepInOrder(atomic[k - 1], atomic[k]);
      Regrouped(Popped(ms[..k]), PoppedAt(ms[k - 1], ms[k]), atomic[k].queue, atomic[k - 1].queue, PushedAt(ms[k - 1], ms[k]), Pushed(ms[..k]));
    }
  }

  lemma Regrouped(popped: seq<Pointer>, out: seq<Pointer>, queue': seq<Pointer>, queue: seq<Pointer>, into: seq<Pointer>, pushed: seq<Pointer>)
    requires popped + queue == pushed && queue + into == out + queue'
    ensures popped + out + queue' == pushed + into
  {
    assert popped + out + queue' == popped + (out + queue');
    assert popped + (queue + into) == popped + queue + into;
  }
}

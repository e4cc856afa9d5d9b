/** When the token ring can lock up: never, while there are fewer than 32 frames to a node. */
module TokenRingDeadlock {
  import opened Streams
  import opened TokenRing

  predicate Deadlocked(r: Ring) {
    Shaped(r) && forall j :: 0 <= j < |r.nodes| ==> !Enabled(r, j)
  }

  /** The bytes in the hands of the first k nodes and in the streams they write to. */
  function BytesUpTo(r: Ring, k: nat): nat
    requires Shaped(r) && k <= |r.nodes|
  {
    if k == 0 then 0 else BytesUpTo(r, k - 1) + Held(r.nodes[k - 1]) + |r.streams[After(r, k - 1)]|
  }

  lemma {:induction false} BytesTelescope(r: Ring, k: nat)
    requires RingInv(r) && 1 <= k <= |r.nodes|
    ensures BytesUpTo(r, k) == FRAME * |r.frames| + r.nodes[0].got - r.nodes[After(r, k - 1)].got
  {
    assert NodeInv(r.frames, k - 1, r.nodes[k - 1]) && Linked(r, k - 1);
    if k > 1 {
      BytesTelescope(r, k - 1);
    } else {
      assert BytesUpTo(r, 0) == 0;
    }
  }

  /** Conservation: unsent, held and waiting bytes are always the bytes of the frames. */
  lemma BytesConserved(r: Ring)
    requires RingInv(r)
    ensures BytesUpTo(r, |r.nodes|) == FRAME * |r.frames|
  {
    BytesTelescope(r, |r.nodes|);
  }

  function Before(r: Ring, k: nat): (j: nat)
    requires k < |r.nodes|
    ensures j < |r.nodes| && After(r, j) == k
  {
    if k == 0 then |r.nodes| - 1 else k - 1
  }

  /** In a deadlock, a node that waits for bytes has before it another that does. */
  lemma ReadingSpreads(r: Ring, k: nat)
    requires Deadlocked(r) && k < |r.nodes| && !r.nodes[k].writing
    ensures !r.nodes[Before(r, k)].writing
  {
    assert !Enabled(r, k) && !Enabled(r, Before(r, k));
  }

  lemma {:induction false} ReadingBelow(r: Ring, k: nat, j: nat)
    requires Deadlocked(r) && j <= k < |r.nodes| && !r.nodes[k].writing
    ensures !r.nodes[j].writing
    decreases k
  {
    if j < k {
      ReadingSpreads(r, k);
      ReadingBelow(r, k - 1, j);
    }
  }

  /** So in a deadlock all nodes wait for bytes, or all wait for room. */
  lemma AllAlike(r: Ring, k: nat, j: nat)
    requires Deadlocked(r) && k < |r.nodes| && j < |r.nodes| && !r.nodes[k].writing
    ensures !r.nodes[j].writing
  {
    ReadingBelow(r, k, 0);
    ReadingSpreads(r, 0);
    ReadingBelow(r, |r.nodes| - 1, j);
  }

  /** A node that waits for bytes on an empty stream has none in its hands: frames never part. */
  lemma EmptyHanded(r: Ring, k: nat)
    requires RingInv(r) && k < |r.nodes| && !r.nodes[k].writing && !r.nodes[Before(r, k)].writing && r.streams[k] == []
    ensures Held(r.nodes[k]) == 0
  {
    assert NodeInv(r.frames, k, r.nodes[k]) && NodeInv(r.frames, Before(r, k), r.nodes[Before(r, k)]);
    assert Linked(r, Before(r, k));
  }

  /** A node that waits for room behind one that does has at least two bytes in its hands. */
  lemma FullHanded(r: Ring, j: nat)
    requires RingInv(r) && j < |r.nodes| && r.nodes[j].writing && r.nodes[After(r, j)].writing
    requires |r.streams[After(r, j)]| == CAPACITY
    ensures Held(r.nodes[j]) >= 2
  {
    assert NodeInv(r.frames, j, r.nodes[j]) && NodeInv(r.frames, After(r, j), r.nodes[After(r, j)]);
    assert Linked(r, j);
  }

  lemma {:induction false} NoBytes(r: Ring, k: nat)
    requires RingInv(r) && Deadlocked(r) && k <= |r.nodes| && forall j :: 0 <= j < |r.nodes| ==> !r.nodes[j].writing
    ensures BytesUpTo(r, k) == 0
  {
    if k > 0 {
      NoBytes(r, k - 1);
      assert !Enabled(r, k - 1) && !Enabled(r, After(r, k - 1)) && !Enabled(r, Before(r, k - 1));
      EmptyHanded(r, k - 1);
    }
  }

  lemma {:induction false} ManyBytes(r: Ring, k: nat)
    requires RingInv(r) && Deadlocked(r) && k <= |r.nodes| && forall j :: 0 <= j < |r.nodes| ==> r.nodes[j].writing
    ensures BytesUpTo(r, k) >= 1024 * k
  {
    if k > 0 {
      ManyBytes(r, k - 1);
      assert !Enabled(r, k - 1) && Linked(r, k - 1);
      FullHanded(r, k - 1);
    }
  }

  /** Deadlock freedom: with at least one frame, and fewer than 32 to a node, some node can always go on. */
  lemma NoDeadlock(r: Ring)
    requires RingInv(r) && 1 <= |r.frames| < 32 * |r.nodes|
    ensures !Deadlocked(r)
  {
    if Deadlocked(r) {
      BytesConserved(r);
      if k :| 0 <= k < |r.nodes| && !r.nodes[k].writing {
        forall j | 0 <= j < |r.nodes|
          ensures !r.nodes[j].writing
        {
          AllAlike(r, k, j);
        }
        NoBytes(r, |r.nodes|);
      } else {
        ManyBytes(r, |r.nodes|);
      }
    }
  }

  /** While node 0 has read nothing, the others cannot get far ahead of it. */
  lemma {:induction false} GotBound(r: Ring, j: nat)
    requires RingInv(r) && r.nodes[0].got == 0 && 1 <= j <= |r.nodes|
    ensures (if j == |r.nodes| then r.nodes[0].got else r.nodes[j].got) <= 1024 * (|r.nodes| - j)
    decreases |r.nodes| - j
  {
    if j < |r.nodes| {
      GotBound(r, j + 1);
      assert NodeInv(r.frames, j, r.nodes[j]) && Linked(r, j);
      OneFrameAhead(r.nodes[j].put, r.nodes[j].pos, |r.nodes| - j - 1);
    }
  }

  /** A node reads at most to the end of the frame that it can write only in part. */
  lemma OneFrameAhead(put: nat, pos: nat, m: nat)
    requires put <= 1024 * m + CAPACITY && pos < FRAME
    ensures put % FRAME == pos ==> put - pos + FRAME <= 1024 * (m + 1)
    ensures put % FRAME == 0 ==> put + pos <= 1024 * (m + 1)
  {
    var q := put / 32;
    assert put == 32 * q + put % 32;
    assert q <= 32 * m + 31;
  }

  /** With 32 frames or more to a node, node 0 has not written all of them while it has read nothing. */
  lemma NotYetInjected(r: Ring)
    requires RingInv(r) && r.nodes[0].got == 0 && |r.frames| >= 32 * |r.nodes|
    ensures r.nodes[0].toInject > 0
  {
    GotBound(r, 1);
    assert NodeInv(r.frames, 0, r.nodes[0]) && Linked(r, 0);
    assert r.nodes[0].put <= 1024 * (|r.nodes| - 1) + CAPACITY;
  }

  /** Every node has moved a bounded number of bytes then. */
  lemma MovesBound(r: Ring, j: nat)
    requires RingInv(r) && r.nodes[0].got == 0 && j < |r.nodes|
    ensures r.nodes[j].got + r.nodes[j].put <= 2048 * |r.nodes|
  {
    if j > 0 { GotBound(r, j); }
    GotBound(r, j + 1);
    assert Linked(r, j);
  }

  /** The bytes read and written by the first k nodes so far. */
  function MovesUpTo(r: Ring, k: nat): nat
    requires k <= |r.nodes|
  {
    if k == 0 then 0 else MovesUpTo(r, k - 1) + r.nodes[k - 1].got + r.nodes[k - 1].put
  }

  lemma {:induction false} MovesUpToBound(r: Ring, k: nat)
    requires RingInv(r) && r.nodes[0].got == 0 && k <= |r.nodes|
    ensures MovesUpTo(r, k) <= 2048 * |r.nodes| * k
  {
    if k > 0 {
      MovesUpToBound(r, k - 1);
      MovesBound(r, k - 1);
      assert 2048 * |r.nodes| * k == 2048 * |r.nodes| * (k - 1) + 2048 * |r.nodes|;
    }
  }

  lemma {:induction false} MoveCounts(r: Ring, j: nat, k: nat)
    requires Shaped(r) && j < |r.nodes| && Enabled(r, j) && k <= |r.nodes|
    ensures MovesUpTo(Move(r, j), k) == MovesUpTo(r, k) + if j < k then 1 else 0
  {
    if k > 0 { MoveCounts(r, j, k - 1); }
  }

  lemma {:induction false} NoMovesYet(r: Ring, k: nat)
    requires Initial(r) && k <= |r.nodes|
    ensures MovesUpTo(r, k) == 0
  {
    if k > 0 { NoMovesYet(r, k - 1); }
  }

  /** What a run reaches: the invariant, the frames it began with, and one byte moved for each step. */
  lemma {:induction false} Reached(run: seq<Ring>)
    requires IsRun(run)
    ensures var r := run[|run| - 1];
            && RingInv(r) && Content(r) && r.frames == run[0].frames && |r.nodes| == |run[0].nodes|
            && MovesUpTo(r, |r.nodes|) == |run| - 1
            && (|r.frames| >= 32 * |r.nodes| ==> r.nodes[0].got == 0)
    decreases |run|
  {
    var r := run[|run| - 1];
    if |run| == 1 {
      InitialInv(r);
      InitialContent(r);
      NoMovesYet(r, |r.nodes|);
    } else {
      var before := run[..|run| - 1];
      var b := run[|run| - 2];
      assert before[|before| - 1] == b;
      Reached(before);
      assert Stepped(run[|run| - 2], run[|run| - 2 + 1]);
      StepReached(b, r);
    }
  }

  lemma StepReached(b: Ring, r: Ring)
    requires RingInv(b) && Content(b) && Stepped(b, r)
    ensures RingInv(r) && Content(r) && r.frames == b.frames && |r.nodes| == |b.nodes|
    ensures MovesUpTo(r, |r.nodes|) == MovesUpTo(b, |b.nodes|) + 1
    ensures |b.frames| >= 32 * |b.nodes| && b.nodes[0].got == 0 ==> r.nodes[0].got == 0
  {
    var j :| 0 <= j < |b.nodes| && Enabled(b, j) && r == Move(b, j);
    MoveContent(b, j);
    assert MovesUpTo(r, |r.nodes|) == MovesUpTo(b, |b.nodes|) + 1 by { MoveCounts(b, j, |b.nodes|); }
    if |b.frames| >= 32 * |b.nodes| && b.nodes[0].got == 0 {
      NotYetInjected(b);
      assert NodeInv(b.frames, 0, b.nodes[0]);
    }
  }

  /** A run that is not stuck can go on. */
  lemma GoesOn(run: seq<Ring>) returns (more: seq<Ring>)
    requires IsRun(run) && !Deadlocked(run[|run| - 1])
    ensures IsRun(more) && |more| == |run| + 1 && run <= more
  {
    Reached(run);
    var r := run[|run| - 1];
    var j :| 0 <= j < |r.nodes| && Enabled(r, j);
    more := run + [Move(r, j)];
    forall i | 0 <= i < |more| - 1
      ensures Stepped(more[i], more[i + 1])
    {
      if i < |run| - 1 { assert Stepped(run[i], run[i + 1]); }
    }
  }

  /** With 32 frames or more to a node, node 0 never gets all of them written, in no state that a run reaches. */
  lemma NeverInjected(run: seq<Ring>)
    requires IsRun(run) && |run[0].frames| >= 32 * |run[0].nodes|
    ensures run[|run| - 1].nodes != [] && run[|run| - 1].nodes[0].toInject > 0
  {
    Reached(run);
    NotYetInjected(run[|run| - 1]);
  }

  /** So no run goes on for ever. */
  lemma RunsAreBounded(run: seq<Ring>)
    requires IsRun(run) && |run[0].frames| >= 32 * |run[0].nodes|
    ensures |run| <= 2048 * |run[0].nodes| * |run[0].nodes| + 1
  {
    Reached(run);
    var r := run[|run| - 1];
    MovesUpToBound(r, |r.nodes|);
  }

  /** Every run goes on to a deadlock. */
  lemma {:induction false} EndsInDeadlock(run: seq<Ring>) returns (full: seq<Ring>)
    requires IsRun(run) && |run[0].frames| >= 32 * |run[0].nodes|
    ensures IsRun(full) && run <= full && Deadlocked(full[|full| - 1])
    decreases 2048 * |run[0].nodes| * |run[0].nodes| + 1 - |run|
  {
    RunsAreBounded(run);
    if Deadlocked(run[|run| - 1]) {
      full := run;
    } else {
      var more := GoesOn(run);
      RunsAreBounded(more);
      full := EndsInDeadlock(more);
    }
  }

  /** With no frame at all the ring is stuck from the start. */
  lemma NoFramesNoMoves(r: Ring)
    requires Initial(r) && r.frames == []
    ensures Deadlocked(r)
  {
  }

  ghost predicate DeadlockFree(start: Ring) {
    forall run :: IsRun(run) && run[0] == start ==> !Deadlocked(run[|run| - 1])
  }

  /** The ring cannot lock up if and only if it has at least one frame and fewer than 32 to a node. */
  lemma DeadlockFreeExactly(start: Ring)
    requires Initial(start)
    ensures DeadlockFree(start) <==> 1 <= |start.frames| < 32 * |start.nodes|
  {
    if 1 <= |start.frames| < 32 * |start.nodes| {
      forall run | IsRun(run) && run[0] == start
        ensures !Deadlocked(run[|run| - 1])
      {
        Reached(run);
        NoDeadlock(run[|run| - 1]);
      }
    } else if start.frames == [] {
      NoFramesNoMoves(start);
      assert IsRun([start]);
    } else {
      var full := EndsInDeadlock([start]);
    }
  }

  /** In every state a run reaches, the frame that a node is about to pass on is one of those injected. */
  lemma FramesIntact(run: seq<Ring>, j: nat)
    requires IsRun(run) && j < |run[|run| - 1].nodes|
    requires run[|run| - 1].nodes[j].writing
    ensures run[|run| - 1].nodes[j].buf in run[0].frames
  {
    Reached(run);
    var r := run[|run| - 1];
    var n := r.nodes[j];
    assert NodeInv(r.frames, j, n);
    assert |run| > 1 ==> Stepped(run[0], run[0 + 1]);
    if r.frames == [] {
      NoFramesNoMoves(run[0]);
      assert false;
    }
    assert NodeContent(r.frames, n);
    var k := (n.put - n.pos) / FRAME;
    FrameContinues(r.frames, k);
    var f := r.frames[k % |r.frames|];
    assert n.put - n.pos == FRAME * k;
    forall i | 0 <= i < FRAME
      ensures n.buf[i] == f[i]
    {
      assert n.buf[i] == Token(r.frames, FRAME * k + i) == f[i];
    }
    assert n.buf == f;
  }
}

/**
 * The token ring on the lock-free streams of kernel/stream.c, one shared access at a time: it moves
 * the bytes that the ring protocol moves, and locks up exactly when the protocol can.
 */
module TokenChannels {
  import opened MachineTypes
  import opened Streams
  import opened TokenRing
  import opened TokenRingDeadlock

  /** Node j reads from channel j and writes to the next one; its `pos` and `buf` count whole bytes. */
  datatype Wired = Wired(frames: seq<Frame>, nodes: seq<Node>, channels: seq<Channel>)

  /** What is left to write of a node's buffer. */
  function Unsent(n: Node): seq<uint8>
    requires n.pos < FRAME
  {
    if n.writing then n.buf[n.pos..] else []
  }

  /** A node and the channels it is at the ends of. */
  ghost predicate WiredAt(w: Wired, j: nat)
    requires j < |w.nodes| == |w.channels|
  {
    && Inv(w.channels[j]) && w.nodes[j].pos < FRAME && w.nodes[j].toInject <= |w.frames|
    && w.channels[Around(|w.nodes|, j)].toSend == Unsent(w.nodes[j])
    && (w.nodes[j].writing ==> w.channels[j].consumer == Polling)
  }

  ghost predicate WiredInv(w: Wired) {
    |w.channels| == |w.nodes| >= 1 && forall j :: 0 <= j < |w.nodes| ==> WiredAt(w, j)
  }

  /** A node that writes, after an access: a byte that is published is gone from its hands. */
  function NodeWritten(frames: seq<Frame>, n: Node, c: Channel): Node
    requires n.toInject <= |frames|
  {
    if c.producer == Publishing then ByteWritten(frames, n) else n
  }

  /** A node that reads, after an access: with the last byte of a frame it begins to write it on. */
  function NodeRead(n: Node, c: Channel): Node
    requires n.pos < FRAME && c.read < |c.buf|
  {
    if c.consumer == Loading then ByteRead(n, c.buf[c.read]) else n
  }

  lemma Written(frames: seq<Frame>, n: Node, c: Channel)
    requires Inv(c) && n.writing && n.pos < FRAME && n.toInject <= |frames| && c.toSend == Unsent(n)
    ensures var n' := NodeWritten(frames, n, c);
            && n'.pos < FRAME && n'.toInject <= |frames|
            && Inv(Produce(c).(toSend := Unsent(n'))) && Produce(c).consumer == c.consumer
  {
    ProduceInv(c);
    assert c.producer != Publishing || n.pos + 1 < FRAME ==> Produce(c).toSend == Unsent(NodeWritten(frames, n, c));
  }

  lemma Read(n: Node, c: Channel)
    requires Inv(c) && !n.writing && n.pos < FRAME
    ensures Inv(Consume(c)) && Consume(c).toSend == c.toSend && Consume(c).producer == c.producer
    ensures var n' := NodeRead(n, c);
            n'.pos < FRAME && n'.toInject == n.toInject && (n'.writing ==> Consume(c).consumer == Polling)
  {
    ConsumeInv(c);
  }

  /** Who has nothing to write may be given something. */
  lemma Refilled(c: Channel, bytes: seq<uint8>)
    requires Inv(c) && c.toSend == []
    ensures Inv(c.(toSend := bytes))
  {
  }

  ghost function WriteAccess(w: Wired, j: nat): Wired
    requires WiredInv(w) && j < |w.nodes| && w.nodes[j].writing
  {
    assert WiredAt(w, j) && WiredAt(w, Around(|w.nodes|, j));
    var k := Around(|w.nodes|, j);
    Written(w.frames, w.nodes[j], w.channels[k]);
    var n := NodeWritten(w.frames, w.nodes[j], w.channels[k]);
    Wired(w.frames, w.nodes[j := n], w.channels[k := Produce(w.channels[k]).(toSend := Unsent(n))])
  }

  ghost function ReadAccess(w: Wired, j: nat): Wired
    requires WiredInv(w) && j < |w.nodes| && !w.nodes[j].writing
  {
    assert WiredAt(w, j);
    Read(w.nodes[j], w.channels[j]);
    var n, channels, k := NodeRead(w.nodes[j], w.channels[j]), w.channels[j := Consume(w.channels[j])], Around(|w.nodes|, j);
    Wired(w.frames, w.nodes[j := n], channels[k := channels[k].(toSend := Unsent(n))])
  }

  /** The next access of node j to the channel that it is writing to or reading from. */
  ghost function Access(w: Wired, j: nat): Wired
    requires WiredInv(w) && j < |w.nodes|
  {
    if w.nodes[j].writing then WriteAccess(w, j) else ReadAccess(w, j)
  }

  /** Between the move of `read` and the load the protocol has the byte in the node's hands already. */
  function NodeNow(n: Node, c: Channel): Node {
    if c.consumer == Loading && 0 < c.taken <= |c.sent| && n.pos < FRAME then ByteRead(n, c.sent[c.taken - 1]) else n
  }

  function WaitingIn(c: Channel): seq<uint8> {
    if c.taken <= |c.sent| then c.sent[c.taken..] else []
  }

  function NodesNow(w: Wired): (nodes: seq<Node>)
    requires |w.channels| == |w.nodes|
    ensures |nodes| == |w.nodes| && forall j :: 0 <= j < |nodes| ==> nodes[j] == NodeNow(w.nodes[j], w.channels[j])
  {
    seq(|w.nodes|, j requires 0 <= j < |w.nodes| => NodeNow(w.nodes[j], w.channels[j]))
  }

  function AllWaiting(w: Wired): (streams: seq<seq<uint8>>)
    ensures |streams| == |w.channels| && forall j :: 0 <= j < |streams| ==> streams[j] == WaitingIn(w.channels[j])
  {
    seq(|w.channels|, j requires 0 <= j < |w.channels| => WaitingIn(w.channels[j]))
  }

  /** The ring of whole bytes that the channels stand for. */
  function RingOf(w: Wired): Ring
    requires |w.channels| == |w.nodes|
  {
    Ring(w.frames, NodesNow(w), AllWaiting(w))
  }

  lemma RingShaped(w: Wired)
    requires WiredInv(w)
    ensures Shaped(RingOf(w)) && forall j :: 0 <= j < |w.nodes| ==> After(RingOf(w), j) == Around(|w.nodes|, j)
  {
    forall j | 0 <= j < |w.nodes|
      ensures RingOf(w).nodes[j].pos < FRAME && RingOf(w).nodes[j].toInject <= |w.frames|
    {
      assert WiredAt(w, j);
    }
  }

  lemma WriteInv(w: Wired, j: nat)
    requires WiredInv(w) && j < |w.nodes| && w.nodes[j].writing
    ensures WiredInv(WriteAccess(w, j))
  {
    var k, w' := Around(|w.nodes|, j), WriteAccess(w, j);
    assert WiredAt(w, j) && WiredAt(w, k);
    Written(w.frames, w.nodes[j], w.channels[k]);
    forall i | 0 <= i < |w'.nodes|
      ensures WiredAt(w', i)
    {
      assert WiredAt(w, i);
    }
  }

  lemma ReadInvAll(w: Wired, j: nat)
    requires WiredInv(w) && j < |w.nodes| && !w.nodes[j].writing
    ensures WiredInv(ReadAccess(w, j))
  {
    var k, w' := Around(|w.nodes|, j), ReadAccess(w, j);
    assert WiredAt(w, j) && WiredAt(w, k);
    Read(w.nodes[j], w.channels[j]);
    var next := w.channels[j := Consume(w.channels[j])][k];
    assert Inv(next) && next.toSend == [];
    Refilled(next, Unsent(w'.nodes[j]));
    forall i | 0 <= i < |w'.nodes|
      ensures WiredAt(w', i)
    {
      assert WiredAt(w, i);
    }
  }

  lemma AccessInv(w: Wired, j: nat)
    requires WiredInv(w) && j < |w.nodes|
    ensures WiredInv(Access(w, j))
  {
    if w.nodes[j].writing { WriteInv(w, j); } else { ReadInvAll(w, j); }
  }

  /** What an access of the writer shows of a channel, and of the node at its other end. */
  lemma WriteShows(c: Channel, bytes: seq<uint8>, n: Node)
    requires Inv(c) && c.toSend != []
    ensures var c' := Produce(c).(toSend := bytes);
            && WaitingIn(c') == (if c.producer == Publishing then WaitingIn(c) + [c.toSend[0]] else WaitingIn(c))
            && NodeNow(n, c') == NodeNow(n, c) && (c.producer == Publishing ==> |WaitingIn(c)| < CAPACITY)
  {
    if c.producer == Publishing {
      assert (c.sent + [c.toSend[0]])[c.taken..] == c.sent[c.taken..] + [c.toSend[0]];
    }
  }

  /** What an access of the reader shows of a channel and of the reader. */
  lemma ReadShows(n: Node, c: Channel)
    requires Inv(c) && !n.writing && n.pos < FRAME
    ensures var n', c' := NodeRead(n, c), Consume(c);
            if c.consumer == Advancing
            then WaitingIn(c) != [] && WaitingIn(c') == WaitingIn(c)[1..] && NodeNow(n, c) == n && NodeNow(n', c') == ByteRead(n, WaitingIn(c)[0])
            else WaitingIn(c') == WaitingIn(c) && NodeNow(n', c') == NodeNow(n, c)
  {
    if c.consumer == Loading { LoadGetsNext(c); }
  }

  lemma SameRing(r: Ring, r': Ring)
    requires r.frames == r'.frames && |r.nodes| == |r'.nodes| && |r.streams| == |r'.streams|
    requires forall i :: 0 <= i < |r.nodes| ==> r.nodes[i] == r'.nodes[i]
    requires forall i :: 0 <= i < |r.streams| ==> r.streams[i] == r'.streams[i]
    ensures r == r'
  {
  }

  /** The accesses that the other end goes by: to `write` by the writer, and to `read` by the reader. */
  ghost predicate Moves(w: Wired, j: nat)
    requires WiredInv(w) && j < |w.nodes|
  {
    if w.nodes[j].writing then w.channels[Around(|w.nodes|, j)].producer == Publishing else w.channels[j].consumer == Advancing
  }

  /** A move of the ring, or none. */
  ghost predicate MoveOrNone(r: Ring, j: nat, r': Ring, moves: bool) {
    if moves then Shaped(r) && j < |r.nodes| && Enabled(r, j) && r' == Move(r, j) else r' == r
  }

  lemma WriteRefines(w: Wired, j: nat)
    requires WiredInv(w) && j < |w.nodes| && w.nodes[j].writing
    ensures MoveOrNone(RingOf(w), j, RingOf(WriteAccess(w, j)), Moves(w, j))
  {
    var k, w', r, r' := Around(|w.nodes|, j), WriteAccess(w, j), RingOf(w), RingOf(WriteAccess(w, j));
    var c, n := w.channels[k], w'.nodes[j];
    assert WiredAt(w, j) && WiredAt(w, k);
    WriteShows(c, Unsent(n), w.nodes[j]);
    assert |r'.nodes| == |r'.streams| == |r.nodes| == |r.streams|;
    forall i | 0 <= i < |r.nodes|
      ensures r'.nodes[i] == if i == j then NodeWritten(w.frames, w.nodes[j], c) else r.nodes[i]
      ensures r'.streams[i] == if i == k then WaitingIn(Produce(c).(toSend := Unsent(n))) else r.streams[i]
    {
      WriteShows(c, Unsent(n), w'.nodes[i]);
    }
    if c.producer == Publishing { WriteMoved(w, j, r, r'); } else { SameRing(r', r); }
  }

  lemma WriteMoved(w: Wired, j: nat, r: Ring, r': Ring)
    requires WiredInv(w) && j < |w.nodes| && w.nodes[j].writing && r == RingOf(w) && r.nodes[j] == w.nodes[j]
    requires r'.frames == r.frames && |r'.nodes| == |r'.streams| == |r.nodes|
    requires w.nodes[j].pos < FRAME && w.nodes[j].toInject <= |w.frames| && |WaitingIn(w.channels[Around(|w.nodes|, j)])| < CAPACITY
    requires forall i :: 0 <= i < |r.nodes| ==> r'.nodes[i] == if i == j then ByteWritten(w.frames, w.nodes[j]) else r.nodes[i]
    requires forall i :: 0 <= i < |r.nodes| ==>
      r'.streams[i] == if i == Around(|w.nodes|, j) then r.streams[i] + [w.nodes[j].buf[w.nodes[j].pos]] else r.streams[i]
    ensures MoveOrNone(r, j, r', true)
  {
    RingShaped(w);
    SameRing(r', Move(r, j));
  }

  lemma ReadRefines(w: Wired, j: nat)
    requires WiredInv(w) && j < |w.nodes| && !w.nodes[j].writing
    ensures MoveOrNone(RingOf(w), j, RingOf(ReadAccess(w, j)), Moves(w, j))
  {
    var w', r, r', c := ReadAccess(w, j), RingOf(w), RingOf(ReadAccess(w, j)), w.channels[j];
    assert WiredAt(w, j);
    ReadShows(w.nodes[j], c);
    assert |r'.nodes| == |r'.streams| == |r.nodes| == |r.streams|;
    forall i | 0 <= i < |r.nodes|
      ensures r'.nodes[i] == if i == j then NodeNow(NodeRead(w.nodes[j], c), Consume(c)) else r.nodes[i]
      ensures r'.streams[i] == if i == j then WaitingIn(Consume(c)) else r.streams[i]
    {
      RefillShows(w.channels[j := Consume(c)][i], w'.channels[i].toSend, w'.nodes[i]);
    }
    if c.consumer == Advancing { ReadMoved(w, j, r, r'); } else { SameRing(r', r); }
  }

  lemma RefillShows(c: Channel, bytes: seq<uint8>, n: Node)
    ensures NodeNow(n, c.(toSend := bytes)) == NodeNow(n, c) && WaitingIn(c.(toSend := bytes)) == WaitingIn(c)
  {
  }

  lemma ReadMoved(w: Wired, j: nat, r: Ring, r': Ring)
    requires WiredInv(w) && j < |w.nodes| && !w.nodes[j].writing && r == RingOf(w)
    requires r'.frames == r.frames && |r'.nodes| == |r'.streams| == |r.nodes| && WaitingIn(w.channels[j]) != []
    requires r.nodes[j] == w.nodes[j] && w.nodes[j].pos < FRAME
    requires forall i :: 0 <= i < |r.nodes| ==> r'.nodes[i] == if i == j then ByteRead(w.nodes[j], WaitingIn(w.channels[j])[0]) else r.nodes[i]
    requires forall i :: 0 <= i < |r.nodes| ==> r'.streams[i] == if i == j then WaitingIn(w.channels[j])[1..] else r.streams[i]
    ensures MoveOrNone(r, j, r', true)
  {
    RingShaped(w);
    SameRing(r', Move(r, j));
  }

  /** Every access moves a byte as the ring protocol does, or leaves the ring of whole bytes as it is. */
  lemma AccessRefines(w: Wired, j: nat)
    requires WiredInv(w) && j < |w.nodes|
    ensures WiredInv(Access(w, j)) && MoveOrNone(RingOf(w), j, RingOf(Access(w, j)), Moves(w, j))
  {
    AccessInv(w, j);
    if w.nodes[j].writing { WriteRefines(w, j); } else { ReadRefines(w, j); }
  }

  /** A ring before its first access. */
  ghost predicate Begins(w: Wired) {
    && WiredInv(w) && Initial(RingOf(w))
    && forall c :: c in w.channels ==> c.producer == Checking && c.consumer == Polling && c.sent == []
  }

  /** A new channel, with what its writer has to send. */
  function Fitted(bytes: seq<uint8>): Channel {
    New(seq(STREAM_BUF_LEN, _ => 0)).(toSend := bytes)
  }

  lemma FittedInv(bytes: seq<uint8>)
    ensures Inv(Fitted(bytes))
  {
  }

  function FittedTo(r: Ring): (channels: seq<Channel>)
    requires Shaped(r)
    ensures |channels| == |r.nodes| && forall k :: 0 <= k < |channels| ==> channels[k] == Fitted(Unsent(r.nodes[Before(r, k)]))
  {
    seq(|r.nodes|, k requires 0 <= k < |r.nodes| => Fitted(Unsent(r.nodes[Before(r, k)])))
  }

  /** Any ring of nodes and empty streams can be set up so. */
  lemma CanBegin(r: Ring) returns (w: Wired)
    requires Initial(r)
    ensures Begins(w) && RingOf(w) == r
  {
    InitialInv(r);
    w := Wired(r.frames, r.nodes, FittedTo(r));
    forall j | 0 <= j < |w.nodes|
      ensures WiredAt(w, j)
    {
      var k := Around(|r.nodes|, j);
      FittedInv(Unsent(r.nodes[Before(r, j)]));
      assert Before(r, k) == j;
      assert w.channels[k].toSend == Unsent(r.nodes[j]);
    }
    SameRing(RingOf(w), r);
  }

  ghost predicate Accessed(w: Wired, w': Wired) {
    WiredInv(w) && exists j :: 0 <= j < |w.nodes| && w' == Access(w, j)
  }

  /** Any interleaving of the accesses of the nodes, those that only wait among them. */
  ghost predicate IsAccessRun(run: seq<Wired>) {
    run != [] && Begins(run[0]) && forall i :: 0 <= i < |run| - 1 ==> Accessed(run[i], run[i + 1])
  }

  /** No access of any node gets it on. */
  ghost predicate Stuck(w: Wired) {
    WiredInv(w) && forall j :: 0 <= j < |w.nodes| ==> Access(w, j) == w
  }

  lemma StuckAt(w: Wired, j: nat)
    requires WiredInv(w) && j < |w.nodes| && Shaped(RingOf(w))
    ensures Access(w, j) == w <==> !Enabled(RingOf(w), j) && w.channels[j].consumer != Loading
  {
    RingShaped(w);
    var k := Around(|w.nodes|, j);
    assert WiredAt(w, j) && WiredAt(w, k);
    if w.nodes[j].writing {
      WaitsExactly(w.channels[k]);
    } else {
      WaitsExactly(w.channels[j]);
    }
  }

  /** The nodes are stuck exactly if the ring protocol is, and no reader is about to load a byte. */
  lemma StuckExactly(w: Wired)
    requires WiredInv(w)
    ensures Stuck(w) <==> Deadlocked(RingOf(w)) && forall c :: c in w.channels ==> c.consumer != Loading
  {
    RingShaped(w);
    forall j | 0 <= j < |w.nodes|
      ensures Access(w, j) == w <==> !Enabled(RingOf(w), j) && w.channels[j].consumer != Loading
    {
      StuckAt(w, j);
    }
    assert forall c :: c in w.channels ==> exists j :: 0 <= j < |w.channels| && w.channels[j] == c;
  }

  /** Every run of accesses, in whatever interleaving, shows a run of the ring protocol. */
  lemma {:induction false} RunRefines(run: seq<Wired>) returns (ring: seq<Ring>)
    requires IsAccessRun(run)
    ensures IsRun(ring) && WiredInv(run[|run| - 1])
    ensures ring[0] == RingOf(run[0]) && ring[|ring| - 1] == RingOf(run[|run| - 1])
    decreases |run|
  {
    if |run| == 1 {
      ring := [RingOf(run[0])];
    } else {
      var w, w' := run[|run| - 2], run[|run| - 1];
      var before := run[..|run| - 1];
      assert before[|before| - 1] == w;
      ring := RunRefines(before);
      assert Accessed(run[|run| - 2], run[|run| - 2 + 1]);
      var j :| 0 <= j < |w.nodes| && w' == Access(w, j);
      AccessRefines(w, j);
      if Moves(w, j) { ring := OneMoreMove(ring, RingOf(w), j, RingOf(w')); }
    }
  }

  lemma OneMoreMove(ring: seq<Ring>, r: Ring, j: nat, r': Ring) returns (more: seq<Ring>)
    requires IsRun(ring) && ring[|ring| - 1] == r && MoveOrNone(r, j, r', true)
    ensures IsRun(more) && more[0] == ring[0] && more[|more| - 1] == r'
  {
    more := ring + [r'];
    forall i | 0 <= i < |more| - 1
      ensures Stepped(more[i], more[i + 1])
    {
      if i < |ring| - 1 { assert Stepped(ring[i], ring[i + 1]); }
    }
  }

  /** What a node writes is, at every access, one of the frames injected. */
  lemma FramesIntactByAccess(run: seq<Wired>, j: nat)
    requires IsAccessRun(run) && j < |run[|run| - 1].nodes| && run[|run| - 1].nodes[j].writing
    ensures run[|run| - 1].nodes[j].buf in run[0].frames
  {
    var w := run[|run| - 1];
    var ring := RunRefines(run);
    assert WiredAt(w, j);
    FramesIntact(ring, j);
  }

  /** How far the two ends of a channel are on their way to the next byte. */
  function Steps(c: Channel): int {
    (match c.producer case Checking => 0 case Storing => 1 case Publishing => 2)
    + (match c.consumer case Polling => 0 case Advancing => 1 case Loading => -1)
  }

  function StepsUpTo(channels: seq<Channel>, k: nat): (n: int)
    requires k <= |channels|
    ensures n <= 3 * k
  {
    if k == 0 then 0 else StepsUpTo(channels, k - 1) + Steps(channels[k - 1])
  }

  lemma {:induction false} StepsChange(channels: seq<Channel>, channels': seq<Channel>, i: nat, k: nat)
    requires i < |channels| == |channels'| && k <= |channels|
    requires forall x :: 0 <= x < |channels| && x != i ==> Steps(channels'[x]) == Steps(channels[x])
    ensures StepsUpTo(channels', k) == StepsUpTo(channels, k) + if i < k then Steps(channels'[i]) - Steps(channels[i]) else 0
  {
    if k > 0 { StepsChange(channels, channels', i, k - 1); }
  }

  /** The accesses that got something on: three to a byte moved, and those begun. */
  function Progress(w: Wired): int
    requires |w.channels| == |w.nodes|
  {
    3 * MovesUpTo(RingOf(w), |w.nodes|) + StepsUpTo(w.channels, |w.channels|)
  }

  /** An access that changes anything is progress by one. */
  lemma AccessCounts(w: Wired, j: nat)
    requires WiredInv(w) && j < |w.nodes| && Access(w, j) != w
    ensures Access(w, j).frames == w.frames && |Access(w, j).nodes| == |w.nodes| == |Access(w, j).channels|
    ensures Progress(Access(w, j)) == Progress(w) + 1
  {
    var w' := Access(w, j);
    AccessRefines(w, j);
    assert MovesUpTo(RingOf(w'), |w.nodes|) == MovesUpTo(RingOf(w), |w.nodes|) + if Moves(w, j) then 1 else 0 by {
      if Moves(w, j) { MoveCounts(RingOf(w), j, |w.nodes|); }
    }
    StepsCount(w, j);
  }

  lemma StepsCount(w: Wired, j: nat)
    requires WiredInv(w) && j < |w.nodes| && Access(w, j) != w
    ensures |Access(w, j).channels| == |w.channels|
    ensures StepsUpTo(Access(w, j).channels, |w.channels|) == StepsUpTo(w.channels, |w.channels|) + if Moves(w, j) then -2 else 1
  {
    var k, w' := Around(|w.nodes|, j), Access(w, j);
    assert WiredAt(w, j) && WiredAt(w, k);
    StepsChange(w.channels, w'.channels, if w.nodes[j].writing then k else j, |w.channels|);
  }

  /** A run in which every access changes something. */
  ghost predicate IsBusyRun(run: seq<Wired>) {
    IsAccessRun(run) && forall i :: 0 <= i < |run| - 1 ==> run[i] != run[i + 1]
  }

  lemma {:induction false} NoStepsYet(channels: seq<Channel>, k: nat)
    requires k <= |channels| && forall c :: c in channels ==> c.producer == Checking && c.consumer == Polling
    ensures StepsUpTo(channels, k) == 0
  {
    if k > 0 { NoStepsYet(channels, k - 1); }
  }

  lemma {:induction false} RunProgress(run: seq<Wired>)
    requires IsBusyRun(run)
    ensures var w := run[|run| - 1];
            |w.nodes| == |w.channels| == |run[0].nodes| && w.frames == run[0].frames && Progress(w) == |run| - 1
    decreases |run|
  {
    if |run| == 1 {
      NoMovesYet(RingOf(run[0]), |run[0].nodes|);
      NoStepsYet(run[0].channels, |run[0].channels|);
    } else {
      var w, before := run[|run| - 2], run[..|run| - 1];
      assert before[|before| - 1] == w;
      RunProgress(before);
      assert Accessed(run[|run| - 2], run[|run| - 2 + 1]);
      var j :| 0 <= j < |w.nodes| && run[|run| - 1] == Access(w, j);
      assert run[|run| - 2] != run[|run| - 2 + 1];
      AccessCounts(w, j);
    }
  }

  /** All the bytes that can be moved while node 0 has read nothing, and an access of each end begun. */
  function MostProgress(nodes: nat): nat {
    3 * (2048 * nodes * nodes) + 3 * nodes
  }

  lemma ProgressOf(w: Wired)
    requires |w.channels| == |w.nodes| && RingInv(RingOf(w)) && |w.nodes| > 0 && RingOf(w).nodes[0].got == 0
    ensures Progress(w) <= MostProgress(|w.nodes|)
  {
    var n := |w.nodes|;
    MovesUpToBound(RingOf(w), n);
    assert StepsUpTo(w.channels, n) <= 3 * n;
  }

  /** With 32 frames or more to a node there is an end to progress. */
  lemma ProgressIsBounded(run: seq<Wired>)
    requires IsBusyRun(run) && |run[0].frames| >= 32 * |run[0].nodes|
    ensures |run| <= MostProgress(|run[0].nodes|) + 1
  {
    RunProgress(run);
    var ring := RunRefines(run);
    Reached(ring);
    ProgressOf(run[|run| - 1]);
  }

  /** Every run that has not got stuck can make progress. */
  lemma GoesOnBusily(run: seq<Wired>) returns (more: seq<Wired>)
    requires IsBusyRun(run) && !Stuck(run[|run| - 1])
    ensures IsBusyRun(more) && |more| == |run| + 1 && run <= more
  {
    var ring := RunRefines(run);
    var w := run[|run| - 1];
    var j :| 0 <= j < |w.nodes| && Access(w, j) != w;
    more := run + [Access(w, j)];
    forall i | 0 <= i < |more| - 1
      ensures Accessed(more[i], more[i + 1]) && more[i] != more[i + 1]
    {
      if i < |run| - 1 { assert Accessed(run[i], run[i + 1]) && run[i] != run[i + 1]; }
    }
  }

  /** So it gets stuck then. */
  lemma {:induction false} GetsStuck(run: seq<Wired>) returns (full: seq<Wired>)
    requires IsBusyRun(run) && |run[0].frames| >= 32 * |run[0].nodes|
    ensures IsBusyRun(full) && run <= full && Stuck(full[|full| - 1])
    decreases MostProgress(|run[0].nodes|) + 1 - |run|
  {
    ProgressIsBounded(run);
    if Stuck(run[|run| - 1]) {
      full := run;
    } else {
      var more := GoesOnBusily(run);
      ProgressIsBounded(more);
      full := GetsStuck(more);
    }
  }

  ghost predicate NeverStuck(start: Wired) {
    forall run :: IsAccessRun(run) && run[0] == start ==> !Stuck(run[|run| - 1])
  }

  /**
   * The ring on its lock-free channels cannot lock up, in any interleaving of accesses, if and only if
   * it has at least one frame and fewer than 32 to a node.
   */
  lemma NeverStuckExactly(start: Wired)
    requires Begins(start)
    ensures NeverStuck(start) <==> 1 <= |start.frames| < 32 * |start.nodes|
  {
    if 1 <= |start.frames| < 32 * |start.nodes| {
      forall run | IsAccessRun(run) && run[0] == start
        ensures !Stuck(run[|run| - 1])
      {
        var ring := RunRefines(run);
        Reached(ring);
        NoDeadlock(ring[|ring| - 1]);
        StuckExactly(run[|run| - 1]);
      }
    } else if start.frames == [] {
      NoFramesNoMoves(RingOf(start));
      StuckExactly(start);
      assert IsAccessRun([start]);
    } else {
      var full := GetsStuck([start]);
    }
  }
}

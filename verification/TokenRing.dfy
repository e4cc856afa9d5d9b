/**
 * The token programs of userspace/token_0.c and token_common.h: a ring of nodes that each read a
 * frame of 32 bytes and write it on, through streams of 1022 bytes, byte by byte.
 */
module TokenRing {
  import opened MachineTypes
  import opened Streams
  import opened Dyadic

  const FRAME := 32

  type Frame = f: seq<uint8> | |f| == FRAME witness seq(FRAME, _ => 0)

  /**
   * A program and how far it is: it writes its buffer, of which `pos` bytes are gone, or reads into
   * it, where `pos` have come. Node 0 has `toInject` frames to write before it reads.
   * `got` and `put` count the bytes it has read and written in all.
   */
  datatype Node = Node(toInject: nat, writing: bool, pos: nat, buf: Frame, got: nat, put: nat)

  /** Node j reads from stream j and writes to the next one. */
  datatype Ring = Ring(frames: seq<Frame>, nodes: seq<Node>, streams: seq<seq<uint8>>)

  /** The node after node j of n. */
  function Around(n: nat, j: nat): (k: nat)
    requires j < n
    ensures k < n
  {
    if j + 1 == n then 0 else j + 1
  }

  function After(r: Ring, j: nat): nat
    requires j < |r.nodes|
  {
    Around(|r.nodes|, j)
  }

  predicate Shaped(r: Ring) {
    && |r.streams| == |r.nodes| >= 1
    && forall j :: 0 <= j < |r.nodes| ==> r.nodes[j].pos < FRAME && r.nodes[j].toInject <= |r.frames|
  }

  /** A node can go on unless the stream it writes to is full, or the one it reads from is empty. */
  predicate Enabled(r: Ring, j: nat)
    requires Shaped(r) && j < |r.nodes|
  {
    if r.nodes[j].writing then |r.streams[After(r, j)]| < CAPACITY else |r.streams[j]| > 0
  }

  function ByteWritten(frames: seq<Frame>, n: Node): Node
    requires n.toInject <= |frames|
  {
    if n.pos + 1 < FRAME then n.(pos := n.pos + 1, put := n.put + 1)
    else if n.toInject > 1 then Node(n.toInject - 1, true, 0, frames[|frames| - (n.toInject - 1)], n.got, n.put + 1)
    else Node(0, false, 0, n.buf, n.got, n.put + 1)
  }

  function ByteRead(n: Node, b: uint8): Node
    requires n.pos < FRAME
  {
    n.(buf := n.buf[n.pos := b], got := n.got + 1,
       pos := if n.pos + 1 < FRAME then n.pos + 1 else 0, writing := n.pos + 1 == FRAME)
  }

  /** Node j moves one byte. */
  function Move(r: Ring, j: nat): Ring
    requires Shaped(r) && j < |r.nodes| && Enabled(r, j)
  {
    var n, k := r.nodes[j], After(r, j);
    if n.writing then
      Ring(r.frames, r.nodes[j := ByteWritten(r.frames, n)], r.streams[k := r.streams[k] + [n.buf[n.pos]]])
    else
      Ring(r.frames, r.nodes[j := ByteRead(n, r.streams[j][0])], r.streams[j := r.streams[j][1..]])
  }

  /** All streams are empty, node 0 is about to inject the frames, and the others are about to read. */
  predicate Initial(r: Ring) {
    && |r.streams| == |r.nodes| >= 1
    && (forall j :: 0 <= j < |r.nodes| ==> r.streams[j] == [] && r.nodes[j].pos == 0 && r.nodes[j].got == 0 && r.nodes[j].put == 0)
    && (forall j :: 1 <= j < |r.nodes| ==> !r.nodes[j].writing && r.nodes[j].toInject == 0)
    && r.nodes[0].toInject == |r.frames| && (r.nodes[0].writing <==> r.frames != [])
    && (r.frames != [] ==> r.nodes[0].buf == r.frames[0])
  }

  /** The byte at position k of the frames repeated round and round. */
  function Token(frames: seq<Frame>, k: nat): uint8
    requires frames != []
  {
    frames[k / FRAME % |frames|][k % FRAME]
  }

  /** What node 0 has to write beyond what it reads. */
  function Injected(frames: seq<Frame>, j: nat): nat {
    if j == 0 then FRAME * |frames| else 0
  }

  /** The bytes in a node's hands: those it must still write before it has read more, and those half read. */
  function Held(n: Node): nat
    requires n.pos < FRAME
  {
    if n.toInject > 0 then FRAME * n.toInject - n.pos
    else if n.writing then FRAME - n.pos
    else n.pos
  }

  predicate NodeInv(frames: seq<Frame>, j: nat, n: Node) {
    && n.pos < FRAME && n.toInject <= |frames|
    && (n.toInject > 0 ==> j == 0 && n.writing && n.got == 0)
    && (n.toInject == 0 ==> n.got >= if n.writing then FRAME else n.pos)
    && n.put % FRAME == (if n.writing then n.pos else 0)
    && n.got + Injected(frames, j) == n.put + Held(n)
  }

  /** A sequence of bytes is the stretch of the repeated frames from a position on. */
  predicate Continues(frames: seq<Frame>, s: seq<uint8>, start: nat)
    requires frames != []
  {
    forall i :: 0 <= i < |s| ==> s[i] == Token(frames, start + i)
  }

  /** What a node holds continues the repeated frames. */
  predicate NodeContent(frames: seq<Frame>, n: Node)
    requires frames != [] && n.pos < FRAME
  {
    if n.writing then n.pos <= n.put && Continues(frames, n.buf, n.put - n.pos)
    else n.pos <= n.got && Continues(frames, n.buf[..n.pos], n.got - n.pos)
  }

  predicate Linked(r: Ring, j: nat)
    requires Shaped(r) && j < |r.nodes|
  {
    |r.streams[After(r, j)]| == r.nodes[j].put - r.nodes[After(r, j)].got <= CAPACITY
  }

  predicate RingInv(r: Ring) {
    && Shaped(r)
    && (forall j :: 0 <= j < |r.nodes| ==> NodeInv(r.frames, j, r.nodes[j]))
    && (forall j :: 0 <= j < |r.nodes| ==> Linked(r, j))
  }

  predicate Content(r: Ring)
    requires RingInv(r)
  {
    r.frames != [] ==>
      && (forall j :: 0 <= j < |r.nodes| ==> NodeContent(r.frames, r.nodes[j]))
      && (forall j :: 0 <= j < |r.nodes| ==> Continues(r.frames, r.streams[j], r.nodes[j].got))
  }

  /** The bytes of frame number n, counting round and round. */
  lemma TokenAt(frames: seq<Frame>, n: nat, i: nat)
    requires frames != [] && i < FRAME
    ensures Token(frames, FRAME * n + i) == frames[n % |frames|][i]
  {
    assert (32 * n + i) / 32 == n && (32 * n + i) % 32 == i;
  }

  lemma FrameContinues(frames: seq<Frame>, n: nat)
    requires frames != []
    ensures Continues(frames, frames[n % |frames|], FRAME * n)
  {
    forall i | 0 <= i < FRAME
      ensures frames[n % |frames|][i] == Token(frames, FRAME * n + i)
    {
      TokenAt(frames, n, i);
    }
  }

  lemma ContinuesMore(frames: seq<Frame>, s: seq<uint8>, start: nat)
    requires frames != [] && Continues(frames, s, start)
    ensures Continues(frames, s + [Token(frames, start + |s|)], start)
  {
  }

  lemma ContinuesRest(frames: seq<Frame>, s: seq<uint8>, start: nat)
    requires frames != [] && Continues(frames, s, start) && s != []
    ensures s[0] == Token(frames, start) && Continues(frames, s[1..], start + 1)
  {
  }

  lemma ContinuesRoundAgain(frames: seq<Frame>, s: seq<uint8>, start: nat)
    requires frames != [] && Continues(frames, s, start)
    ensures Continues(frames, s, start + FRAME * |frames|)
  {
    forall i | 0 <= i < |s|
      ensures s[i] == Token(frames, start + FRAME * |frames| + i)
    {
      TokenRepeats(frames, start + i);
      assert start + FRAME * |frames| + i == start + i + FRAME * |frames|;
    }
  }

  lemma TokenRepeats(frames: seq<Frame>, k: nat)
    requires frames != []
    ensures Token(frames, k + FRAME * |frames|) == Token(frames, k)
  {
    var n, c := k / 32, |frames|;
    assert (k + 32 * c) / 32 == n + c && (k + 32 * c) % 32 == k % 32;
    assert n + c == c * (n / c + 1) + n % c;
    QuotientUnique(n + c, c, n / c + 1, n % c);
  }

  lemma InitialInv(r: Ring)
    requires Initial(r)
    ensures RingInv(r)
  {
  }

  lemma InitialContent(r: Ring)
    requires Initial(r) && RingInv(r)
    ensures Content(r)
  {
    if r.frames != [] {
      FrameContinues(r.frames, 0);
      QuotientUnique(0, |r.frames|, 0, 0);
    }
  }

  lemma WrittenInv(frames: seq<Frame>, j: nat, n: Node)
    requires NodeInv(frames, j, n) && n.writing
    ensures NodeInv(frames, j, ByteWritten(frames, n))
  {
  }

  lemma ReadInv(frames: seq<Frame>, j: nat, n: Node, b: uint8)
    requires NodeInv(frames, j, n) && !n.writing
    ensures NodeInv(frames, j, ByteRead(n, b))
  {
  }

  lemma MoveInv(r: Ring, j: nat)
    requires RingInv(r) && j < |r.nodes| && Enabled(r, j)
    ensures RingInv(Move(r, j))
  {
    var n, r' := r.nodes[j], Move(r, j);
    if n.writing { WrittenInv(r.frames, j, n); } else { ReadInv(r.frames, j, n, r.streams[j][0]); }
    forall i | 0 <= i < |r.nodes|
      ensures Linked(r', i)
    {
      assert Linked(r, i);
    }
  }

  lemma WrittenContent(frames: seq<Frame>, j: nat, n: Node)
    requires frames != [] && NodeInv(frames, j, n) && n.writing && NodeContent(frames, n)
    ensures NodeContent(frames, ByteWritten(frames, n)) && n.buf[n.pos] == Token(frames, n.put)
  {
    assert n.buf[n.pos] == Token(frames, n.put - n.pos + n.pos);
    if n.pos + 1 < FRAME {
      assert n.put + 1 - (n.pos + 1) == n.put - n.pos;
    } else if n.toInject > 1 {
      NextInjected(frames, j, n);
    }
  }

  /** The frame that node 0 injects next is the next of the repeated frames. */
  lemma NextInjected(frames: seq<Frame>, j: nat, n: Node)
    requires frames != [] && NodeInv(frames, j, n) && n.pos + 1 == FRAME && n.toInject > 1
    ensures Continues(frames, frames[|frames| - (n.toInject - 1)], n.put + 1)
  {
    var f := |frames| - (n.toInject - 1);
    assert n.put + 1 == FRAME * f;
    QuotientUnique(f, |frames|, 0, f);
    FrameContinues(frames, f);
  }

  /** One byte more in the buffer of a node that reads. */
  lemma BufferGrows(frames: seq<Frame>, n: Node)
    requires frames != [] && n.pos < FRAME && !n.writing && NodeContent(frames, n)
    ensures Continues(frames, ByteRead(n, Token(frames, n.got)).buf[..n.pos + 1], n.got - n.pos)
  {
    var before := n.buf[..n.pos];
    ContinuesMore(frames, before, n.got - n.pos);
    assert n.got - n.pos + |before| == n.got;
    assert ByteRead(n, Token(frames, n.got)).buf[..n.pos + 1] == before + [Token(frames, n.got)];
  }

  lemma ReadContent(frames: seq<Frame>, j: nat, n: Node)
    requires frames != [] && NodeInv(frames, j, n) && !n.writing && NodeContent(frames, n)
    ensures NodeContent(frames, ByteRead(n, Token(frames, n.got)))
  {
    var n' := ByteRead(n, Token(frames, n.got));
    BufferGrows(frames, n);
    if n'.writing {
      assert n'.buf == n'.buf[..n.pos + 1];
      if j == 0 { ContinuesRoundAgain(frames, n'.buf, n.got - n.pos); }
      assert n'.put - n'.pos == n.got - n.pos + Injected(frames, j);
    } else {
      assert n'.got - n'.pos == n.got - n.pos;
    }
  }

  /** Every step keeps the frames as they were injected, in their cyclic order. */
  lemma MoveContent(r: Ring, j: nat)
    requires RingInv(r) && j < |r.nodes| && Enabled(r, j) && Content(r)
    ensures RingInv(Move(r, j)) && Content(Move(r, j))
  {
    MoveInv(r, j);
    if r.frames != [] {
      assert NodeInv(r.frames, j, r.nodes[j]);
      if r.nodes[j].writing { WriteMoves(r, j); } else { ReadMoves(r, j); }
    }
  }

  lemma WriteMoves(r: Ring, j: nat)
    requires RingInv(r) && j < |r.nodes| && Enabled(r, j) && Content(r) && r.frames != [] && r.nodes[j].writing
    requires RingInv(Move(r, j))
    ensures Content(Move(r, j))
  {
    var n, k, r' := r.nodes[j], After(r, j), Move(r, j);
    WrittenContent(r.frames, j, n);
    assert Linked(r, j) && Continues(r.frames, r.streams[k], r.nodes[k].got);
    ContinuesMore(r.frames, r.streams[k], r.nodes[k].got);
    forall i | 0 <= i < |r.nodes|
      ensures NodeContent(r.frames, r'.nodes[i]) && r'.nodes[i].got == r.nodes[i].got
    {
      assert NodeContent(r.frames, r.nodes[i]);
    }
    forall i | 0 <= i < |r.nodes|
      ensures Continues(r.frames, r'.streams[i], r'.nodes[i].got)
    {
      assert Continues(r.frames, r.streams[i], r.nodes[i].got);
    }
  }

  lemma ReadMoves(r: Ring, j: nat)
    requires RingInv(r) && j < |r.nodes| && Enabled(r, j) && Content(r) && r.frames != [] && !r.nodes[j].writing
    requires RingInv(Move(r, j))
    ensures Content(Move(r, j))
  {
    var n, s, r' := r.nodes[j], r.streams[j], Move(r, j);
    assert NodeInv(r.frames, j, n) && Continues(r.frames, s, n.got);
    ContinuesRest(r.frames, s, n.got);
    ReadContent(r.frames, j, n);
    forall i | 0 <= i < |r.nodes|
      ensures NodeContent(r.frames, r'.nodes[i]) && Continues(r.frames, r'.streams[i], r'.nodes[i].got)
    {
      assert NodeContent(r.frames, r.nodes[i]) && Continues(r.frames, r.streams[i], r.nodes[i].got);
    }
  }

  ghost predicate IsRun(run: seq<Ring>) {
    && run != [] && Initial(run[0])
    && forall i :: 0 <= i < |run| - 1 ==> Stepped(run[i], run[i + 1])
  }

  ghost predicate Stepped(r: Ring, r': Ring) {
    Shaped(r) && exists j :: 0 <= j < |r.nodes| && Enabled(r, j) && r' == Move(r, j)
  }
}

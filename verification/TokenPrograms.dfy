/** The loops of userspace/token_common.h and token_0.c on the streams of kernel/stream.c. */
module TokenPrograms {
  import opened MachineTypes
  import opened Streams
  import opened TokenRing

  /** Two streams that a node can use at once. */
  ghost predicate Apart(from: Stream, next: Stream)
    reads from, next
  {
    from != next && from.buf != next.buf
  }

  /** Node 0 writes its message `count` times, the t-th time with the reader running as turns(t) says. */
  method Inject(next: Stream, buf: Frame, count: nat, turns: nat -> nat -> nat)
    requires next.Valid() && next.producer == Checking && next.toSend == []
    modifies next, next.buf
    ensures next.Valid() && next.producer == Checking && next.toSend == []
    ensures next.sent == old(next.sent) + Repeated(buf, count) && |next.sent| == |old(next.sent)| + FRAME * count
    ensures forall i :: |old(next.sent)| <= i < |next.sent| ==> next.sent[i] == buf[(i - |old(next.sent)|) % FRAME]
  {
    var left := count;
    assert next.sent == old(next.sent) + Repeated(buf, 0);
    while left > 0
      invariant 0 <= left <= count && next.Valid() && next.producer == Checking && next.toSend == []
      invariant next.sent == old(next.sent) + Repeated(buf, count - left)
    {
      ghost var done := count - left;
      next.StreamWrite(buf, turns(count - left));
      assert old(next.sent) + Repeated(buf, done) + buf == old(next.sent) + (Repeated(buf, done) + buf);
      left := left - 1;
    }
    RepeatedIs(buf, count);
  }

  function Repeated(buf: Frame, count: nat): seq<uint8> {
    if count == 0 then [] else Repeated(buf, count - 1) + buf
  }

  /** That is `count` times 32 bytes, and byte number i of them is byte i % 32 of the message. */
  lemma {:induction false} RepeatedIs(buf: Frame, count: nat)
    ensures |Repeated(buf, count)| == FRAME * count
    ensures forall i :: 0 <= i < FRAME * count ==> Repeated(buf, count)[i] == buf[i % FRAME]
  {
    if count > 0 {
      RepeatedIs(buf, count - 1);
      forall i | FRAME * (count - 1) <= i < FRAME * count
        ensures Repeated(buf, count)[i] == buf[i % FRAME]
      {
        LastOfStretch(count - 1, i - FRAME * (count - 1));
      }
    }
  }

  lemma LastOfStretch(n: nat, x: nat)
    requires x < 32
    ensures (32 * n + x) % 32 == x
  {
  }

  /** A node between two rounds of its endless loop. */
  ghost predicate Ready(from: Stream, next: Stream)
    reads from, from.buf, next, next.buf
  {
    && from.Valid() && next.Valid() && Apart(from, next)
    && from.consumer == Polling && next.producer == Checking && next.toSend == []
  }

  /**
   * One round: 32 bytes come in, wherever frames begin, and go out as they came. The other threads
   * run as turns(0) says while the bytes are read, and as turns(1) says while they are written.
   */
  method ForwardOnce(from: Stream, next: Stream, turns: nat -> nat -> nat)
    requires Ready(from, next) && |from.sent| + |from.toSend| >= from.taken + FRAME
    modifies from, from.buf, next, next.buf
    ensures Ready(from, next) && from.taken == old(from.taken) + FRAME <= |from.sent|
    ensures old(from.sent) <= from.sent && |from.sent| + |from.toSend| == |old(from.sent)| + |old(from.toSend)|
    ensures next.sent == old(next.sent) + from.sent[old(from.taken)..from.taken]
  {
    from.StreamRead(FRAME, turns(0));
    assert |from.sent + from.toSend| == |old(from.sent + from.toSend)|;
    var buf := from.delivered[|from.delivered| - FRAME..];
    assert buf == from.sent[old(from.taken)..from.taken];
    next.StreamWrite(buf, turns(1));
  }

  /** Turns of the endless loop: what comes in goes out, whole frames at a time and in order. */
  method Forward(from: Stream, next: Stream, rounds: nat, turns: nat -> nat -> nat)
    requires Ready(from, next) && |from.sent| + |from.toSend| >= from.taken + FRAME * rounds
    modifies from, from.buf, next, next.buf
    ensures Ready(from, next) && from.taken == old(from.taken) + FRAME * rounds <= |from.sent|
    ensures old(from.sent) <= from.sent
    ensures next.sent == old(next.sent) + from.sent[old(from.taken)..from.taken]
  {
    var i := 0;
    ghost var start, total := from.taken, |from.sent| + |from.toSend|;
    while i < rounds
      invariant i <= rounds && Ready(from, next) && old(from.sent) <= from.sent
      invariant from.taken == start + FRAME * i && |from.sent| + |from.toSend| == total
      invariant PassedOn(from.sent, start, from.taken, old(next.sent), next.sent)
    {
      ghost var sent, taken, out := from.sent, from.taken, next.sent;
      ForwardOnce(from, next, call => turns(2 * i + call));
      PassedMore(sent, from.sent, start, taken, from.taken, old(next.sent), out, next.sent);
      i := i + 1;
    }
  }

  /** What was taken of one stream since position `start` was added to the other. */
  predicate PassedOn(sent: seq<uint8>, start: nat, taken: nat, before: seq<uint8>, out: seq<uint8>) {
    start <= taken <= |sent| && out == before + sent[start..taken]
  }

  lemma PassedMore(sent: seq<uint8>, sent': seq<uint8>, start: nat, taken: nat, taken': nat,
                   before: seq<uint8>, out: seq<uint8>, out': seq<uint8>)
    requires PassedOn(sent, start, taken, before, out) && sent <= sent' && taken <= taken' <= |sent'|
    requires out' == out + sent'[taken..taken']
    ensures PassedOn(sent', start, taken', before, out')
  {
    StretchesJoin(sent, sent', start, taken, taken');
  }

  lemma StretchesJoin(s: seq<uint8>, s': seq<uint8>, a: nat, b: nat, c: nat)
    requires a <= b <= |s| && b <= c <= |s'| && s <= s'
    ensures s[a..b] + s'[b..c] == s'[a..c]
  {
  }
}

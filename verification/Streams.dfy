/**
 * kernel/stream.c: a byte ring with one producer, one consumer and no lock.
 * Every access to shared memory is a step of its own, in any interleaving.
 */
module Streams {
  import opened MachineTypes

  const STREAM_BUF_LEN := 1024

  /** Two of the slots stay unused. */
  const CAPACITY := 1022

  function NextStep(ptr: uint16): (next: uint16)
    ensures next < STREAM_BUF_LEN
  {
    (ptr + 1) % STREAM_BUF_LEN
  }

  /** The signed difference of the two length functions, brought into range. */
  function WriteLengthOf(read: uint16, write: uint16): int {
    var result: int := read as int - write - 1;
    if result < 0 then result + STREAM_BUF_LEN else result
  }

  function ReadLengthOf(read: uint16, write: uint16): int {
    var result: int := write as int - read - 1;
    if result < 0 then result + STREAM_BUF_LEN else result
  }

  datatype ProducerAt = Checking | Storing | Publishing

  datatype ConsumerAt = Polling | Advancing | Loading

  /**
   * The ring, where both sides are in their loops, and its history: `sent` bytes are published,
   * `taken` of them had `read` advanced past them, `delivered` ones are in the reader's buffer.
   */
  datatype Channel = Channel(read: uint16, write: uint16, buf: seq<uint8>,
                             producer: ProducerAt, toSend: seq<uint8>,
                             consumer: ConsumerAt,
                             sent: seq<uint8>, taken: nat, delivered: seq<uint8>)

  function New(buf: seq<uint8>): Channel {
    Channel(0, 1, buf, Checking, [], Polling, [], 0, [])
  }

  /** The next access of stream_write; it goes on checking while the ring is full. */
  function Produce(c: Channel): Channel
    requires c.toSend != [] && c.write < |c.buf|
  {
    match c.producer
    case Checking => if WriteLengthOf(c.read, c.write) == 0 then c else c.(producer := Storing)
    case Storing => c.(buf := c.buf[c.write := c.toSend[0]], producer := Publishing)
    case Publishing => c.(write := NextStep(c.write), producer := Checking, sent := c.sent + [c.toSend[0]], toSend := c.toSend[1..])
  }

  /** The next access of stream_read; `read` moves before the byte is loaded. */
  function Consume(c: Channel): Channel
    requires c.read < |c.buf|
  {
    match c.consumer
    case Polling => if ReadLengthOf(c.read, c.write) == 0 then c else c.(consumer := Advancing)
    case Advancing => c.(read := NextStep(c.read), taken := c.taken + 1, consumer := Loading)
    case Loading => c.(delivered := c.delivered + [c.buf[c.read]], consumer := Polling)
  }

  /** Any interleaving of the two sides, and of new calls of stream_write. */
  ghost predicate Next(c: Channel, c': Channel) {
    && c.read < |c.buf| && c.write < |c.buf|
    && (|| (c.toSend != [] && c' == Produce(c))
        || c' == Consume(c)
        || exists bytes :: c' == c.(toSend := c.toSend + bytes))
  }

  /** Where byte number k goes. */
  function SlotOf(k: nat): nat {
    (k + 1) % STREAM_BUF_LEN
  }

  ghost predicate Inv(c: Channel) {
    && |c.buf| == STREAM_BUF_LEN
    && c.write == SlotOf(|c.sent|) && c.read == c.taken % STREAM_BUF_LEN
    && c.taken <= |c.sent| <= c.taken + CAPACITY
    && (c.producer != Checking ==> |c.sent| < c.taken + CAPACITY && c.toSend != [])
    && (c.producer == Publishing ==> c.buf[c.write] == c.toSend[0])
    && (c.consumer == Advancing ==> c.taken < |c.sent|)
    && |c.delivered| == (if c.consumer == Loading then c.taken - 1 else c.taken) && 0 <= |c.delivered|
    && c.delivered == c.sent[..|c.delivered|]
    && forall k {:trigger SlotOf(k)} :: |c.delivered| <= k < |c.sent| ==> c.buf[SlotOf(k)] == c.sent[k]
  }

  /** What the lengths mean: the bytes that wait, and the room for more; they add up to 1022. */
  lemma Lengths(c: Channel)
    requires Inv(c)
    ensures ReadLengthOf(c.read, c.write) == |c.sent| - c.taken
    ensures WriteLengthOf(c.read, c.write) == CAPACITY - (|c.sent| - c.taken)
    ensures c.read != c.write
  {
    RingDistance(c.taken, |c.sent|);
  }

  lemma RingDistance(taken: nat, sent: nat)
    requires taken <= sent <= taken + 1022
    ensures var read, write := taken % 1024, (sent + 1) % 1024;
            read != write && if read < write then write - read - 1 == sent - taken else write + 1024 - read - 1 == sent - taken
  {
    var n := sent - taken;
    assert (sent + 1) % 1024 == (taken % 1024 + n + 1) % 1024 by {
      assert sent + 1 == 1024 * (taken / 1024) + (taken % 1024 + n + 1);
    }
  }

  lemma NextSlot(k: nat)
    ensures NextStep(SlotOf(k)) == SlotOf(k + 1)
  {
    assert ((k + 1) % 1024 + 1) % 1024 == (k + 2) % 1024;
  }

  /** Slots of bytes less than a ring's length apart differ. */
  lemma SlotsDiffer(j: nat, k: nat)
    requires j < k < j + 1024
    ensures (j + 1) % 1024 != (k + 1) % 1024
  {
  }

  /** The slot written holds no byte that the reader may still load. */
  lemma StoreInv(c: Channel)
    requires Inv(c) && c.toSend != [] && c.producer == Storing
    ensures Inv(Produce(c))
  {
    var c' := Produce(c);
    forall k {:trigger SlotOf(k)} | |c.delivered| <= k < |c.sent|
      ensures c'.buf[SlotOf(k)] == c.sent[k]
    {
      SlotsDiffer(k, |c.sent|);
      assert c.buf[SlotOf(k)] == c.sent[k];
    }
  }

  lemma PublishInv(c: Channel)
    requires Inv(c) && c.toSend != [] && c.producer == Publishing
    ensures Inv(Produce(c))
  {
    NextSlot(|c.sent|);
    var c' := Produce(c);
    assert c'.sent[..|c.delivered|] == c.sent[..|c.delivered|];
    forall k {:trigger SlotOf(k)} | |c.delivered| <= k < |c'.sent|
      ensures c'.buf[SlotOf(k)] == c'.sent[k]
    {
      if k < |c.sent| { assert c.buf[SlotOf(k)] == c.sent[k]; }
    }
  }

  lemma ProduceInv(c: Channel)
    requires Inv(c) && c.toSend != []
    ensures Inv(Produce(c))
  {
    match c.producer
    case Checking => Lengths(c);
    case Storing => StoreInv(c);
    case Publishing => PublishInv(c);
  }

  lemma ConsumeInv(c: Channel)
    requires Inv(c)
    ensures Inv(Consume(c))
  {
    Lengths(c);
    match c.consumer
    case Polling =>
    case Advancing =>
      assert NextStep(c.read) == (c.taken + 1) % STREAM_BUF_LEN;
    case Loading =>
      LoadGetsNext(c);
  }

  /** The byte loaded after `read` has moved is the one it moved to: the producer has not been there since. */
  lemma LoadGetsNext(c: Channel)
    requires Inv(c) && c.consumer == Loading
    ensures c.read < |c.buf| && |c.delivered| < |c.sent| && c.buf[c.read] == c.sent[|c.delivered|]
  {
    assert SlotOf(c.taken - 1) == c.read;
  }

  lemma NextInv(c: Channel, c': Channel)
    requires Inv(c) && Next(c, c')
    ensures Inv(c')
  {
    if c.toSend != [] && c' == Produce(c) {
      ProduceInv(c);
    } else if c' == Consume(c) {
      ConsumeInv(c);
    }
  }

  /** Over any run: delivered bytes are a prefix of those sent, at most 1022 wait, and `read` never meets `write`. */
  lemma {:induction false} RunIsSafe(run: seq<Channel>, buf: seq<uint8>)
    requires run != [] && |buf| == STREAM_BUF_LEN && run[0] == New(buf)
    requires forall i :: 0 <= i < |run| - 1 ==> Next(run[i], run[i + 1])
    ensures var c := run[|run| - 1];
            && Inv(c) && c.delivered <= c.sent && |c.sent| - |c.delivered| <= CAPACITY + 1
            && 0 <= |c.sent| - c.taken <= CAPACITY && c.read != c.write
    decreases |run|
  {
    if |run| > 1 {
      RunIsSafe(run[..|run| - 1], buf);
      assert Next(run[|run| - 2], run[|run| - 2 + 1]);
      NextInv(run[|run| - 2], run[|run| - 1]);
    }
    Lengths(run[|run| - 1]);
  }

  /** The ring as a queue: bytes go in when published and come out when `read` moves. */
  datatype Fifo = Fifo(waiting: seq<uint8>, out: seq<uint8>)

  function Queue(c: Channel): Fifo
    requires c.taken <= |c.sent|
  {
    Fifo(c.sent[c.taken..], c.sent[..c.taken])
  }

  ghost predicate FifoStep(q: Fifo, q': Fifo) {
    || q' == q
    || (|q.waiting| < CAPACITY && exists b :: q' == Fifo(q.waiting + [b], q.out))
    || (q.waiting != [] && q' == Fifo(q.waiting[1..], q.out + [q.waiting[0]]))
  }

  /** Every step of the ring is a step of a queue of at most 1022 bytes, or none. */
  lemma Refines(c: Channel, c': Channel)
    requires Inv(c) && Next(c, c')
    ensures c'.taken <= |c'.sent| && FifoStep(Queue(c), Queue(c'))
  {
    NextInv(c, c');
    if c.toSend != [] && c' == Produce(c) && c.producer == Publishing {
      assert Queue(c') == Fifo(Queue(c).waiting + [c.toSend[0]], Queue(c).out);
    } else if c' == Consume(c) && c.consumer == Advancing {
      var q := Queue(c);
      assert Queue(c') == Fifo(q.waiting[1..], q.out + [q.waiting[0]]);
    }
  }

  /** A writer waits exactly while 1022 bytes wait, and a reader while none does; neither check goes stale. */
  lemma WaitsExactly(c: Channel)
    requires Inv(c)
    ensures c.toSend != [] && c.producer == Checking ==> (Produce(c) == c <==> |Queue(c).waiting| == CAPACITY)
    ensures c.consumer == Polling ==> (Consume(c) == c <==> Queue(c).waiting == [])
  {
    Lengths(c);
  }

  /** What stays of a reader's progress: it only gets on. */
  predicate ReaderRan(c: Channel, c': Channel) {
    && c'.buf == c.buf && c'.write == c.write && c'.producer == c.producer && c'.toSend == c.toSend && c'.sent == c.sent
    && c.taken <= c'.taken && c.delivered <= c'.delivered
  }

  /** How many of its accesses a reader is away from making room, when there is none. */
  function ToRoom(c: Channel): nat {
    match c.consumer
    case Loading => 3
    case Polling => 2
    case Advancing => 1
  }

  /** What stays of a writer's progress. */
  predicate WriterRan(c: Channel, c': Channel) {
    && c'.read == c.read && c'.consumer == c.consumer && c'.taken == c.taken && c'.delivered == c.delivered
    && c.sent <= c'.sent && c'.sent + c'.toSend == c.sent + c.toSend
  }

  /** How many of its accesses a writer is away from publishing a byte, when none waits. */
  function ToData(c: Channel): nat {
    match c.producer
    case Checking => 3
    case Storing => 2
    case Publishing => 1
  }

  lemma ProduceRan(c: Channel)
    requires Inv(c) && c.toSend != []
    ensures WriterRan(c, Produce(c))
    ensures ReadLengthOf(c.read, c.write) == 0 ==>
              ReadLengthOf(Produce(c).read, Produce(c).write) > 0 || ToData(Produce(c)) < ToData(c)
  {
  }

  lemma ConsumeRan(c: Channel)
    requires Inv(c)
    ensures ReaderRan(c, Consume(c))
    ensures WriteLengthOf(c.read, c.write) == 0 ==>
              WriteLengthOf(Consume(c).read, Consume(c).write) > 0 || ToRoom(Consume(c)) < ToRoom(c)
  {
  }

  class Stream {
    var read: uint16
    var write: uint16
    const buf: array<uint8>

    var producer: ProducerAt      // where the writing thread is in its loop
    var toSend: seq<uint8>        // what it has still to write
    var consumer: ConsumerAt      // where the reading thread is in its loop
    var delivered: seq<uint8>     // what it has read

    ghost var sent: seq<uint8>
    ghost var taken: nat

    ghost function State(): Channel
      reads this, buf
    {
      Channel(read, write, buf[..], producer, toSend, consumer, sent, taken, delivered)
    }

    ghost predicate Valid()
      reads this, buf
    {
      Inv(State())
    }

    /** stream_new */
    constructor ()
      ensures Valid() && fresh(buf) && State() == New(buf[..])
    {
      read, write := 0, 1;
      buf := new uint8[STREAM_BUF_LEN](_ => 0);
      producer, toSend, consumer, delivered := Checking, [], Polling, [];
      sent, taken := [], 0;
    }

    method StreamWriteLength() returns (length: int)
      requires Valid()
      ensures length == CAPACITY - (|sent| - taken)
    {
      Lengths(State());
      length := WriteLengthOf(read, write);
    }

    method StreamReadLength() returns (length: int)
      requires Valid()
      ensures length == |sent| - taken
    {
      Lengths(State());
      length := ReadLengthOf(read, write);
    }

    /** One access of the reading thread. */
    method ConsumerTurn()
      requires Valid()
      modifies this`read, this`consumer, this`delivered, this`taken
      ensures Valid() && State() == Consume(old(State()))
    {
      match consumer
      case Polling =>
        var length := StreamReadLength();
        Lengths(State());
        if length != 0 { FindByte(); }
      case Advancing => Advance();
      case Loading => Load();
    }

    /** The check that ends the waiting. */
    method FindByte()
      requires Valid() && consumer == Polling && taken < |sent|
      modifies this`consumer
      ensures Valid() && State() == Consume(old(State())) == old(State()).(consumer := Advancing)
    {
      Lengths(State());
      consumer := Advancing;
    }

    /** `read` moves to the next byte, before it is loaded. */
    method Advance()
      requires Valid() && consumer == Advancing
      modifies this`read, this`consumer, this`taken
      ensures Valid() && State() == Consume(old(State())) && consumer == Loading
    {
      ConsumeInv(State());
      read := NextStep(read);
      taken, consumer := taken + 1, Loading;
    }

    /** The byte that `read` moved to is loaded. */
    method Load()
      requires Valid() && consumer == Loading
      modifies this`consumer, this`delivered
      ensures Valid() && State() == Consume(old(State())) && consumer == Polling
    {
      ConsumeInv(State());
      delivered := delivered + [buf[read]];
      consumer := Polling;
    }

    /** The reading thread runs for a while. */
    method RunReader(n: nat)
      requires Valid()
      modifies this`read, this`consumer, this`delivered, this`taken
      ensures Valid() && ReaderRan(old(State()), State())
    {
      var i := 0;
      while i < n
        invariant i <= n && Valid() && ReaderRan(old(State()), State())
      {
        ConsumeRan(State());
        ConsumerTurn();
        i := i + 1;
      }
    }

    /** sched_thread_wait(cur, stream_write_event): others run until there is room. */
    method WaitForRoom() returns (ghost accesses: nat)
      requires Valid()
      modifies this`read, this`consumer, this`delivered, this`taken
      ensures Valid() && ReaderRan(old(State()), State()) && |sent| - taken < CAPACITY
      ensures accesses <= 3
    {
      var length := StreamWriteLength();
      accesses := 0;
      while length == 0
        invariant Valid() && ReaderRan(old(State()), State()) && length == CAPACITY - (|sent| - taken)
        invariant accesses + (if length == 0 then ToRoom(State()) else 0) <= 3
        decreases if length == 0 then ToRoom(State()) else 0
      {
        ConsumeRan(State());
        ConsumerTurn();
        accesses := accesses + 1;
        length := StreamWriteLength();
      }
    }

    /**
     * stream_write, with the reading thread running for turns(t) accesses before the t-th access of
     * this one: every byte is published, in order, whatever the turns.
     */
    method StreamWrite(bytes: seq<uint8>, turns: nat -> nat)
      requires Valid() && producer == Checking && toSend == []
      modifies this, buf
      ensures Valid() && producer == Checking && toSend == []
      ensures sent == old(sent) + bytes && old(delivered) <= delivered
    {
      toSend := bytes;
      var i := 0;
      while i < |bytes|
        invariant i <= |bytes| && Valid() && producer == Checking && toSend == bytes[i..]
        invariant sent == old(sent) + bytes[..i] && old(delivered) <= delivered
      {
        RunReader(turns(3 * i));
        WriteByte(bytes[i], turns(3 * i + 1), turns(3 * i + 2));
        i := i + 1;
      }
    }

    /** One turn of the loop of stream_write. */
    method WriteByte(byte: uint8, before: nat, between: nat)
      requires Valid() && producer == Checking && toSend != [] && byte == toSend[0]
      modifies this, buf
      ensures Valid() && producer == Checking && toSend == old(toSend)[1..]
      ensures sent == old(sent) + [byte] && old(delivered) <= delivered
    {
      ghost var accesses := WaitForRoom();
      FindRoom();
      RunReader(before);
      Store();
      RunReader(between);
      Publish();
    }

    /** The check that ends the waiting. */
    method FindRoom()
      requires Valid() && producer == Checking && toSend != [] && |sent| - taken < CAPACITY
      modifies this`producer
      ensures Valid() && State() == Produce(old(State())) == old(State()).(producer := Storing)
    {
      Lengths(State());
      producer := Storing;
    }

    /** The byte goes into its slot. */
    method Store()
      requires Valid() && producer == Storing
      modifies this`producer, buf
      ensures Valid() && State() == Produce(old(State())) && producer == Publishing
    {
      StoreInv(State());
      buf[write] := toSend[0];
      producer := Publishing;
    }

    /** `write` moves past the byte stored. */
    method Publish()
      requires Valid() && producer == Publishing
      modifies this`write, this`producer, this`toSend, this`sent
      ensures Valid() && State() == Produce(old(State())) && producer == Checking
    {
      PublishInv(State());
      write := NextStep(write);
      sent, toSend, producer := sent + [toSend[0]], toSend[1..], Checking;
    }

    /** One access of the writing thread. */
    method ProducerTurn()
      requires Valid() && toSend != []
      modifies this`write, this`producer, this`toSend, this`sent, buf
      ensures Valid() && State() == Produce(old(State()))
    {
      match producer
      case Checking =>
        var length := StreamWriteLength();
        Lengths(State());
        if length != 0 { FindRoom(); }
      case Storing => Store();
      case Publishing => Publish();
    }

    /** The writing thread runs for a while, as long as it has bytes to write. */
    method RunWriter(n: nat)
      requires Valid()
      modifies this`write, this`producer, this`toSend, this`sent, buf
      ensures Valid() && WriterRan(old(State()), State())
    {
      var i := 0;
      while i < n && toSend != []
        invariant Valid() && WriterRan(old(State()), State())
      {
        ProduceRan(State());
        ProducerTurn();
        i := i + 1;
      }
    }

    /** sched_thread_wait(cur, stream_read_event): others run until there is a byte. */
    method WaitForData() returns (ghost accesses: nat)
      requires Valid() && |sent| + |toSend| > taken
      modifies this`write, this`producer, this`toSend, this`sent, buf
      ensures Valid() && WriterRan(old(State()), State()) && taken < |sent|
      ensures accesses <= 3
    {
      var length := StreamReadLength();
      accesses := 0;
      while length == 0
        invariant Valid() && WriterRan(old(State()), State()) && length == |sent| - taken
        invariant accesses + (if length == 0 then ToData(State()) else 0) <= 3
        decreases if length == 0 then ToData(State()) else 0
      {
        assert |sent + toSend| == |old(sent) + old(toSend)|;
        ProduceRan(State());
        ProducerTurn();
        accesses := accesses + 1;
        length := StreamReadLength();
      }
    }

    /**
     * stream_read, with the writing thread running for turns(t) accesses before the t-th access of
     * this one: the next bytes sent are delivered, in order, whatever the turns.
     */
    method StreamRead(len: nat, turns: nat -> nat)
      requires Valid() && consumer == Polling && |sent| + |toSend| >= taken + len
      modifies this, buf
      ensures Valid() && consumer == Polling && taken == old(taken) + len && old(sent) <= sent
      ensures |delivered| == taken && delivered == sent[..taken] && sent + toSend == old(sent + toSend)
    {
      var i := 0;
      while i < len
        invariant i <= len && Valid() && consumer == Polling && taken == old(taken) + i
        invariant old(sent) <= sent && sent + toSend == old(sent + toSend)
      {
        assert |sent + toSend| == |old(sent + toSend)|;
        RunWriter(turns(3 * i));
        ReadByte(turns(3 * i + 1), turns(3 * i + 2));
        i := i + 1;
      }
    }

    /** One turn of the loop of stream_read. */
    method ReadByte(before: nat, between: nat)
      requires Valid() && consumer == Polling && |sent| + |toSend| > taken
      modifies this, buf
      ensures Valid() && consumer == Polling && taken == old(taken) + 1
      ensures old(sent) <= sent && sent + toSend == old(sent + toSend)
    {
      ghost var accesses := WaitForData();
      FindByte();
      RunWriter(before);
      Advance();
      RunWriter(between);
      Load();
    }
  }
}

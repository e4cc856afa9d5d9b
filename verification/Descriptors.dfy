/** The descriptor tables of kernel/stream.c and the CONNECT and SELECT calls of kernel/syscall.c. */
module Descriptors {
  import opened Streams

  const MAX_DESCRIPTORS := 32

  /** A slot of a table: unused when its input is null. */
  datatype IoStream = IoStream(input: Stream?, output: Stream?)

  type Table = t: seq<IoStream> | |t| == MAX_DESCRIPTORS witness seq(MAX_DESCRIPTORS, _ => IoStream(null, null))

  /** Used slots come first. */
  predicate Prefix(t: Table) {
    forall i, j :: 0 <= i < j < MAX_DESCRIPTORS && t[j].input != null ==> t[i].input != null
  }

  /** The first unused slot, or the end of the table. */
  function FirstUnused(t: Table, from: nat): (i: nat)
    requires from <= MAX_DESCRIPTORS
    ensures from <= i <= MAX_DESCRIPTORS && (i < MAX_DESCRIPTORS ==> t[i].input == null)
    ensures forall j :: from <= j < i ==> t[j].input != null
    decreases MAX_DESCRIPTORS - from
  {
    if from == MAX_DESCRIPTORS || t[from].input == null then from else FirstUnused(t, from + 1)
  }

  /** The table after iostream_attach: a full table stays as it is. */
  function Attached(t: Table, input: Stream?, output: Stream?): Table {
    var i := FirstUnused(t, 0);
    if i < MAX_DESCRIPTORS then t[i := IoStream(input, output)] else t
  }

  lemma AttachKeepsPrefix(t: Table, input: Stream, output: Stream)
    requires Prefix(t)
    ensures Prefix(Attached(t, input, output))
  {
  }

  class DescriptorTable {
    const iostreams: array<IoStream>

    ghost function Slots(): Table
      requires iostreams.Length == MAX_DESCRIPTORS
      reads this, iostreams
    {
      iostreams[..]
    }

    ghost predicate Valid()
      reads this, iostreams
    {
      iostreams.Length == MAX_DESCRIPTORS && Prefix(Slots())
    }

    constructor ()
      ensures Valid() && fresh(iostreams) && forall i :: 0 <= i < MAX_DESCRIPTORS ==> Slots()[i] == IoStream(null, null)
    {
      iostreams := new IoStream[MAX_DESCRIPTORS](_ => IoStream(null, null));
    }

    /** The first unused slot gets the two streams, and its number is the answer; -1 if the table is full. */
    method IostreamAttach(input: Stream, output: Stream) returns (slot: int)
      requires Valid()
      modifies iostreams
      ensures Valid() && Slots() == Attached(old(Slots()), input, output)
      ensures slot == -1 <==> forall j :: 0 <= j < MAX_DESCRIPTORS ==> old(Slots())[j].input != null
      ensures slot == -1 ==> Slots() == old(Slots())
      ensures slot != -1 ==>
                && 0 <= slot < MAX_DESCRIPTORS && old(Slots())[slot].input == null
                && (forall j :: 0 <= j < slot ==> old(Slots())[j].input != null)
                && Slots() == old(Slots())[slot := IoStream(input, output)]
    {
      ghost var t := Slots();
      AttachKeepsPrefix(t, input, output);
      var i := 0;
      while i < MAX_DESCRIPTORS
        invariant 0 <= i <= MAX_DESCRIPTORS && Slots() == t && FirstUnused(t, 0) == FirstUnused(t, i)
      {
        if iostreams[i].input != null {
          i := i + 1;
          continue;
        }
        iostreams[i] := iostreams[i].(input := input);
        iostreams[i] := iostreams[i].(output := output);
        return i;
      }
      slot := -1;
    }

    /** All streams that are read through this table are sound. */
    ghost predicate InputsValid()
      requires iostreams.Length == MAX_DESCRIPTORS
      reads this, iostreams, set i | 0 <= i < MAX_DESCRIPTORS && iostreams[i].input != null :: iostreams[i].input,
            set i | 0 <= i < MAX_DESCRIPTORS && iostreams[i].input != null :: iostreams[i].input.buf
    {
      forall i :: 0 <= i < MAX_DESCRIPTORS && iostreams[i].input != null ==> iostreams[i].input.Valid()
    }

    /** The least slot whose input has bytes that were sent and not taken, or -1 exactly when no attached input has any. */
    method IostreamSelect() returns (slot: int)
      requires Valid() && InputsValid()
      ensures -1 <= slot < MAX_DESCRIPTORS
      ensures slot >= 0 ==> iostreams[slot].input != null && iostreams[slot].input.taken < |iostreams[slot].input.sent|
      ensures slot >= 0 ==> forall j :: 0 <= j < slot && iostreams[j].input != null ==> iostreams[j].input.taken == |iostreams[j].input.sent|
      ensures slot == -1 <==> forall j :: 0 <= j < MAX_DESCRIPTORS && iostreams[j].input != null ==>
                                            iostreams[j].input.taken == |iostreams[j].input.sent|
    {
      var i := 0;
      while i < MAX_DESCRIPTORS
        invariant 0 <= i <= MAX_DESCRIPTORS
        invariant forall j :: 0 <= j < i ==> iostreams[j].input != null && iostreams[j].input.taken == |iostreams[j].input.sent|
      {
        if iostreams[i].input == null {
          assert forall j :: i < j < MAX_DESCRIPTORS ==> Slots()[j].input == null;
          return -1;
        }
        var length := iostreams[i].input.StreamReadLength();
        if length > 0 {
          return i;
        }
        i := i + 1;
      }
      slot := -1;
    }
  }

  /**
   * SYSCALL_CONNECT, given the table of the process of that name, if there is one. The target gets its
   * end first, in slot `theirs`, or nowhere if its table is full; the answer is the caller's slot.
   */
  method Connect(cur: DescriptorTable, target: DescriptorTable?)
    returns (result: int, ghost input: Stream?, ghost output: Stream?, ghost theirs: int)
    requires cur.Valid() && (target != null ==> target.Valid() && (target != cur ==> target.iostreams != cur.iostreams))
    modifies cur.iostreams, if target != null then {target.iostreams} else {}
    ensures cur.Valid() && (target != null ==> target.Valid())
    ensures target == null ==> result == -1 && cur.Slots() == old(cur.Slots())
    ensures target != null ==> input != null && output != null && fresh(input) && fresh(output) && input != output
    ensures target != null ==> input.Valid() && output.Valid() && input.sent == output.sent == []
    // the target's end
    ensures target != null ==> (theirs == -1 <==> forall j :: 0 <= j < MAX_DESCRIPTORS ==> old(target.Slots())[j].input != null)
    ensures target != null && theirs != -1 ==>
              && 0 <= theirs < MAX_DESCRIPTORS && old(target.Slots())[theirs].input == null
              && forall j :: 0 <= j < theirs ==> old(target.Slots())[j].input != null
    ensures target != null && target != cur ==>
              target.Slots() == if theirs == -1 then old(target.Slots()) else old(target.Slots())[theirs := IoStream(output, input)]
    // the caller's end
    ensures target != null && target != cur ==>
              (result == -1 <==> forall j :: 0 <= j < MAX_DESCRIPTORS ==> old(cur.Slots())[j].input != null)
    ensures target == cur ==>
              (result == -1 <==> forall j :: 0 <= j < MAX_DESCRIPTORS && j != theirs ==> old(cur.Slots())[j].input != null)
    ensures result != -1 ==>
              && 0 <= result < MAX_DESCRIPTORS && old(cur.Slots())[result].input == null && (target == cur ==> result != theirs)
              && forall j :: 0 <= j < result && (target == cur ==> j != theirs) ==> old(cur.Slots())[j].input != null
    ensures target != null && target != cur ==>
              cur.Slots() == if result == -1 then old(cur.Slots()) else old(cur.Slots())[result := IoStream(input, output)]
    ensures target == cur ==>
              var t := if theirs == -1 then old(cur.Slots()) else old(cur.Slots())[theirs := IoStream(output, input)];
              cur.Slots() == if result == -1 then t else t[result := IoStream(input, output)]
  {
    if target != null {
      var i := new Stream();
      var o := new Stream();
      input, output := i, o;
      ghost var made := (i.State(), o.State());
      result, theirs := AttachEnds(cur, target, i, o);
      assert (i.State(), o.State()) == made;
    } else {
      result, input, output, theirs := -1, null, null, -1;
    }
  }

  /** The two attachments of CONNECT. */
  method AttachEnds(cur: DescriptorTable, target: DescriptorTable, i: Stream, o: Stream) returns (result: int, ghost theirs: int)
    requires cur.Valid() && target.Valid() && (target != cur ==> target.iostreams != cur.iostreams)
    modifies cur.iostreams, target.iostreams
    ensures cur.Valid() && target.Valid()
    ensures FirstFree(old(target.Slots()), -1, theirs) && FirstFree(old(cur.Slots()), if target == cur then theirs else -1, result)
    ensures target != cur ==> target.Slots() == Filled(old(target.Slots()), theirs, o, i) && cur.Slots() == Filled(old(cur.Slots()), result, i, o)
    ensures target == cur ==> cur.Slots() == Filled(Filled(old(cur.Slots()), theirs, o, i), result, i, o)
  {
    ghost var before := cur.Slots();
    var ignored := target.IostreamAttach(o, i);
    theirs := ignored;
    ghost var between := cur.Slots();
    assert between == if target == cur then Filled(before, theirs, o, i) else before;
    result := cur.IostreamAttach(i, o);
    if target == cur { StillFirstFree(before, theirs, o, i, result); }
  }

  /** The least slot that is unused, not counting `but`, or -1 if there is none. */
  predicate FirstFree(t: Table, but: int, slot: int) {
    && (slot == -1 <==> forall j :: 0 <= j < MAX_DESCRIPTORS && j != but ==> t[j].input != null)
    && (slot != -1 ==>
          && 0 <= slot < MAX_DESCRIPTORS && slot != but && t[slot].input == null
          && forall j :: 0 <= j < slot && j != but ==> t[j].input != null)
  }

  function Filled(t: Table, slot: int, input: Stream, output: Stream): Table {
    if 0 <= slot < MAX_DESCRIPTORS then t[slot := IoStream(input, output)] else t
  }

  lemma StillFirstFree(before: Table, but: int, input: Stream, output: Stream, slot: int)
    requires FirstFree(Filled(before, but, input, output), -1, slot)
    ensures FirstFree(before, but, slot)
  {
    var between := Filled(before, but, input, output);
    assert forall j :: 0 <= j < MAX_DESCRIPTORS ==> (between[j].input != null <==> before[j].input != null || j == but);
    if slot != -1 { assert between[slot].input == null; }
  }

  lemma AttachedIs(t: Table, input: Stream?, output: Stream?, slot: int)
    requires slot == -1 <==> forall j :: 0 <= j < MAX_DESCRIPTORS ==> t[j].input != null
    requires slot != -1 ==> 0 <= slot < MAX_DESCRIPTORS && t[slot].input == null && forall j :: 0 <= j < slot ==> t[j].input != null
    ensures Attached(t, input, output) == if slot == -1 then t else t[slot := IoStream(input, output)]
  {
  }

  /** All tables, by process. */
  type Tables = seq<Table>

  /** What slot i of process p reads from, and what it writes to. */
  function InputOf(s: Tables, p: nat, i: nat): Stream? {
    if p < |s| && i < MAX_DESCRIPTORS then s[p][i].input else null
  }

  function OutputOf(s: Tables, p: nat, i: nat): Stream? {
    if p < |s| && i < MAX_DESCRIPTORS then s[p][i].output else null
  }

  ghost predicate OneReader(s: Tables) {
    forall p, i, q, j {:trigger InputOf(s, p, i), InputOf(s, q, j)} ::
      InputOf(s, p, i) != null && InputOf(s, p, i) == InputOf(s, q, j) ==> p == q && i == j
  }

  ghost predicate OneWriter(s: Tables) {
    forall p, i, q, j {:trigger OutputOf(s, p, i), OutputOf(s, q, j)} ::
      OutputOf(s, p, i) != null && OutputOf(s, p, i) == OutputOf(s, q, j) ==> p == q && i == j
  }

  /** Who writes what a slot reads reads what that slot writes. */
  ghost predicate Paired(s: Tables) {
    forall p, i, q, j {:trigger InputOf(s, p, i), OutputOf(s, q, j)} ::
      InputOf(s, p, i) != null && InputOf(s, p, i) == OutputOf(s, q, j) ==> InputOf(s, q, j) == OutputOf(s, p, i)
  }

  ghost predicate Wired(s: Tables) {
    && (forall p {:trigger s[p]} :: 0 <= p < |s| ==> Prefix(s[p]))
    && OneReader(s) && OneWriter(s) && Paired(s)
  }

  ghost predicate Unused(s: Tables, x: Stream) {
    forall p, i :: InputOf(s, p, i) != x && OutputOf(s, p, i) != x
  }

  /** A CONNECT by process cur to process target, with the two streams it made. */
  function Connected(s: Tables, cur: nat, target: nat, input: Stream, output: Stream): Tables
    requires cur < |s| && target < |s|
  {
    var t := s[target := Attached(s[target], output, input)];
    t[cur := Attached(t[cur], input, output)]
  }

  /** Given the slots that the two ends get, as Connect says which, these are the tables after it. */
  lemma ConnectedIs(s: Tables, cur: nat, target: nat, input: Stream, output: Stream, theirs: int, result: int)
    requires cur < |s| && target < |s|
    requires theirs == -1 <==> forall j :: 0 <= j < MAX_DESCRIPTORS ==> s[target][j].input != null
    requires theirs != -1 ==>
               0 <= theirs < MAX_DESCRIPTORS && s[target][theirs].input == null && forall j :: 0 <= j < theirs ==> s[target][j].input != null
    requires result == -1 <==> forall j :: 0 <= j < MAX_DESCRIPTORS && (target == cur ==> j != theirs) ==> s[cur][j].input != null
    requires result != -1 ==>
               && 0 <= result < MAX_DESCRIPTORS && s[cur][result].input == null && (target == cur ==> result != theirs)
               && forall j :: 0 <= j < result && (target == cur ==> j != theirs) ==> s[cur][j].input != null
    ensures var t := if theirs == -1 then s else s[target := s[target][theirs := IoStream(output, input)]];
            Connected(s, cur, target, input, output) == if result == -1 then t else t[cur := t[cur][result := IoStream(input, output)]]
  {
    AttachedIs(s[target], output, input, theirs);
    var t := s[target := Attached(s[target], output, input)];
    assert forall j :: 0 <= j < MAX_DESCRIPTORS ==> (t[cur][j].input != null <==> s[cur][j].input != null || (target == cur && j == theirs));
    AttachedIs(t[cur], input, output, result);
  }

  /** What an attachment changes. */
  lemma AttachSlots(s: Tables, p: nat, a: Stream, b: Stream, q: nat, j: nat)
    requires p < |s|
    ensures var s', k := s[p := Attached(s[p], a, b)], FirstUnused(s[p], 0);
            && InputOf(s', q, j) == (if q == p && j == k && k < MAX_DESCRIPTORS then a else InputOf(s, q, j))
            && OutputOf(s', q, j) == (if q == p && j == k && k < MAX_DESCRIPTORS then b else OutputOf(s, q, j))
  {
  }

  /** One end of a new connection keeps the wiring. */
  lemma AttachWired(s: Tables, p: nat, a: Stream, b: Stream)
    requires Wired(s) && p < |s| && a != b
    requires forall q, j :: InputOf(s, q, j) != a && OutputOf(s, q, j) != b
    requires forall q, j :: OutputOf(s, q, j) == a ==> InputOf(s, q, j) == b
    requires forall q, j :: InputOf(s, q, j) == b ==> OutputOf(s, q, j) == a
    ensures Wired(s[p := Attached(s[p], a, b)])
  {
    var s' := s[p := Attached(s[p], a, b)];
    AttachKeepsPrefix(s[p], a, b);
    forall q: nat, j: nat
      ensures var k := FirstUnused(s[p], 0);
              && InputOf(s', q, j) == (if q == p && j == k && k < MAX_DESCRIPTORS then a else InputOf(s, q, j))
              && OutputOf(s', q, j) == (if q == p && j == k && k < MAX_DESCRIPTORS then b else OutputOf(s, q, j))
    {
      AttachSlots(s, p, a, b, q, j);
    }
  }

  /** CONNECT keeps the wiring, whatever tables are full, and also when a process connects to itself. */
  lemma ConnectWired(s: Tables, cur: nat, target: nat, input: Stream, output: Stream)
    requires Wired(s) && cur < |s| && target < |s|
    requires input != output && Unused(s, input) && Unused(s, output)
    ensures Wired(Connected(s, cur, target, input, output))
  {
    AttachWired(s, target, output, input);
    var t := s[target := Attached(s[target], output, input)];
    forall q: nat, j: nat
      ensures InputOf(t, q, j) != input && OutputOf(t, q, j) != output
      ensures OutputOf(t, q, j) == input <==> InputOf(t, q, j) == output
    {
      AttachSlots(s, target, output, input, q, j);
    }
    AttachWired(t, cur, input, output);
  }

  /** One more process, with an empty table, or one more connection. */
  datatype Event = NewProcess | NewConnection(cur: nat, target: nat, input: Stream, output: Stream)

  ghost predicate EventPossible(s: Tables, e: Event) {
    e.NewConnection? ==>
      && e.cur < |s| && e.target < |s| && e.input != e.output && Unused(s, e.input) && Unused(s, e.output)
  }

  function EmptyTable(): Table {
    seq(MAX_DESCRIPTORS, _ => IoStream(null, null))
  }

  ghost function AfterEvent(s: Tables, e: Event): Tables
    requires EventPossible(s, e)
  {
    match e
    case NewProcess => s + [EmptyTable()]
    case NewConnection(cur, target, input, output) => Connected(s, cur, target, input, output)
  }

  lemma EventWired(s: Tables, e: Event)
    requires Wired(s) && EventPossible(s, e)
    ensures Wired(AfterEvent(s, e))
  {
    match e
    case NewProcess =>
      forall q: nat, j: nat
        ensures InputOf(AfterEvent(s, e), q, j) == InputOf(s, q, j) && OutputOf(AfterEvent(s, e), q, j) == OutputOf(s, q, j)
      {
      }
    case NewConnection(cur, target, input, output) =>
      ConnectWired(s, cur, target, input, output);
  }

  /** Over any run of CONNECT every stream has one reader and one writer at most, and used slots come first. */
  lemma {:induction false} RunIsWired(run: seq<Tables>, events: seq<Event>)
    requires |run| == |events| + 1 && run[0] == []
    requires forall i :: 0 <= i < |events| ==> EventPossible(run[i], events[i]) && run[i + 1] == AfterEvent(run[i], events[i])
    ensures Wired(run[|events|])
    decreases |events|
  {
    if events != [] {
      var n := |events| - 1;
      RunIsWired(run[..|events|], events[..n]);
      EventWired(run[n], events[n]);
    }
  }
}

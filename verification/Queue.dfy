/** kernel/list.c: a queue in linked cells, which are kept for reuse when their targets leave. */
module Queue {

  /** An address; 0 is the null pointer. */
  type Pointer = nat

  class ListElem {
    var target: Pointer
    var next: ListElem?

    constructor ()
      ensures target == 0 && next == null
    {
      target, next := 0, null;
    }
  }

  function Set(c: seq<ListElem>): set<ListElem> {
    set e | e in c
  }

  predicate Apart(a: seq<ListElem>, b: seq<ListElem>) {
    forall i, j :: 0 <= i < |a| && 0 <= j < |b| ==> a[i] != b[j]
  }

  /** The cell at position i of a chain, or none past its end. */
  function At(c: seq<ListElem>, i: nat): ListElem? {
    if i < |c| then c[i] else null
  }

  /** Following `next` from first visits the cells of c, each once, and ends. */
  ghost predicate Chain(first: ListElem?, c: seq<ListElem>)
    reads c
  {
    && first == At(c, 0)
    && (forall i, j {:trigger c[i], At(c, j)} :: 0 <= i < |c| && j == i + 1 ==> c[i].next == At(c, j))
    && forall i, j :: 0 <= i < j < |c| ==> c[i] != c[j]
  }

  lemma SetOfMore(c: seq<ListElem>, e: ListElem)
    ensures Set(c + [e]) == Set(c) + {e} == Set([e] + c)
  {
  }

  class List {
    var size: int
    var lock: bool
    var head: ListElem?
    var tail: ListElem?
    var free: ListElem?

    ghost var live: seq<ListElem>  // the cells from head to tail
    ghost var spare: seq<ListElem>  // the cells kept for reuse
    ghost var cells: set<ListElem>  // all cells ever allocated
    ghost var contents: seq<Pointer>  // the targets in the queue, first come first
    ghost var lost: nat  // null targets taken out, which `size` still counts

    ghost predicate Linked()
      reads this`head, this`tail, this`free, this`live, this`spare, live, spare
    {
      && Chain(head, live) && tail == (if live == [] then null else At(live, |live| - 1))
      && Chain(free, spare) && Apart(live, spare)
    }

    ghost predicate Queued()
      reads this`live, this`contents, live
    {
      |contents| == |live| && forall i :: 0 <= i < |live| ==> live[i].target == contents[i]
    }

    ghost predicate Valid()
      reads this, live, spare
    {
      Linked() && Queued() && cells == Set(live) + Set(spare) && size == |live| + lost && !lock
    }

    constructor ()
      ensures Valid() && contents == [] && cells == {} && lost == 0
    {
      size, lock, head, tail, free := 0, false, null, null, null;
      live, spare, cells, contents, lost := [], [], {}, [], 0;
    }

    /** list_lock, once the lock is free. */
    method ListLock()
      requires Linked() && Queued() && !lock
      modifies this`lock
      ensures Linked() && Queued() && lock
    {
      lock := true;
    }

    /** The count is brought up to date, and the lock released. */
    method CountAndUnlock(change: int)
      requires Linked() && Queued() && lock && cells == Set(live) + Set(spare) && size + change == |live| + lost
      modifies this`size, this`lock
      ensures Valid()
    {
      size := size + change;
      lock := false;
    }

    /** A cell for a target: one kept for reuse if there is one, else a new one. */
    method ListElemNew(target: Pointer) returns (result: ListElem)
      requires Linked() && Queued()
      modifies this`free, this`spare, spare
      ensures Linked() && Queued() && Set(spare) + {result} == Set(old(spare)) + {result} && result.target == target && result.next == null
      ensures result !in live && result !in spare
      ensures if old(spare) == [] then spare == [] && fresh(result) else old(spare) == [result] + spare
    {
      if free != null {
        assert At(spare, 1) == spare[0].next;
        ghost var c := spare;
        result := free;
        free := free.next;
        spare := spare[1..];
        assert forall j: nat :: At(spare, j) == At(c, j + 1);
        assert c == [result] + spare;
        SetOfMore(spare, result);
      } else {
        result := new ListElem();
      }
      result.target := target;
      result.next := null;
    }

    /** A cell that is on no chain is kept for reuse. */
    method ListElemDelete(elem: ListElem)
      requires Linked() && Queued() && elem !in live && elem !in spare
      modifies this`free, this`spare, elem
      ensures Linked() && Queued() && spare == [elem] + old(spare) && Set(spare) == Set(old(spare)) + {elem}
    {
      SetOfMore(spare, elem);
      ghost var c := spare;
      elem.next := free;
      elem.target := 0;
      free := elem;
      spare := [elem] + spare;
      forall i, j {:trigger spare[i], At(spare, j)} | 0 <= i < |spare| && j == i + 1
        ensures spare[i].next == At(spare, j)
      {
        if i > 0 { assert c[i - 1].next == At(c, i); }
      }
    }

    /** The cell becomes the last of the queue. */
    method Append(elem: ListElem)
      requires Linked() && Queued() && elem !in live && elem !in spare && elem.next == null
      modifies this`head, this`tail, this`live, this`contents, live
      ensures Linked() && Queued() && live == old(live) + [elem] && Set(live) == Set(old(live)) + {elem}
      ensures contents == old(contents) + [old(elem.target)]
    {
      ghost var c := live;
      if tail == null {
        head := elem;
        tail := elem;
      } else {
        tail.next := elem;
        tail := elem;
      }
      SetOfMore(live, elem);
      live, contents := live + [elem], contents + [elem.target];
      forall i, j {:trigger live[i], At(live, j)} | 0 <= i < |live| && j == i + 1
        ensures live[i].next == At(live, j)
      {
        if j < |c| { assert old(c[i].next) == At(c, j); }
      }
      assert At(live, 0) == if c == [] then elem else At(c, 0);
    }

    /** The cell, not yet among the live ones, becomes the last of them. */
    method PushElem(elem: ListElem)
      requires Linked() && Queued() && lock && elem !in live && elem !in spare && elem.next == null
      requires cells + {elem} == Set(live) + Set(spare) + {elem} && size == |live| + lost
      modifies this`head, this`tail, this`live, this`contents, this`cells, this`size, this`lock, live
      ensures Valid() && contents == old(contents) + [old(elem.target)] && cells == old(cells) + {elem}
    {
      Append(elem);
      cells := cells + {elem};
      CountAndUnlock(1);
    }

    method Push(target: Pointer)
      requires Valid()
      modifies this, live, spare
      ensures Valid() && contents == old(contents) + [target] && lost == old(lost)
      ensures old(cells) <= cells && (old(spare) != [] ==> cells == old(cells))
    {
      ListLock();
      var elem := ListElemNew(target);
      PushElem(elem);
    }

    /** The first cell leaves the queue. */
    method Unlink() returns (elem: ListElem?)
      requires Linked() && Queued()
      modifies this`head, this`tail, this`live, this`contents
      ensures Linked() && Queued() && (elem == null <==> old(live) == [])
      ensures if elem == null then live == [] && contents == old(contents)
              else old(live) == [elem] + live && elem !in live && elem !in spare && Set(old(live)) == Set(live) + {elem}
                   && old(contents) == [elem.target] + contents
    {
      ghost var c := live;
      elem := head;
      assert c != [] ==> c[0].next == At(c, 1);
      if head == tail {
        head := null;
        tail := null;
      } else {
        head := head.next;
      }
      if elem != null {
        live, contents := live[1..], contents[1..];
        assert c == [elem] + live;
        SetOfMore(live, elem);
        forall i, j {:trigger live[i], At(live, j)} | 0 <= i < |live| && j == i + 1
          ensures live[i].next == At(live, j)
        {
          assert c[i + 1].next == At(c, j + 1);
        }
      }
    }

    /** The first target, or null; a null target leaves without being counted off. */
    method Pop() returns (result: Pointer)
      requires Valid()
      modifies this, live
      ensures Valid() && cells == old(cells)
      ensures old(contents) == [] ==> result == 0 && contents == [] && lost == old(lost)
      ensures old(contents) != [] ==> result == old(contents)[0] && contents == old(contents)[1..]
                                        && lost == old(lost) + if result == 0 then 1 else 0
    {
      result := 0;
      if size == 0 {
        return 0;
      }
      ListLock();
      var elem := Unlink();
      if elem != null {
        result := Recycle(elem);
      } else {
        CountAndUnlock(0);
      }
    }

    /** The target of the cell taken out, which is kept for reuse. */
    method Recycle(elem: ListElem) returns (result: Pointer)
      requires Linked() && Queued() && lock && elem !in live && elem !in spare
      requires cells == Set(live) + {elem} + Set(spare) && size == |live| + 1 + lost
      modifies this`free, this`spare, this`size, this`lock, this`lost, elem
      ensures Valid() && result == old(elem.target) && lost == old(lost) + if result == 0 then 1 else 0
    {
      result := elem.target;
      ListElemDelete(elem);
      if result == 0 { lost := lost + 1; }
      CountAndUnlock(if result != 0 then -1 else 0);
    }

    /** Cells put by for later. */
    method Prealloc(count: int)
      requires Valid()
      modifies this`free, this`spare, this`cells
      ensures Valid() && contents == old(contents) && live == old(live)
      ensures |spare| == |old(spare)| + (if count > 0 then count else 0) && old(cells) <= cells
    {
      var left := count;
      while left > 0
        invariant Valid() && live == old(live) && contents == old(contents) && old(cells) <= cells
        invariant left <= count && (count > 0 ==> left >= 0)
        invariant |spare| == |old(spare)| + (if count > 0 then count - left else 0)
      {
        var elem := new ListElem();
        ListElemDelete(elem);
        cells := cells + {elem};
        left := left - 1;
      }
    }
  }
}

/** kmalloc_obj and kfree_obj of kernel/src/mm.c on the linked list itself. */
module FreeListHeap {
  import opened Machine
  import opened Sequences
  import opened FreeList
  import opened FreeListCases

  /** freelist_t */
  class Node {
    var address: nat
    var size: nat
    var next: Node?

    constructor (address: nat, size: nat, next: Node?)
      ensures this.address == address && this.size == size && this.next == next
    {
      this.address, this.size, this.next := address, size, next;
    }
  }

  ghost predicate Linked(nodes: seq<Node>)
    reads nodes
  {
    forall i {:trigger nodes[i].next} :: 0 <= i < |nodes| ==> nodes[i].next == ItemOr<Node?>(nodes, i + 1, null)
  }

  ghost predicate Hold(nodes: seq<Node>, chunks: seq<Chunk>)
    reads nodes
  {
    && |chunks| == |nodes|
    && (forall i :: 0 <= i < |nodes| ==> nodes[i].address == chunks[i].addr && nodes[i].size == chunks[i].size)
  }

  class ObjectSpace {
    var head: Node?  // _FREELIST
    ghost var nodes: seq<Node>
    ghost var chunks: seq<Chunk>
    ghost var Repr: set<object>  // all entries

    /** The nodes are linked in order, each once, and hold the chunks. */
    ghost predicate Valid()
      reads this, Repr
    {
      && (forall i :: 0 <= i < |nodes| ==> nodes[i] in Repr) && this !in Repr
      && head == ItemOr<Node?>(nodes, 0, null) && Linked(nodes) && Hold(nodes, chunks) && Distinct(nodes)
    }

    /** The list as FreeInit sets it up for a region. */
    constructor (address: nat, size: nat)
      ensures Valid() && chunks == [Chunk(address, size)] && fresh(Repr)
    {
      var entry := new Node(address, size, null);
      head, nodes, chunks, Repr := entry, [entry], [Chunk(address, size)], {entry};
    }

    /** The search loop of kmalloc_obj: the first entry that is big enough, and the one before it. */
    method FindFit(n: nat) returns (ptr: Node?, ptr2: Node?, ghost i: nat)
      requires Valid()
      ensures i == FitIndex(chunks, n) && ptr == ItemOr<Node?>(nodes, i, null) && (i > 0 ==> ptr2 == nodes[i - 1])
    {
      ptr, ptr2, i := head, head, 0;
      ghost var s := chunks;
      while ptr != null && ptr.size < n
        invariant 0 <= i <= |nodes| && ptr == ItemOr<Node?>(nodes, i, null) && (i > 0 ==> ptr2 == nodes[i - 1])
        invariant forall j :: 0 <= j < i ==> s[j].size < n
        decreases |nodes| - i
      {
        ptr2, ptr, i := ptr, ptr.next, i + 1;
      }
      FitIs(s, n, i);
    }

    /** Take an entry out of the list. */
    method Unlink(ptr: Node, ptr2: Node?, ghost i: nat)
      requires Valid() && i < |nodes| && ptr == nodes[i] && (i > 0 ==> ptr2 == nodes[i - 1])
      modifies this, Repr
      ensures Valid() && Repr == old(Repr) && chunks == RemovedAt(old(chunks), i)
    {
      ghost var ns, ns' := nodes, RemovedAt(nodes, i);
      RemovedAtElements(ns, i);
      RemovedAtElements(chunks, i);
      DistinctRemoved(ns, i);
      if i > 0 {
        DistinctAt(ns, i - 1);
      }
      DistinctAt(ns, 0);
      if ptr == head {
        head := ptr.next;
      } else {
        ptr2.next := ptr.next;
      }
      nodes, chunks := ns', RemovedAt(chunks, i);
      forall j | 0 <= j < |ns'| ensures ns'[j] in Repr && ns'[j].next == ItemOr<Node?>(ns', j + 1, null) {
        assert ns'[j] == ns[if j < i then j else j + 1];
      }
    }

    /** Overwrite the range of an entry. */
    method SetRange(ptr: Node, ghost i: nat, address: nat, size: nat)
      requires Valid() && i < |nodes| && ptr == nodes[i]
      modifies this`chunks, ptr
      ensures Valid() && nodes == old(nodes) && Repr == old(Repr) && chunks == old(chunks)[i := Chunk(address, size)]
    {
      DistinctAt(nodes, i);
      hide Distinct;
      ptr.address := address;
      ptr.size := size;
      chunks := chunks[i := Chunk(address, size)];
    }

    /** Cut n bytes off the front of an entry, or take the entry out when that is all of it. */
    method TakeFrom(fit: Node, ptr2: Node?, ghost i: nat, n: nat)
      requires Valid() && i < |nodes| && fit == nodes[i] && (i > 0 ==> ptr2 == nodes[i - 1])
      requires n <= chunks[i].size
      modifies this, Repr
      ensures old(Valid()) && Valid() && Repr == old(Repr)
      ensures chunks == Splice(old(chunks), i, i + 1, Rest(old(chunks[i]), n))
    {
      ghost var s := chunks;
      if fit.size != n {
        SpliceOne(s, i, Chunk(s[i].addr + n, s[i].size - n));
        SetRange(fit, i, fit.address + n, fit.size - n);
      } else {
        SpliceNone(s, i);
        Unlink(fit, ptr2, i);
      }
    }

    /** kmalloc_obj */
    method kmalloc_obj(size: nat) returns (address: nat)
      requires Valid() && size < WORD
      modifies this, Repr
      ensures Valid() && Repr == old(Repr)
      ensures Allocation(address, chunks) == AllocAsWritten(old(chunks), size)
      ensures size <= WORD - L4_PAGESIZE ==> Allocation(address, chunks) == Alloc(old(chunks), size)
    {
      RoundsAlike(size);
      hide PageRoundUp, RoundUpInWord;
      if head == null || size == 0 {
        return 0;
      }
      var n := RoundUpInWord(size);
      var fit, ptr2, i := FindFit(n);
      if fit == null {
        return 0;
      }
      address := fit.address;
      TakeFrom(fit, ptr2, i, n);
    }

    /** The search loop of kfree_obj: the first entry that does not start before the address, and the
        one before it. */
    method FindGap(a: nat) returns (ptr: Node?, ptr2: Node?, ghost i: nat)
      requires Valid() && head != null
      ensures i == GapIndex(chunks, a) && ptr == ItemOr<Node?>(nodes, i, null)
      ensures ptr2 == nodes[if i == 0 then 0 else i - 1]
    {
      ptr, ptr2, i := head, head, 0;
      ghost var s := chunks;
      while ptr != null && ptr.address < a
        invariant 0 <= i <= |nodes| && ptr == ItemOr<Node?>(nodes, i, null)
        invariant ptr2 == nodes[if i == 0 then 0 else i - 1]
        invariant forall j :: 0 <= j < i ==> s[j].addr < a
        decreases |nodes| - i
      {
        ptr2, ptr, i := ptr, ptr.next, i + 1;
      }
      GapIs(s, a, i);
    }

    /** Put a new entry into the list. */
    method Link(ptr: Node?, ptr2: Node?, ghost i: nat, address: nat, size: nat)
      requires Valid() && i <= |nodes| && ptr == ItemOr<Node?>(nodes, i, null) && (i > 0 ==> ptr2 == nodes[i - 1])
      modifies this, Repr
      ensures Valid() && chunks == InsertedAt(old(chunks), i, Chunk(address, size))
      ensures fresh(Repr - old(Repr))
    {
      var entry := new Node(address, size, ptr);
      ghost var ns, ns' := nodes, InsertedAt(nodes, i, entry);
      ghost var cs' := InsertedAt(chunks, i, Chunk(address, size));
      InsertedAtElements(ns, i, entry);
      InsertedAtElements(chunks, i, Chunk(address, size));
      assert entry !in ns;
      DistinctInserted(ns, i, entry);
      if i > 0 {
        DistinctAt(ns, i - 1);
        DistinctAt(ns, 0);
      }
      if ptr == head {
        head := entry;
      } else {
        ptr2.next := entry;
      }
      nodes, chunks, Repr := ns', cs', Repr + {entry};
      forall j | 0 <= j < |ns'|
        ensures ns'[j] in Repr
        ensures ns'[j].next == ItemOr<Node?>(ns', j + 1, null)
        ensures ns'[j].address == cs'[j].addr && ns'[j].size == cs'[j].size
      {
        assert j != i ==> ns'[j] == ns[if j < i then j else j - 1];
      }
    }

    /** kfree_obj, with the size rounded up before anything else and the right neighbour unlinked
        when it is merged. */
    method kfree_obj(address: nat, size: nat)
      requires Valid() && Tidy(chunks)
      requires size > 0 ==> Releasable(chunks, Chunk(address, PageRoundUp(size)))
      modifies this, Repr
      ensures Valid() && fresh(Repr - old(Repr))
      ensures chunks == Free(old(chunks), address, size)
    {
      if size == 0 {
        return;
      }
      var n := PageRoundUp(size);
      if head == null {
        EmptyRelease(chunks, Chunk(address, n));
        hide Release, Tidy, Releasable, InsertedAt;
        Link(null, null, 0, address, n);
      } else {
        FreeCases(chunks, Chunk(address, n));
        hide Release, Tidy, Releasable, GapIndex, Coalesced;
        var ptr, ptr2, i := FindGap(address);
        Coalesce(ptr, ptr2, i, address, n);
      }
    }

    /** The range is added to the entry before it, and the entry after it as well. */
    method JoinBoth(ptr: Node, ptr2: Node, ghost i: nat, n: nat)
      requires Valid() && 0 < i < |nodes| && ptr == nodes[i] && ptr2 == nodes[i - 1]
      modifies this, Repr
      ensures Valid() && Repr == old(Repr)
      ensures chunks == Bridged(old(chunks), i, n)
    {
      ghost var s := chunks;
      var size := ptr2.size + n + ptr.size;
      SetRange(ptr2, i - 1, ptr2.address, size);
      assert chunks == s[i - 1 := Chunk(s[i - 1].addr, size)];
      Unlink(ptr, ptr2, i);
    }

    /** The four ways in which kfree_obj puts a range into the list. */
    method Coalesce(ptr: Node?, ptr2: Node, ghost i: nat, address: nat, n: nat)
      requires Valid() && i <= |nodes| && nodes != [] && ptr == ItemOr<Node?>(nodes, i, null)
      requires ptr2 == nodes[if i == 0 then 0 else i - 1] && (i == 0 ==> End(chunks[0]) != address)
      modifies this, Repr
      ensures Valid() && fresh(Repr - old(Repr))
      ensures i <= old(|chunks|) && chunks == Coalesced(old(chunks), i, Chunk(address, n))
    {
      if ptr2.address + ptr2.size == address {
        if ptr != null && ptr.address == address + n {
          JoinBoth(ptr, ptr2, i, n);
        } else {
          SetRange(ptr2, i - 1, ptr2.address, ptr2.size + n);
        }
      } else if ptr != null && ptr.address == address + n {
        SetRange(ptr, i, address, ptr.size + n);
      } else {
        Link(ptr, ptr2, i, address, n);
      }
    }

    /** kfree_obj to the letter: an empty list takes the size as it is, and when both neighbours are joined the
        right one stays linked, although its memory is given back. */
    method kfree_obj_as_written(address: nat, size: nat)
      requires Valid() && Tidy(chunks)
      requires size > 0 ==> Releasable(chunks, Chunk(address, PageRoundUp(size)))
      modifies this, Repr
      ensures Valid() && fresh(Repr - old(Repr))
      ensures chunks == FreeAsWritten(old(chunks), address, size)
    {
      hide Tidy, Releasable, GapIndex, CoalescedAsWritten, Release;
      if head == null {
        Link(null, null, 0, address, size);
        return;
      }
      if size == 0 {
        return;
      }
      var n := PageRoundUp(size);
      CasesAsWritten(chunks, address, size);
      var ptr, ptr2, i := FindGap(address);
      CoalesceAsWritten(ptr, ptr2, i, address, n);
    }

    /** The four ways to the letter. */
    method CoalesceAsWritten(ptr: Node?, ptr2: Node, ghost i: nat, address: nat, n: nat)
      requires Valid() && i <= |nodes| && nodes != [] && ptr == ItemOr<Node?>(nodes, i, null)
      requires ptr2 == nodes[if i == 0 then 0 else i - 1] && (i == 0 ==> End(chunks[0]) != address)
      modifies this, Repr
      ensures Valid() && fresh(Repr - old(Repr))
      ensures i <= old(|chunks|) && chunks == CoalescedAsWritten(old(chunks), i, Chunk(address, n))
    {
      hide Coalesced, Bridged;
      if ptr2.address + ptr2.size == address && ptr != null && ptr.address == address + n {
        SetRange(ptr2, i - 1, ptr2.address, ptr2.size + n + ptr.size);
      } else {
        Coalesce(ptr, ptr2, i, address, n);
      }
    }
  }
}

/** The doubly linked list of free runs in lib/naming/hmalloc.c, in place: the search, the removal and the
    cases of joining in malloc_pages and free_pages. The page directory comes with PageHeap. */
module HeapRuns {
  import opened Machine
  import opened Sequences
  import opened FreeList
  import opened FreeListCases

  /** struct pgfree */
  class PgFree {
    var next: PgFree?
    var prev: PgFree?
    var page: nat
    var end: nat
    var size: nat

    constructor (page: nat, end: nat, size: nat)
      ensures this.page == page && this.end == end && this.size == size
    {
      this.page, this.end, this.size := page, end, size;
    }
  }

  function PrevOf(front: PgFree, nodes: seq<PgFree>, i: nat): PgFree
    requires i <= |nodes|
  {
    if i == 0 then front else nodes[i - 1]
  }

  /** Each node is linked to the next one and back. */
  ghost predicate Linked(front: PgFree, nodes: seq<PgFree>)
    reads front, nodes
  {
    && front.next == ItemOr<PgFree?>(nodes, 0, null)
    && (forall i {:trigger nodes[i].next} :: 0 <= i < |nodes| ==> nodes[i].next == ItemOr<PgFree?>(nodes, i + 1, null))
    && (forall i {:trigger nodes[i].prev} :: 0 <= i < |nodes| ==> nodes[i].prev == PrevOf(front, nodes, i))
  }

  /** The links of the others lead past node k. */
  ghost predicate Skips(front: PgFree, nodes: seq<PgFree>, k: nat)
    requires k < |nodes|
    reads front, nodes
  {
    && front.next == ItemOr<PgFree?>(nodes, if k == 0 then 1 else 0, null)
    && (forall i {:trigger nodes[i].next} :: 0 <= i < |nodes| ==>
        nodes[i].next == ItemOr<PgFree?>(nodes, if i + 1 == k then k + 1 else i + 1, null))
    && (forall i {:trigger nodes[i].prev} :: 0 <= i < |nodes| ==>
        nodes[i].prev == PrevOf(front, nodes, if i == k + 1 then k else i))
  }

  lemma SkippedIsLinked(front: PgFree, nodes: seq<PgFree>, k: nat)
    requires k < |nodes| && Skips(front, nodes, k)
    ensures Linked(front, RemovedAt(nodes, k))
  {
    var r := RemovedAt(nodes, k);
    RemovedAtElements(nodes, k);
    forall j | 0 <= j < |r| ensures r[j].next == ItemOr<PgFree?>(r, j + 1, null) {
      RemovedNeighbours(front, nodes, k, r, j);
      assert nodes[if j < k then j else j + 1].next == ItemOr<PgFree?>(r, j + 1, null);
    }
    forall j | 0 <= j < |r| ensures r[j].prev == PrevOf(front, r, j) {
      RemovedNeighbours(front, nodes, k, r, j);
      assert nodes[if j < k then j else j + 1].prev == PrevOf(front, r, j);
    }
    assert front.next == ItemOr<PgFree?>(r, 0, null);
  }

  lemma RemovedNeighbours(front: PgFree, nodes: seq<PgFree>, k: nat, r: seq<PgFree>, j: nat)
    requires k < |nodes| && r == RemovedAt(nodes, k) && j < |r|
    ensures var i := if j < k then j else j + 1;
            && r[j] == nodes[i]
            && ItemOr<PgFree?>(r, j + 1, null) == ItemOr<PgFree?>(nodes, if i + 1 == k then k + 1 else i + 1, null)
            && PrevOf(front, r, j) == PrevOf(front, nodes, if i == k + 1 then k else i)
  {
    RemovedAtElements(nodes, k);
  }

  /** The links lead over px between the nodes before and from k. */
  ghost predicate Crosses(front: PgFree, nodes: seq<PgFree>, k: nat, px: PgFree)
    requires k <= |nodes|
    reads front, nodes, px
  {
    && front.next == (if k == 0 then px else ItemOr<PgFree?>(nodes, 0, null))
    && px.next == ItemOr<PgFree?>(nodes, k, null) && px.prev == PrevOf(front, nodes, k)
    && (forall i {:trigger nodes[i].next} :: 0 <= i < |nodes| ==>
        nodes[i].next == if i + 1 == k then px else ItemOr<PgFree?>(nodes, i + 1, null))
    && (forall i {:trigger nodes[i].prev} :: 0 <= i < |nodes| ==>
        nodes[i].prev == if i == k then px else PrevOf(front, nodes, i))
  }

  lemma CrossedIsLinked(front: PgFree, nodes: seq<PgFree>, k: nat, px: PgFree)
    requires k <= |nodes| && Crosses(front, nodes, k, px)
    ensures Linked(front, InsertedAt(nodes, k, px))
  {
    var r := InsertedAt(nodes, k, px);
    InsertedAtElements(nodes, k, px);
    hide InsertedAt;
    forall j | 0 <= j < |r| ensures r[j].next == ItemOr<PgFree?>(r, j + 1, null) {
      assert j != k ==> r[j] == nodes[if j < k then j else j - 1];
    }
    forall j | 0 <= j < |r| ensures r[j].prev == PrevOf(front, r, j) {
      assert j != k ==> r[j] == nodes[if j < k then j else j - 1];
    }
  }

  ghost predicate HoldsRun(n: PgFree, c: Chunk)
    reads n
  {
    n.page == c.addr && n.end == End(c) && n.size == c.size
  }

  ghost predicate Hold(nodes: seq<PgFree>, runs: seq<Chunk>)
    reads nodes
  {
    |nodes| == |runs| && forall i :: 0 <= i < |nodes| ==> HoldsRun(nodes[i], runs[i])
  }

  /** No page numbers have changed. */
  twostate predicate SamePages(nodes: seq<PgFree>)
    reads nodes
  {
    forall i :: 0 <= i < |nodes| ==>
      nodes[i].page == old(nodes[i].page) && nodes[i].end == old(nodes[i].end) && nodes[i].size == old(nodes[i].size)
  }

  class RunList {
    const free_list: PgFree  // stands in front of the first run
    ghost var nodes: seq<PgFree>
    ghost var runs: seq<Chunk>
    ghost var Repr: set<object>

    ghost predicate Chained()
      reads this, Repr
    {
      && (forall i :: 0 <= i < |nodes| ==> nodes[i] in Repr && nodes[i] != free_list)
      && this !in Repr && free_list in Repr
      && Distinct(nodes) && Linked(free_list, nodes)
    }

    ghost predicate Valid()
      reads this, Repr
    {
      Chained() && Hold(nodes, runs)
    }

    /** One run of free pages. */
    constructor (page: nat, size: nat)
      ensures Valid() && runs == [Chunk(page, size)] && fresh(Repr)
    {
      var head := new PgFree(0, 0, 0);
      var run := new PgFree(page, page + size, size);
      head.next, head.prev, run.next, run.prev := run, null, null, head;
      free_list, nodes, runs, Repr := head, [run], [Chunk(page, size)], {head, run};
    }

    /** Lead the links past a node. */
    method Bypass(pf: PgFree, ghost k: nat)
      requires Chained() && k < |nodes| && pf == nodes[k]
      modifies Repr
      ensures Skips(free_list, nodes, k) && SamePages(nodes) && nodes == old(nodes) && Repr == old(Repr)
    {
      hide Distinct;
      DistinctAt(nodes, k);
      if k > 0 {
        DistinctAt(nodes, k - 1);
      }
      BypassBack(pf, k);
      pf.prev.next := pf.next;
    }

    /** The link back of the next node. */
    method BypassBack(pf: PgFree, ghost k: nat)
      requires Chained() && k < |nodes| && pf == nodes[k]
      modifies (set n | n in nodes)`prev
      ensures forall i {:trigger nodes[i].prev} :: 0 <= i < |nodes| ==>
                nodes[i].prev == PrevOf(free_list, nodes, if i == k + 1 then k else i)
    {
      hide Distinct;
      if k + 1 < |nodes| {
        DistinctAt(nodes, k + 1);
      }
      if pf.next != null {
        pf.next.prev := pf.prev;
      }
    }

    /** Take a node out of the chain. */
    method Detach(pf: PgFree, ghost k: nat)
      requires Chained() && k < |nodes| && pf == nodes[k]
      modifies this`nodes, Repr
      ensures Chained() && nodes == RemovedAt(old(nodes), k) && SamePages(old(nodes))
    {
      ghost var ns := nodes;
      Bypass(pf, k);
      SkippedIsLinked(free_list, ns, k);
      RemovedAtElements(ns, k);
      DistinctRemoved(ns, k);
      hide Distinct, Linked, RemovedAt;
      nodes := RemovedAt(ns, k);
      forall j | 0 <= j < |nodes| ensures nodes[j] in Repr && nodes[j] != free_list {
        assert nodes[j] == ns[if j < k then j else j + 1];
      }
    }

    /** Take a node out, with its run. */
    method Unlink(pf: PgFree, ghost k: nat)
      requires Valid() && k < |nodes| && pf == nodes[k]
      modifies this, Repr
      ensures Valid() && Repr == old(Repr) && runs == RemovedAt(old(runs), k)
    {
      ghost var ns, rs := nodes, runs;
      Detach(pf, k);
      runs := RemovedAt(runs, k);
      RemovedAtElements(ns, k);
      RemovedAtElements(rs, k);
      hide RemovedAt, Chained;
      forall j | 0 <= j < |nodes| ensures HoldsRun(nodes[j], runs[j]) {
        var i := if j < k then j else j + 1;
        assert HoldsRun(ns[i], rs[i]);
      }
    }

    /** Lead the links over a new node. */
    method Bridge(px: PgFree, ghost k: nat, next: PgFree?, prev: PgFree)
      requires Chained() && px !in Repr
      requires k <= |nodes| && next == ItemOr<PgFree?>(nodes, k, null) && prev == PrevOf(free_list, nodes, k)
      modifies Repr, px
      ensures Crosses(free_list, nodes, k, px) && SamePages(nodes) && SamePages([px])
      ensures nodes == old(nodes) && Repr == old(Repr)
    {
      if k > 0 {
        DistinctAt(nodes, k - 1);
      }
      if k < |nodes| {
        DistinctAt(nodes, k);
      }
      hide Distinct;
      px.next, px.prev := next, prev;
      if next != null {
        next.prev := px;
      }
      prev.next := px;
    }

    /** Put a node into the chain. */
    method Attach(px: PgFree, ghost k: nat, next: PgFree?, prev: PgFree)
      requires Chained() && px !in Repr
      requires k <= |nodes| && next == ItemOr<PgFree?>(nodes, k, null) && prev == PrevOf(free_list, nodes, k)
      modifies this`nodes, this`Repr, Repr, px
      ensures Chained() && nodes == InsertedAt(old(nodes), k, px) && Repr == old(Repr) + {px}
      ensures SamePages(old(nodes)) && SamePages([px])
    {
      ghost var ns := nodes;
      Bridge(px, k, next, prev);
      CrossedIsLinked(free_list, ns, k, px);
      InsertedAtElements(ns, k, px);
      DistinctInserted(ns, k, px);
      hide Distinct, Linked, InsertedAt;
      nodes, Repr := InsertedAt(ns, k, px), Repr + {px};
      forall j | 0 <= j < |nodes| ensures nodes[j] in Repr && nodes[j] != free_list {
        assert j != k ==> nodes[j] == ns[if j < k then j else j - 1];
      }
    }

    /** Put a node in, with its run. */
    method Link(px: PgFree, ghost k: nat, next: PgFree?, prev: PgFree, ghost c: Chunk)
      requires Valid() && px !in Repr && HoldsRun(px, c)
      requires k <= |nodes| && next == ItemOr<PgFree?>(nodes, k, null) && prev == PrevOf(free_list, nodes, k)
      modifies this, Repr, px
      ensures Valid() && Repr == old(Repr) + {px} && runs == InsertedAt(old(runs), k, c)
    {
      ghost var ns, rs := nodes, runs;
      Attach(px, k, next, prev);
      assert [px][0] == px;
      runs := InsertedAt(runs, k, c);
      InsertedAtElements(ns, k, px);
      InsertedAtElements(rs, k, c);
      hide InsertedAt, Chained;
      forall j | 0 <= j < |nodes| ensures HoldsRun(nodes[j], runs[j]) {
        if j != k {
          var i := if j < k then j else j - 1;
          assert HoldsRun(ns[i], rs[i]);
        }
      }
    }

    /** Overwrite the pages of a node. */
    method SetRun(pf: PgFree, ghost k: nat, page: nat, end: nat, size: nat)
      requires Valid() && k < |nodes| && pf == nodes[k] && end == page + size
      modifies this`runs, pf`page, pf`end, pf`size
      ensures Valid() && nodes == old(nodes) && Repr == old(Repr) && runs == old(runs)[k := Chunk(page, size)]
    {
      DistinctAt(nodes, k);
      hide Distinct;
      pf.page, pf.end, pf.size := page, end, size;
      runs := runs[k := Chunk(page, size)];
    }

    /** The search and the removal in malloc_pages: first fit, from the front of the run. */
    method TakePages(size: nat) returns (p: nat)
      requires Valid() && size > 0
      modifies this, Repr
      ensures Valid() && Repr == old(Repr)
      ensures p == Alloc(old(runs), size).addr && runs == Alloc(old(runs), size).left
    {
      var n := PageRoundUp(size);
      var pf, k := FindFit(n);
      if pf == null {
        return 0;
      }
      p := pf.page;
      SpliceNone(runs, k);
      if pf.size == n {
        Unlink(pf, k);
      } else {
        SpliceOne(runs, k, Chunk(pf.page + n, pf.size - n));
        SetRun(pf, k, pf.page + n, pf.end, pf.size - n);
      }
    }

    /** The search loop of malloc_pages. */
    method FindFit(n: nat) returns (pf: PgFree?, ghost k: nat)
      requires Valid()
      ensures k == FitIndex(runs, n) && pf == ItemOr<PgFree?>(nodes, k, null)
      ensures pf != null ==> k < |nodes| && HoldsRun(pf, runs[k])
    {
      pf, k := free_list.next, 0;
      ghost var s := runs;
      while pf != null && pf.size < n
        invariant k <= |nodes| && pf == ItemOr<PgFree?>(nodes, k, null)
        invariant forall j :: 0 <= j < k ==> s[j].size < n
        decreases |nodes| - k
      {
        assert HoldsRun(nodes[k], s[k]);
        pf, k := pf.next, k + 1;
      }
      assert pf != null ==> HoldsRun(nodes[k], s[k]);
      FitIs(s, n, k);
    }

    /** The search loop of free_pages: the first run that does not end before the pages, or the last. */
    method FindPlace(ptr: nat) returns (pf: PgFree, ghost k: nat)
      requires Valid() && runs != []
      ensures k < |nodes| && pf == nodes[k] && HoldsRun(pf, runs[k])
      ensures forall j :: 0 <= j < k ==> End(runs[j]) < ptr
      ensures End(runs[k]) >= ptr || k == |runs| - 1
    {
      pf, k := free_list.next, 0;
      assert HoldsRun(nodes[0], runs[0]);
      while pf.end < ptr && pf.next != null
        invariant k < |nodes| && pf == nodes[k] && HoldsRun(pf, runs[k])
        invariant forall j :: 0 <= j < k ==> End(runs[j]) < ptr
        decreases |nodes| - k
      {
        pf, k := pf.next, k + 1;
        assert HoldsRun(nodes[k], runs[k]);
      }
    }

    /** The list part of free_pages. */
    method AddPages(ptr: nat, l: nat)
      requires Valid() && Tidy(runs) && Releasable(runs, Chunk(ptr, l))
      modifies this, Repr
      ensures Valid() && fresh(Repr - old(Repr))
      ensures runs == Release(old(runs), ptr, l)
    {
      ghost var s, c := runs, Chunk(ptr, l);
      if free_list.next == null {
        EmptyRelease(s, c);
        var px := new PgFree(ptr, ptr + l, l);
        Link(px, 0, null, free_list, c);
        return;
      }
      FreeCases(s, c);
      var pf, k := FindPlace(ptr);
      PlaceMeans(s, c, k);
      hide Tidy, Releasable, GapIndex, Release;
      Join(pf, k, ptr, l);
    }

    /** The cases of free_pages. */
    method Join(pf: PgFree, ghost k: nat, ptr: nat, l: nat)
      requires Valid() && k < |nodes| && pf == nodes[k] && HoldsRun(pf, runs[k])
      requires Place(runs, k, Chunk(ptr, l))
      modifies this, Repr
      ensures Valid() && fresh(Repr - old(Repr))
      ensures k < |old(runs)| && PlaceIndex(old(runs), k, Chunk(ptr, l)) <= |old(runs)|
      ensures runs == Coalesced(old(runs), PlaceIndex(old(runs), k, Chunk(ptr, l)), Chunk(ptr, l))
    {
      ghost var s, c := runs, Chunk(ptr, l);
      var tail := ptr + l;
      if pf.page > tail {
        var px := new PgFree(ptr, tail, l);
        Link(px, k, pf, pf.prev, c);
      } else if pf.end == ptr {
        ExtendRun(pf, k, tail, l);
      } else if pf.page == tail {
        SetRun(pf, k, ptr, pf.end, pf.size + l);
      } else {
        var px := new PgFree(ptr, tail, l);
        Link(px, k + 1, null, pf, c);
      }
    }

    /** The pages are added behind a run, and the next run too when that touches them. */
    method ExtendRun(pf: PgFree, ghost k: nat, tail: nat, l: nat)
      requires Valid() && k < |nodes| && pf == nodes[k] && HoldsRun(pf, runs[k]) && pf.end + l == tail
      modifies this, Repr
      ensures Valid() && Repr == old(Repr) && k < |old(runs)|
      ensures runs == Coalesced(old(runs), k + 1, Chunk(tail - l, l))
    {
      hide Coalesced, RemovedAt;
      ExtendIs(runs, k, tail, l);
      SetRun(pf, k, pf.page, tail, pf.size + l);
      if pf.next != null {
        assert HoldsRun(nodes[k + 1], runs[k + 1]);
        if tail == pf.next.page {
          var pt := pf.next;
          SetRun(pf, k, pf.page, pt.end, pf.size + pt.size);
          Unlink(pt, k + 1);
        }
      }
    }
  }

  /** The changes that add pages behind run k. */
  lemma ExtendIs(s: seq<Chunk>, k: nat, tail: nat, l: nat)
    requires k < |s| && End(s[k]) + l == tail
    ensures var longer := s[k := Chunk(s[k].addr, s[k].size + l)];
            var r := Coalesced(s, k + 1, Chunk(tail - l, l));
            if k + 1 < |s| && s[k + 1].addr == tail then
              r == RemovedAt(longer[k := Chunk(longer[k].addr, longer[k].size + longer[k + 1].size)], k + 1)
            else r == longer
  {
    var n := s[k].size + l;
    if k + 1 < |s| {
      assert s[k := Chunk(s[k].addr, n)][k := Chunk(s[k].addr, n + s[k + 1].size)] ==
             s[k := Chunk(s[k].addr, n + s[k + 1].size)];
    }
  }

  /** The run at j, where free_pages stops, is the first that does not end before the pages, or the
      last; and the pages are free of runs. */
  ghost predicate Place(s: seq<Chunk>, j: nat, c: Chunk) {
    && j < |s|
    && (j > 0 ==> End(s[j - 1]) < c.addr)
    && (s[j].addr >= End(c) || End(s[j]) <= c.addr)
    && (End(s[j]) >= c.addr || j == |s| - 1)
    && c.size > 0 && s[j].size > 0
  }

  /** Where the pages belong, in terms of the run that free_pages stops at. */
  function PlaceIndex(s: seq<Chunk>, j: nat, c: Chunk): nat
    requires j < |s|
  {
    if s[j].addr < c.addr then j + 1 else j
  }

  lemma PlaceMeans(s: seq<Chunk>, c: Chunk, j: nat)
    requires Tidy(s) && Releasable(s, c) && j < |s|
    requires forall i :: 0 <= i < j ==> End(s[i]) < c.addr
    requires End(s[j]) >= c.addr || j == |s| - 1
    ensures Place(s, j, c) && GapIndex(s, c.addr) == PlaceIndex(s, j, c)
  {
    GapAround(s, c);
    assert Pages(s[j]);
    forall i | 0 <= i < j ensures s[i].addr < c.addr {
    }
    if s[j].addr < c.addr && j + 1 < |s| {
      assert End(s[j]) < s[j + 1].addr;
    }
    GapIs(s, c.addr, PlaceIndex(s, j, c));
  }
}

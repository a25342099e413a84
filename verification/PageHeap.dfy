/** malloc_pages and free_pages of lib/naming/hmalloc.c with the page directory. */
module PageHeaps {
  import opened Machine
  import opened FreeList
  import opened HeapPages
  import opened HeapRuns

  class PageHeap {
    const free: RunList
    var page_dir: array<Mark>
    var heap_size: nat  // in pages

    ghost function Repr(): set<object>
      reads this, free
    {
      {this, free, page_dir} + free.Repr
    }

    ghost predicate Apart()
      reads this, free, free.Repr
    {
      && free.Valid() && this !in free.Repr && page_dir !in free.Repr && free !in free.Repr
    }

    ghost function Value(): Book
      reads this, free, page_dir
    {
      Book(free.runs, page_dir[..], heap_size)
    }

    ghost predicate Valid()
      reads this, free, free.Repr, page_dir
    {
      Apart() && Sound(Value())
    }

    /** A heap of which all pages are free. */
    constructor (size: nat)
      requires size > 0
      ensures Valid() && Value() == Fresh(size) && fresh(Repr())
    {
      free := new RunList(BASE, size * L4_PAGESIZE);
      page_dir := new Mark[size + 1](i => if i < size then FREE else NOT_MINE);
      heap_size := size;
      new;
      FreshSound(size);
      assert page_dir[..] == Fresh(size).dir;
    }

    /** map_pages: the heap's object grows at its end, and the directory when it has no entry behind
        the last page. */
    method map_pages(pages: nat) returns (p: nat)
      requires pages >= 1
      modifies this
      ensures p == At(old(heap_size)) && heap_size == old(heap_size) + pages
      ensures page_dir[..] == Roomier(old(page_dir[..]), old(heap_size) + pages)
      ensures page_dir == old(page_dir) || fresh(page_dir)
    {
      p := BASE + heap_size * L4_PAGESIZE;
      heap_size := heap_size + pages;
      if heap_size >= page_dir.Length {
        var n := (PageRoundUp((heap_size - 1) * 8) + L4_PAGESIZE) / 8;
        var bigger := new Mark[n](_ => NOT_MINE);
        forall i | 0 <= i < page_dir.Length {
          bigger[i] := page_dir[i];
        }
        assert bigger[..] == Roomier(page_dir[..], heap_size);
        page_dir := bigger;
      }
    }

    /** The marking loop of malloc_pages. */
    method MarkPages(idx: nat, n: nat)
      requires n >= 1 && idx + n <= page_dir.Length
      modifies page_dir
      ensures page_dir[..] == Marked(old(page_dir[..]), idx, n)
    {
      ghost var dir := page_dir[..];
      page_dir[idx] := FIRST;
      for i := 1 to n
        invariant forall k :: 0 <= k < |dir| ==>
          page_dir[k] == if k == idx then FIRST else if idx < k < idx + i then FOLLOW else dir[k]
      {
        page_dir[idx + i] := FOLLOW;
      }
    }

    /** malloc_pages; 0 is failure. */
    method malloc_pages(size: nat, grow: bool) returns (p: nat)
      requires Valid() && size > 0
      modifies Repr()
      ensures Valid() && fresh(Repr() - old(Repr()))
      ensures p == MallocPages(old(Value()), size, grow).ptr && Value() == MallocPages(old(Value()), size, grow).book
    {
      hide Sound, Alloc, Marked, Roomier, MallocPages, RunList.Valid, Allocated, OthersKept, IndexOf;
      ghost var b := Value();
      MallocPagesCorrect(b, size, grow);
      MallocPagesForms(b, size, grow);
      ghost var r := MallocPages(b, size, grow);
      p := free.TakePages(size);
      var pages := PageRoundUp(size) / L4_PAGESIZE;
      if p == 0 && grow {
        p := map_pages(pages);
      }
      if p != 0 {
        var idx := (p - BASE) / L4_PAGESIZE;
        MarkPages(idx, pages);
      }
      assert p == r.ptr && Value() == r.book && Apart();
    }

    /** Write one entry of the directory. */
    method SetMark(idx: nat, m: Mark)
      requires Apart() && idx < page_dir.Length
      modifies page_dir
      ensures Apart() && Value() == old(Value()).(dir := old(page_dir[..])[idx := m])
    {
      page_dir[idx] := m;
    }

    /** The counting loop of free_pages. */
    method UnmarkPages(idx: nat) returns (n: nat)
      requires idx < page_dir.Length && RunEnd(page_dir[..], idx + 1) < page_dir.Length
      modifies page_dir
      ensures n == old(RunLength(page_dir[..], idx)) && page_dir[..] == Freed(old(page_dir[..]), idx, n)
    {
      ghost var dir := page_dir[..];
      page_dir[idx] := FREE;
      n := 1;
      while page_dir[idx + n] == FOLLOW
        invariant n >= 1 && idx + n <= RunEnd(dir, idx + 1)
        invariant forall k :: 0 <= k < |dir| ==> page_dir[k] == if idx <= k < idx + n then FREE else dir[k]
        decreases |dir| - n
      {
        page_dir[idx + n] := FREE;
        n := n + 1;
      }
      RunEndIs(dir, idx + 1, idx + n);
    }

    /** free_pages of the allocation at page idx. */
    method free_pages(idx: nat)
      requires Valid() && idx < heap_size && page_dir[idx] == FIRST
      modifies Repr()
      ensures Valid() && fresh(Repr() - old(Repr()))
      ensures Value() == FreePages(old(Value()), idx)
    {
      ghost var b := Value();
      FreePagesCorrect(b, idx);
      RunReleasable(b, idx);
      RunEndsInside(b, idx);
      hide Sound, Freed, RunLength, Release, Releasable;
      var n := UnmarkPages(idx);
      free.AddPages(BASE + idx * L4_PAGESIZE, n * L4_PAGESIZE);
    }
  }

  /** The three ways in which malloc_pages ends. */
  lemma MallocPagesForms(b: Book, size: nat, grow: bool)
    requires Sound(b) && size > 0
    ensures var a, n, r := Alloc(b.free, size), InPages(size), MallocPages(b, size, grow);
            && n >= 1 && n == PageRoundUp(size) / L4_PAGESIZE
            && (a.addr == 0 ==> a.left == b.free)
            && (a.addr != 0 ==>
                  && a.addr >= BASE && (a.addr - BASE) / L4_PAGESIZE + n <= |b.dir|
                  && r == Got(a.addr, Book(a.left, Marked(b.dir, (a.addr - BASE) / L4_PAGESIZE, n), b.size)))
            && (a.addr == 0 && grow ==>
                  && (At(b.size) - BASE) / L4_PAGESIZE == b.size && At(b.size) != 0
                  && b.size + n < |Roomier(b.dir, b.size + n)|
                  && r == Got(At(b.size), Book(b.free, Marked(Roomier(b.dir, b.size + n), b.size, n), b.size + n)))
            && (a.addr == 0 && !grow ==> r == Got(0, b))
  {
    AllocCorrect(b.free, size);
    AllocInside(b, size);
    IndexAt(b.size);
  }
}

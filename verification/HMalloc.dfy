/** hmalloc and hfree of lib/naming/hmalloc.c on the run list, the page directory, the bitmaps and
    the lists of pages with free chunks. */
module HMallocs {
  import opened Machine
  import opened Sequences
  import opened HeapPages
  import opened PageHeaps
  import opened HeapChunks
  import opened HeapFragments
  import opened HeapCalls
  import opened ChunkStores

  class HMalloc {
    const pages: PageHeap
    const store: ChunkStore

    ghost function Repr(): set<object>
      reads this, pages, pages.free, store
    {
      {this} + pages.Repr() + store.Repr
    }

    ghost function Value(): Heap
      reads pages, pages.free, pages.page_dir, store
    {
      Heap(pages.Value(), store.lists, store.descr)
    }

    /** The two parts share no object. */
    ghost predicate Apart()
      reads this, pages, pages.free, pages.free.Repr, pages.page_dir, store, store.Repr
    {
      && pages.Apart() && store.Valid()
      && this !in pages.Repr() && this !in store.Repr && pages.Repr() !! store.Repr
    }

    ghost predicate Valid()
      reads this, pages, pages.free, pages.free.Repr, pages.page_dir, store, store.Repr
    {
      Apart() && Consistent(Value()) && NoneIdle(Value())
    }

    /** A heap of which all pages are free. */
    constructor (size: nat)
      requires size > 0
      ensures Valid() && Value() == NewHeap(size) && fresh(Repr())
    {
      hide Consistent, NoneIdle, Fresh, ChunkStore.Valid, PageHeap.Apart, Sound, Live, SizeOf;
      pages := new PageHeap(size);
      store := new ChunkStore();
      new;
      NewOrderly(size);
      assert Value() == NewHeap(size);
    }

    /** The loop of malloc_bytes that finds the bucket. */
    method FindBucket(size: nat) returns (j: nat)
      ensures j == Bucket(size)
    {
      var n := if size < MINSIZE then MINSIZE else size;
      j := 1;
      var i: nat := (n - 1) / 2;
      while i != 0
        invariant j + (if i == 0 then 0 else BitLength(i)) == BitLength(n - 1)
      {
        j, i := j + 1, i / 2;
      }
    }

    /** malloc_pages leaves the descriptions alone. */
    method NewPages(size: nat, grow: bool) returns (p: nat)
      requires Apart() && Sound(Value().book) && size > 0
      modifies pages.Repr()
      ensures Apart() && fresh(Repr() - old(Repr())) && store.Repr == old(store.Repr)
      ensures p == MallocPages(old(Value().book), size, grow).ptr
      ensures Value() == old(Value()).(book := MallocPages(old(Value().book), size, grow).book)
    {
      hide MallocPages, Sound, ChunkStore.Valid, PageHeap.Apart;
      p := pages.malloc_pages(size, grow);
    }

    /** malloc_make_chunks */
    method malloc_make_chunks(s: nat, grow: bool, junk: seq<bool>) returns (ok: bool)
      requires Apart() && Consistent(Value()) && |store.lists| == SHIFTS && Sound(Value().book)
      requires 4 <= s <= 11 && store.lists[s] == []
      modifies Repr()
      ensures Apart() && fresh(Repr() - old(Repr()))
      ensures Made(ok, Value()) == MakeChunks(old(Value()), s, grow, junk)
    {
      hide MakeChunks, MallocPages, Consistent, NoneIdle, NewInfo, Sound, ChunkStore.Valid, PageHeap.Apart;
      ghost var h := Value();
      MakeChunksForms(h, s, grow, junk);
      var pp := NewPages(L4_PAGESIZE, grow);
      if pp == 0 {
        return false;
      }
      assert store.lists == h.lists && store.descr == h.infos &&
             pages.page_dir[..] == MallocPages(h.book, L4_PAGESIZE, grow).book.dir;
      var p := (pp - BASE) / L4_PAGESIZE;
      AddChunkPage(p, s, junk);
      ok := true;
    }

    /** The page becomes one of chunks. */
    method AddChunkPage(p: nat, s: nat, junk: seq<bool>)
      requires Apart() && 4 <= s <= 11 && p < pages.page_dir.Length && p !in store.descr
      requires |store.lists| == SHIFTS && forall t :: 0 <= t < SHIFTS ==> p !in store.lists[t]
      modifies pages.page_dir, store.Repr
      ensures Apart() && fresh(store.Repr - old(store.Repr)) && pages.Repr() == old(pages.Repr())
      ensures Stolen(s) <= ChunkCount(s)
      ensures var h := old(Value());
              p < |h.book.dir| && Value() == Heap(h.book.(dir := h.book.dir[p := CHUNKS]),
                  h.lists[s := [p] + h.lists[s]], h.infos[p := NewInfo(s, junk)])
    {
      hide NewInfo, ChunkStore.Valid, PageHeap.Apart;
      pages.SetMark(p, CHUNKS);
      store.Add(p, s, junk);
    }

    /** malloc_bytes */
    method malloc_bytes(size: nat, grow: bool, junk: seq<bool>) returns (ptr: nat)
      requires Valid() && size <= MAXSIZE
      modifies Repr()
      ensures Valid() && fresh(Repr() - old(Repr()))
      ensures Piece(ptr, Value()) == MallocBytes(old(Value()), size, grow, junk)
    {
      hide MallocBytes, MakeChunks, TakeFrom, Consistent, NoneIdle, Sound, HasChunk, Bucket, ChunkStore.Valid,
           PageHeap.Apart;
      MallocBytesSteps(Value(), size, grow, junk);
      var j := FindBucket(size);
      var none := store.IsEmpty(j);
      if none {
        var ok := malloc_make_chunks(j, grow, junk);
        if !ok {
          return 0;
        }
      }
      ptr := TakeChunkFrom(j);
    }

    /** From there on in malloc_bytes. */
    method TakeChunkFrom(j: nat) returns (ptr: nat)
      requires Apart() && j < SHIFTS && HasChunk(Value(), j)
      modifies store.Repr
      ensures Apart() && pages.Repr() == old(pages.Repr()) && store.Repr == old(store.Repr)
      ensures Piece(ptr, Value()) == TakeFrom(old(Value()), j)
    {
      hide ChunkStore.Valid, PageHeap.Apart, Described, FirstBit, TakeChunk;
      var p, k := store.Take(j);
      ptr := BASE + p * L4_PAGESIZE + k * Power(j);
    }

    /** free_bytes of a pointer into a page of chunks, behind the description if that is in the page.
        It answers with a warning what is not the pointer of a chunk in use. */
    method free_bytes(ptr: nat) returns (ok: bool)
      requires Valid() && ptr >= BASE && IntoChunks(Value(), ptr)
      modifies Repr()
      ensures Valid() && fresh(Repr() - old(Repr()))
      ensures ok <==> Live(old(Value()), ptr)
      ensures Value() == if ok then Ifree(old(Value()), ptr) else old(Value())
    {
      hide FreeBytes, Ifree, Live, Consistent, NoneIdle, ChunkStore.Valid, PageHeap.Apart, Taken, Distinct, Power;
      FreeBytesSteps(Value(), ptr);
      var p := (ptr - BASE) / L4_PAGESIZE;
      var size := store.ChunkSize(p);
      var k := (ptr % L4_PAGESIZE) / size;
      if ptr % size != 0 {
        return false;
      }
      ok := GiveBack(p, k);
    }

    /** From there on in free_bytes: the chunk is free already, or becomes free. */
    method GiveBack(p: nat, k: nat) returns (ok: bool)
      requires Apart() && Consistent(Value()) && NoneIdle(Value())
      requires p in store.descr && k < |store.descr[p].bits| && store.FiledPage(p)
      requires !store.descr[p].bits[k] ==> Taken(Value(), p, k)
      modifies Repr()
      ensures Apart() && fresh(Repr() - old(Repr()))
      ensures ok == !old(store.descr[p].bits[k])
      ensures Value() == if ok then FreeBytes(old(Value()), p, k) else old(Value())
    {
      ghost var h := Value();
      hide FreeBytes, Consistent, NoneIdle, Given, FreePages, Sound, ChunkStore.Valid, PageHeap.Apart, Taken, Distinct;
      var gone;
      ok, gone := store.Give(p, k);
      if ok {
        GivenIsFreed(h, p, k, store.lists, store.descr, gone);
      }
      if gone {
        ReleasePage(p);
      }
    }

    /** A page of chunks goes back to the free runs. */
    method ReleasePage(p: nat)
      requires Apart() && p < pages.heap_size < pages.page_dir.Length &&
               Sound(Value().book.(dir := Value().book.dir[p := FIRST]))
      modifies pages.Repr()
      ensures Apart() && fresh(pages.Repr() - old(pages.Repr()))
      ensures old(p < |Value().book.dir|)
      ensures Value() == old(Value()).(book := FreePages(old(Value().book.(dir := Value().book.dir[p := FIRST])), p))
    {
      hide FreePages, Sound, ChunkStore.Valid, PageHeap.Apart;
      pages.SetMark(p, FIRST);
      pages.free_pages(p);
    }

    /** imalloc; 0 is failure, and only absurd sizes and heaps that cannot grow fail. */
    method imalloc(size: nat, grow: bool, junk: seq<bool>) returns (ptr: nat)
      requires Valid()
      modifies Repr()
      ensures Valid() && fresh(Repr() - old(Repr()))
      ensures Piece(ptr, Value()) == Imalloc(old(Value()), size, grow, junk)
      ensures ptr == 0 ==> Value() == old(Value()) && (grow ==> size + L4_PAGESIZE >= WORD)
      ensures ptr != 0 ==> ptr >= BASE && Added(old(Value()), Value(), ptr) && SizeOf(Value(), ptr) >= size
    {
      hide Consistent, NoneIdle, Sound, MallocBytes, MallocPages, Added, SizeOf, ChunkStore.Valid, PageHeap.Apart;
      ImallocSteps(Value(), size, grow, junk);
      if (size + L4_PAGESIZE) % WORD < size {
        ptr := 0;
      } else if size <= MAXSIZE {
        ptr := malloc_bytes(size, grow, junk);
      } else {
        ptr := NewPages(size, grow);
      }
    }

    /** ifree. Pointers that are not into the heap, and pointers into pages of chunks that are not to a
        chunk in use, are answered with a warning; what points into whole pages has to be live. */
    method ifree(ptr: nat)
      requires Valid() && (ptr >= BASE && IndexOf(ptr) < pages.heap_size ==>
               Live(Value(), ptr) || IntoChunks(Value(), ptr))
      modifies Repr()
      ensures Valid() && fresh(Repr() - old(Repr()))
      ensures ptr >= BASE && Live(old(Value()), ptr) ==>
                Value() == Ifree(old(Value()), ptr) && Removed(old(Value()), Value(), ptr)
      ensures !(ptr >= BASE && Live(old(Value()), ptr)) ==> Value() == old(Value())
    {
      hide Consistent, NoneIdle, Sound, Ifree, FreePages, Live, Removed, ChunkStore.Valid, PageHeap.Apart;
      if ptr >= BASE {
        IfreeSteps(Value(), ptr);
        var idx := (ptr - BASE) / L4_PAGESIZE;
        if idx < pages.heap_size {
          if pages.page_dir[idx] == CHUNKS {
            var ok := free_bytes(ptr);
          } else {
            FreeWhole(idx);
          }
        }
      }
    }

    /** free_pages leaves the descriptions alone. */
    method FreeWhole(idx: nat)
      requires Apart() && Sound(Value().book) && idx < pages.heap_size && idx < pages.page_dir.Length
      requires pages.page_dir[idx] == FIRST
      modifies pages.Repr()
      ensures Apart() && fresh(Repr() - old(Repr())) && store.Repr == old(store.Repr)
      ensures old(idx < |Value().book.dir|)
      ensures Value() == old(Value()).(book := FreePages(old(Value().book), idx))
    {
      hide FreePages, Sound, ChunkStore.Valid, PageHeap.Apart;
      pages.free_pages(idx);
    }
  }

  /** The pointer is into a page of chunks, not into its description. */
  ghost predicate IntoChunks(h: Heap, a: nat)
    requires a >= BASE
  {
    var p := IndexOf(a);
    p in h.infos && h.infos[p].shift <= SHIFTS && ChunkNumber(a, Power(h.infos[p].shift)) >= Stolen(h.infos[p].shift)
  }

  /** The steps of free_bytes. */
  lemma FreeBytesSteps(h: Heap, a: nat)
    requires Consistent(h) && NoneIdle(h) && a >= BASE && IntoChunks(h, a)
    ensures var p := IndexOf(a);
            var i := h.infos[p];
            var m := Power(i.shift);
            var k := ChunkNumber(a, m);
            && i.shift < SHIFTS == |h.lists| && k < |i.bits|
            && (forall t :: 0 <= t < SHIFTS ==>
                Distinct(h.lists[t]) && (p in h.lists[t] <==> t == i.shift && i.free > 0))
            && (Live(h, a) <==> a % m == 0 && !i.bits[k])
            && (Live(h, a) ==>
                  && Taken(h, p, k) && Ifree(h, a) == FreeBytes(h, p, k)
                  && Consistent(Ifree(h, a)) && NoneIdle(Ifree(h, a)))
  {
    var p := IndexOf(a);
    var i := h.infos[p];
    var k := ChunkNumber(a, Power(i.shift));
    Aligned(a, i.shift);
    if Live(h, a) {
      LiveChunk(h, a);
      IfreeCorrect(h, a);
    }
    if a == ChunkAddress(p, i.shift, k) && !i.bits[k] {
      assert Taken(h, p, k);
    }
  }

  /** What the lists and descriptions become is what they are in the heap after free_bytes. */
  lemma GivenIsFreed(h: Heap, p: nat, k: nat, l: seq<seq<nat>>, d: map<nat, PageInfo>, gone: bool)
    requires Consistent(h) && NoneIdle(h) && Taken(h, p, k) && Given(h.lists, h.infos, p, k, l, d, gone)
    ensures p < h.book.size < |h.book.dir|
    ensures var b := h.book.(dir := h.book.dir[p := FIRST]);
            && Sound(b)
            && FreeBytes(h, p, k) == Heap(if gone then FreePages(b, p) else h.book, l, d)
  {
    ChunkPageIsOne(h.book, p);
    Remarked(h.book, p, FIRST);
    GiveChunkCorrect(h.infos[p], k);
  }

  /** What each branch of imalloc comes to. */
  lemma ImallocSteps(h: Heap, size: nat, grow: bool, junk: seq<bool>)
    requires Consistent(h) && NoneIdle(h)
    ensures Sound(h.book)
    ensures var r := Imalloc(h, size, grow, junk);
            && (r.ptr == 0 ==> r.heap == h && (grow ==> size + L4_PAGESIZE >= WORD))
            && (r.ptr != 0 ==> r.ptr >= BASE && Added(h, r.heap, r.ptr) && SizeOf(r.heap, r.ptr) >= size)
            && Consistent(r.heap) && NoneIdle(r.heap)
  {
    hide NoneIdle, MallocBytes, MallocPages, Added, SizeOf;
    ImallocCorrect(h, size, grow, junk);
  }

  /** What each branch of ifree comes to. */
  lemma IfreeSteps(h: Heap, a: nat)
    requires Consistent(h) && NoneIdle(h) && a >= BASE
    ensures Sound(h.book) && h.book.size < |h.book.dir|
    ensures var p := IndexOf(a);
            && (p < h.book.size ==> (h.book.dir[p] == CHUNKS <==> p in h.infos))
            && (Live(h, a) ==>
                  && p < h.book.size && Consistent(Ifree(h, a)) && NoneIdle(Ifree(h, a)) && Removed(h, Ifree(h, a), a)
                  && (p in h.infos ==> IntoChunks(h, a))
                  && (p !in h.infos ==> h.book.dir[p] == FIRST && Ifree(h, a) == h.(book := FreePages(h.book, p))))
  {
    if Live(h, a) {
      IfreeCorrect(h, a);
      if IndexOf(a) in h.infos {
        LiveChunk(h, a);
      }
    }
  }

  /** The first page of the list has a free chunk. */
  ghost predicate HasChunk(h: Heap, j: nat) {
    && j < |h.lists| && h.lists[j] != [] && h.lists[j][0] in h.infos
    && var i := h.infos[h.lists[j][0]]; Described(i) && i.free > 0 && FirstBit(i.bits) < |i.bits|
  }

  lemma HasChunkOf(h: Heap, j: nat)
    requires Consistent(h) && j < SHIFTS && h.lists[j] != []
    ensures HasChunk(h, j)
  {
    FirstPageHasChunk(h, j);
  }

  /** The steps of malloc_bytes. */
  lemma MallocBytesSteps(h: Heap, size: nat, grow: bool, junk: seq<bool>)
    requires Consistent(h) && NoneIdle(h) && size <= MAXSIZE
    ensures Sound(h.book) && |h.lists| == SHIFTS && 4 <= Bucket(size) <= 11
    ensures var j, r := Bucket(size), MallocBytes(h, size, grow, junk);
            && Consistent(r.heap) && NoneIdle(r.heap)
            && (h.lists[j] != [] ==> HasChunk(h, j) && r == TakeFrom(h, j))
            && (h.lists[j] == [] ==>
                  var m := MakeChunks(h, j, grow, junk);
                  && (!m.ok ==> m.heap == h && r == Piece(0, h))
                  && (m.ok ==> HasChunk(m.heap, j) && r == TakeFrom(m.heap, j)))
  {
    var j := Bucket(size);
    MallocBytesForms(h, size, grow, junk);
    var p, k := MallocBytesCorrect(h, size, grow, junk);
    if h.lists[j] != [] {
      HasChunkOf(h, j);
    } else {
      MakeChunksCorrect(h, j, grow, junk);
      if MakeChunks(h, j, grow, junk).ok {
        HasChunkOf(MakeChunks(h, j, grow, junk).heap, j);
      }
    }
  }

  lemma NowhereListed(h: Heap, p: nat)
    requires Filed(h) && p !in h.infos
    ensures |h.lists| == SHIFTS && forall t :: 0 <= t < SHIFTS ==> p !in h.lists[t]
  {
  }

  lemma ListsAreSized(h: Heap)
    requires Filed(h)
    ensures |h.lists| == SHIFTS
  {
  }

  /** The two ways in which malloc_make_chunks ends. */
  lemma MakeChunksForms(h: Heap, s: nat, grow: bool, junk: seq<bool>)
    requires Consistent(h) && 4 <= s <= 11 && h.lists[s] == []
    ensures var g, m := MallocPages(h.book, L4_PAGESIZE, grow), MakeChunks(h, s, grow, junk);
            && m.ok == (g.ptr != 0)
            && (!m.ok ==> m.heap == h && g.book == h.book)
            && (m.ok ==>
                  && g.ptr >= BASE && Stolen(s) <= ChunkCount(s)
                  && var p := (g.ptr - BASE) / L4_PAGESIZE;
                    && p < |g.book.dir| && p !in h.infos && (forall t :: 0 <= t < SHIFTS ==> p !in h.lists[t])
                    && m.heap == Heap(g.book.(dir := g.book.dir[p := CHUNKS]), h.lists[s := [p] + h.lists[s]],
                        h.infos[p := NewInfo(s, junk)]))
  {
    hide Sound, Allocated, OthersKept, MallocPages, AllDescribed, Power, NewInfo, Filed;
    ListsAreSized(h);
    MallocPagesCorrect(h.book, L4_PAGESIZE, grow);
    PageFilled(s);
    if MakeChunks(h, s, grow, junk).ok {
      MakeChunksPaged(h, s, grow, junk);
      NowhereListed(h, IndexOf(MallocPages(h.book, L4_PAGESIZE, grow).ptr));
    }
  }

  /** A pointer is that of a chunk exactly when it is a multiple of the chunk size. */
  lemma Aligned(a: nat, s: nat)
    requires a >= BASE && 4 <= s <= 11
    ensures var k := ChunkNumber(a, Power(s));
            k < ChunkCount(s) && (a % Power(s) == 0 <==> a == ChunkAddress(IndexOf(a), s, k))
  {
    PageFilled(s);
    PageStart(a);
    AlignedIn(a, At(IndexOf(a)), Power(s), ChunkCount(s));
    hide Power, ChunkCount, At, IndexOf, ChunkNumber;
  }

  lemma AlignedIn(a: nat, b: nat, m: nat, c: nat)
    requires m > 0 && c * m == L4_PAGESIZE && b == (a / L4_PAGESIZE) * L4_PAGESIZE && a == b + a % L4_PAGESIZE
    ensures var k := ChunkNumber(a, m);
            k < c && (a % m == 0 <==> a == b + k * m)
  {
    OffsetParts(a, a / L4_PAGESIZE, a % L4_PAGESIZE, m, c, L4_PAGESIZE);
  }
}

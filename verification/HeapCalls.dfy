/** hmalloc and hfree of lib/naming/hmalloc.c over every run of calls. */
module HeapCalls {
  import opened Machine
  import opened HeapPages
  import opened HeapChunks
  import opened HeapFragments

  /** imalloc; 0 is failure. */
  function Imalloc(h: Heap, size: nat, grow: bool, junk: seq<bool>): Piece
    requires Consistent(h)
  {
    if size + L4_PAGESIZE >= WORD then Piece(0, h)
    else if size <= MAXSIZE then MallocBytes(h, size, grow, junk)
    else Piece(MallocPages(h.book, size, grow).ptr, h.(book := MallocPages(h.book, size, grow).book))
  }

  /** The page starts an allocation of whole pages. */
  ghost predicate PageLive(h: Heap, p: nat) {
    p < h.book.size && p < |h.book.dir| && h.book.dir[p] == FIRST
  }

  /** The pointer is to an allocation of whole pages, or to a chunk in use. */
  ghost predicate Live(h: Heap, a: nat) {
    a >= BASE && (PageAt(h, a) || ChunkAt(h, a))
  }

  ghost predicate PageAt(h: Heap, a: nat)
    requires a >= BASE
  {
    PageLive(h, IndexOf(a)) && a == At(IndexOf(a))
  }

  ghost predicate ChunkAt(h: Heap, a: nat)
    requires a >= BASE
  {
    var p := IndexOf(a);
    p in h.infos && exists k: nat :: Taken(h, p, k) && a == ChunkAddress(p, h.infos[p].shift, k)
  }

  /** The bytes behind a live pointer. */
  function SizeOf(h: Heap, a: nat): nat
    requires a >= BASE
  {
    var p := IndexOf(a);
    if p in h.infos then Power(h.infos[p].shift)
    else if p < |h.book.dir| then RunLength(h.book.dir, p) * L4_PAGESIZE else 0
  }

  /** ifree of a live pointer. */
  ghost function Ifree(h: Heap, a: nat): Heap
    requires Consistent(h) && Live(h, a)
  {
    var p := IndexOf(a);
    if p in h.infos then
      LiveChunk(h, a);
      FreeBytes(h, p, ChunkNumber(a, Power(h.infos[p].shift)))
    else h.(book := FreePages(h.book, p))
  }

  /** In a page of chunks a live pointer is to the chunk with its number. */
  lemma LiveChunk(h: Heap, a: nat)
    requires Consistent(h) && Live(h, a) && IndexOf(a) in h.infos
    ensures var p := IndexOf(a);
            var s := h.infos[p].shift;
            Taken(h, p, ChunkNumber(a, Power(s))) && a == ChunkAddress(p, s, ChunkNumber(a, Power(s)))
  {
    var p := IndexOf(a);
    assert ChunkAt(h, a);
    var k: nat :| Taken(h, p, k) && a == ChunkAddress(p, h.infos[p].shift, k);
    PointerDecodes(p, h.infos[p].shift, k);
  }

  /** The allocations of whole pages are the same, with the same lengths. */
  ghost predicate SamePages(h: Heap, r: Heap) {
    && (forall p: nat :: PageLive(r, p) <==> PageLive(h, p))
    && (forall p: nat :: PageLive(h, p) ==> RunLength(r.book.dir, p) == RunLength(h.book.dir, p))
  }

  // ---------------------------------------------------------------- chunks leave page allocations alone

  lemma MakeChunksPages(h: Heap, s: nat, grow: bool, junk: seq<bool>)
    requires Consistent(h) && 4 <= s <= 11 && MakeChunks(h, s, grow, junk).ok
    ensures SamePages(h, MakeChunks(h, s, grow, junk).heap)
  {
    hide Sound, Allocated, OthersKept, MallocPages, RunLength, IndexOf, AllDescribed, NewInfo, Power;
    MallocPagesCorrect(h.book, L4_PAGESIZE, grow);
    var g := MallocPages(h.book, L4_PAGESIZE, grow);
    var p := IndexOf(g.ptr);
    OnePage();
    OnePageParts(h.book, g.book, p);
    RemarkedRuns(h.book, g.book, p);
  }

  lemma RemarkedRuns(b: Book, g: Book, p: nat)
    requires Sound(b) && Sound(g) && Allocated(b, g, p, 1) && OthersKept(b, g, p)
    ensures var dir := g.dir[p := CHUNKS];
            forall q: nat :: q < g.size && dir[q] == FIRST <==> q < b.size && b.dir[q] == FIRST
    ensures var dir := g.dir[p := CHUNKS];
            forall q: nat :: q < b.size && b.dir[q] == FIRST ==> RunLength(dir, q) == RunLength(b.dir, q)
  {
    var dir := g.dir[p := CHUNKS];
    forall q: nat | q < b.size && b.dir[q] == FIRST ensures q != p && RunLength(dir, q) == RunLength(b.dir, q) {
      RunEndsInside(g, q);
      OtherRun(g.dir, dir, q);
    }
  }

  lemma MallocBytesPages(h: Heap, size: nat, grow: bool, junk: seq<bool>)
    requires Consistent(h) && size <= MAXSIZE
    ensures SamePages(h, MallocBytes(h, size, grow, junk).heap)
  {
    MallocBytesForms(h, size, grow, junk);
    var s := Bucket(size);
    if h.lists[s] == [] && MakeChunks(h, s, grow, junk).ok {
      MakeChunksPages(h, s, grow, junk);
    }
  }

  lemma FreeBytesPages(h: Heap, p: nat, k: nat)
    requires Consistent(h) && Taken(h, p, k)
    ensures SamePages(h, FreeBytes(h, p, k))
  {
    hide Described, Filed, Sound, FreePages, RunLength, Count, Power, Stolen, ChunkCount, Place, Position;
    GiveChunkCorrect(h.infos[p], k);
    var i := GiveChunk(h.infos[p], k);
    if i.free != 1 && i.free == i.total {
      ReleasedRuns(h.book, p);
    }
  }

  lemma SizesOf(b: Book)
    requires Sound(b)
    ensures b.size < |b.dir| && Agrees(b)
  {
  }

  /** Giving back a page of chunks leaves the allocations of whole pages alone. */
  lemma ReleasedRuns(b: Book, p: nat)
    requires Sound(b) && p < b.size && b.dir[p] == CHUNKS
    ensures var r := FreePages(b.(dir := b.dir[p := FIRST]), p);
            && r.size == b.size < |r.dir|
            && (forall q: nat :: q < b.size ==> (r.dir[q] == FIRST <==> b.dir[q] == FIRST))
            && (forall q: nat :: q < b.size && b.dir[q] == FIRST ==> RunLength(r.dir, q) == RunLength(b.dir, q))
  {
    hide FreePages, Sound, RunLength, Agrees;
    SizesOf(b);
    ChunkPageIsOne(b, p);
    Remarked(b, p, FIRST);
    var b1 := b.(dir := b.dir[p := FIRST]);
    FreePagesCorrect(b1, p);
    forall q: nat | q < b.size && b.dir[q] == FIRST ensures RunLength(FreePages(b1, p).dir, q) == RunLength(b.dir, q) {
      RunEndsInside(b, q);
      OtherRun(b.dir, b1.dir, q);
    }
  }

  // ---------------------------------------------------------------- whole pages leave chunks alone

  lemma GotMarks(h: Heap, b: Book, i: nat, n: nat)
    requires Paged(h) && Sound(b) && Allocated(h.book, b, i, n)
    ensures Paged(h.(book := b))
  {
    assert forall k :: i < k < i + n ==> b.dir[k] == FOLLOW;
  }

  lemma FreedMarks(h: Heap, i: nat)
    requires Paged(h) && PageLive(h, i)
    ensures Paged(h.(book := FreePages(h.book, i)))
  {
    FreePagesCorrect(h.book, i);
    var n := RunLength(h.book.dir, i);
    assert forall k :: i < k < i + n ==> h.book.dir[k] == FOLLOW;
  }

  // ---------------------------------------------------------------- what is live

  /** Pages of chunks that both heaps have are of the same size. */
  ghost predicate SameShifts(h: Heap, r: Heap) {
    forall p: nat :: p in h.infos && p in r.infos ==> r.infos[p].shift == h.infos[p].shift
  }

  /** After an allocation the live pointers are the old ones and the new one, and the old ones have
      the bytes they had. */
  ghost predicate Added(h: Heap, r: Heap, ptr: nat) {
    && !Live(h, ptr)
    && (forall a: nat :: Live(r, a) <==> Live(h, a) || a == ptr)
    && (forall a: nat :: Live(h, a) ==> SizeOf(r, a) == SizeOf(h, a))
  }

  ghost predicate Removed(h: Heap, r: Heap, ptr: nat) {
    && (forall a: nat :: Live(r, a) <==> Live(h, a) && a != ptr)
    && (forall a: nat :: Live(r, a) ==> SizeOf(r, a) == SizeOf(h, a))
  }

  lemma PagesAndChunksApart(h: Heap, a: nat)
    requires Consistent(h) && a >= BASE
    ensures !(PageAt(h, a) && ChunkAt(h, a))
  {
  }

  lemma MallocBytesShifts(h: Heap, size: nat, grow: bool, junk: seq<bool>)
    requires Consistent(h) && size <= MAXSIZE
    ensures SameShifts(h, MallocBytes(h, size, grow, junk).heap)
    ensures forall p: nat :: p in h.infos ==> p in MallocBytes(h, size, grow, junk).heap.infos
  {
    hide Paged, AllDescribed, MakeChunks, MallocBytes, Bucket, MallocPages, FirstBit;
    MallocBytesForms(h, size, grow, junk);
    var s := Bucket(size);
    if h.lists[s] == [] {
      MakeChunksCorrect(h, s, grow, junk);
    }
  }

  /** One more chunk is one more live pointer. */
  lemma ChunkAdded(h: Heap, r: Heap, p: nat, k: nat)
    requires Consistent(h) && Consistent(r) && OneMore(h, r, p, k) && SamePages(h, r) && SameShifts(h, r)
    requires forall q: nat :: q in h.infos ==> q in r.infos
    ensures Added(h, r, ChunkAddress(p, r.infos[p].shift, k))
  {
    var ptr := ChunkAddress(p, r.infos[p].shift, k);
    PointerDecodes(p, r.infos[p].shift, k);
    forall a: nat | a >= BASE && ChunkAt(h, a) ensures ChunkAt(r, a) && a != ptr {
      ChunkStays(h, r, p, k, a);
    }
    forall a: nat | a >= BASE && ChunkAt(r, a) ensures ChunkAt(h, a) || a == ptr {
      ChunkWas(h, r, p, k, a);
    }
    forall a: nat | a >= BASE ensures PageAt(r, a) <==> PageAt(h, a) {
    }
    assert ChunkAt(r, ptr);
    PagesAndChunksApart(r, ptr);
    forall a: nat | Live(h, a) ensures SizeOf(r, a) == SizeOf(h, a) {
      if PageAt(h, a) {
        assert PageLive(h, IndexOf(a)) && PageLive(r, IndexOf(a));
      }
    }
  }

  lemma ChunkStays(h: Heap, r: Heap, p: nat, k: nat, a: nat)
    requires AllDescribed(h) && OneMore(h, r, p, k) && SameShifts(h, r) && p in r.infos
    requires forall q: nat :: q in h.infos ==> q in r.infos
    requires a >= BASE && ChunkAt(h, a)
    ensures ChunkAt(r, a) && a != ChunkAddress(p, r.infos[p].shift, k)
  {
    var q := IndexOf(a);
    var j: nat :| Taken(h, q, j) && a == ChunkAddress(q, h.infos[q].shift, j);
    assert Taken(r, q, j);
    PointerDecodes(q, h.infos[q].shift, j);
    PointerDecodes(p, r.infos[p].shift, k);
  }

  lemma ChunkWas(h: Heap, r: Heap, p: nat, k: nat, a: nat)
    requires OneMore(h, r, p, k) && SameShifts(h, r) && p in r.infos && a >= BASE && ChunkAt(r, a)
    ensures ChunkAt(h, a) || a == ChunkAddress(p, r.infos[p].shift, k)
  {
    var q := IndexOf(a);
    var j: nat :| Taken(r, q, j) && a == ChunkAddress(q, r.infos[q].shift, j);
    if q != p || j != k {
      assert Taken(h, q, j);
    }
  }

  /** imalloc fails only when the size is absurd or the heap cannot grow, and then nothing has changed.
      Otherwise it returns a pointer that was not live to as many bytes as asked for, and every other
      live pointer stays live with the bytes it had. */
  ghost predicate HandsOut(h: Heap, r: Piece, size: nat, grow: bool) {
    && (r.ptr == 0 ==> r.heap == h && (grow ==> size + L4_PAGESIZE >= WORD))
    && (r.ptr != 0 ==>
          && Consistent(r.heap) && NoneIdle(r.heap) && Added(h, r.heap, r.ptr)
          && r.ptr >= BASE && SizeOf(r.heap, r.ptr) >= size)
  }

  lemma ImallocCorrect(h: Heap, size: nat, grow: bool, junk: seq<bool>)
    requires Consistent(h) && NoneIdle(h)
    ensures HandsOut(h, Imalloc(h, size, grow, junk), size, grow)
  {
    hide AllDescribed, Filed, NoneIdle, Sound, Allocated, OthersKept, IndexOf, MallocPages, MallocBytes, Added, SizeOf;
    if size + L4_PAGESIZE < WORD {
      if size <= MAXSIZE {
        SmallCorrect(h, size, grow, junk);
      } else {
        MallocPagesCorrect(h.book, size, grow);
        LargeCorrect(h, size, grow, MallocPages(h.book, size, grow));
      }
    }
  }

  /** How many bytes are behind the pointer: for up to half a page the least power of two that is at least 16 and
      the request, a chunk; for more the request rounded up to whole pages. */
  ghost predicate RightSize(r: Piece, size: nat) {
    && r.ptr >= BASE
    && if size <= 2048 then
         && IndexOf(r.ptr) in r.heap.infos
         && exists j :: 4 <= j <= 11 && SizeOf(r.heap, r.ptr) == Power(j) && Power(j) >= size
              && (j == 4 || Power(j - 1) < size)
       else IndexOf(r.ptr) !in r.heap.infos && SizeOf(r.heap, r.ptr) == PageRoundUp(size)
  }

  lemma ImallocSize(h: Heap, size: nat, grow: bool, junk: seq<bool>)
    requires Consistent(h) && NoneIdle(h) && Imalloc(h, size, grow, junk).ptr != 0
    ensures RightSize(Imalloc(h, size, grow, junk), size)
  {
    hide AllDescribed, Filed, NoneIdle, Sound, Power, IndexOf, MallocPages, MallocBytes, SizeOf, PageRoundUp;
    if size <= MAXSIZE {
      ChunkSize(h, size, grow, junk);
    } else {
      MallocPagesCorrect(h.book, size, grow);
      PagesSize(h, size, grow);
    }
  }

  lemma ChunkSize(h: Heap, size: nat, grow: bool, junk: seq<bool>)
    requires Consistent(h) && NoneIdle(h) && size <= 2048 && MallocBytes(h, size, grow, junk).ptr != 0
    ensures RightSize(MallocBytes(h, size, grow, junk), size)
  {
    hide Consistent, NoneIdle, MallocBytes, Power, Bucket, IndexOf, OneMore, MallocPages;
    var p, k := MallocBytesCorrect(h, size, grow, junk);
    var r := MallocBytes(h, size, grow, junk);
    BucketLeast(size);
    ConsistentTaken(r.heap, p, k, h);
    PointerDecodes(p, r.heap.infos[p].shift, k);
    var j := Bucket(size);
    assert j > 4 ==> Power(j - 1) < size || Power(j - 1) < MINSIZE;
    SixteenIsLeast(j);
  }

  lemma ConsistentTaken(r: Heap, p: nat, k: nat, h: Heap)
    requires Consistent(r) && OneMore(h, r, p, k)
    ensures p in r.infos && InUse(r.infos[p], k) && 4 <= r.infos[p].shift <= 11 && k < ChunkCount(r.infos[p].shift)
  {
  }

  lemma SixteenIsLeast(j: nat)
    requires j >= 4
    ensures j > 4 ==> Power(j - 1) >= MINSIZE
  {
    assert Power(4) == 16;
    if j > 4 {
      PowerMonotone(4, j - 1);
    }
  }

  lemma PagesSize(h: Heap, size: nat, grow: bool)
    requires Consistent(h) && NoneIdle(h) && size > 2048 && MallocPages(h.book, size, grow).ptr != 0
    ensures var g := MallocPages(h.book, size, grow); RightSize(Piece(g.ptr, h.(book := g.book)), size)
  {
    MallocPagesCorrect(h.book, size, grow);
    WholePages(size);
    var g := MallocPages(h.book, size, grow);
    GotMarks(h, g.book, IndexOf(g.ptr), InPages(size));
    hide MallocPages, InPages, Sound, RunLength, PageRoundUp, IndexOf;
    assert g.book.dir[IndexOf(g.ptr)] == FIRST;
  }

  lemma SmallCorrect(h: Heap, size: nat, grow: bool, junk: seq<bool>)
    requires Consistent(h) && NoneIdle(h) && size <= MAXSIZE
    ensures HandsOut(h, MallocBytes(h, size, grow, junk), size, grow)
  {
    MallocPagesCorrect(h.book, L4_PAGESIZE, grow);
    var p, k := MallocBytesCorrect(h, size, grow, junk);
    var r := MallocBytes(h, size, grow, junk);
    if r.ptr != 0 {
      MallocBytesPages(h, size, grow, junk);
      MallocBytesShifts(h, size, grow, junk);
      hide MallocBytes, SamePages, Added, NoneIdle, Power, MallocPages;
      assert Taken(r.heap, p, k);
      ChunkAdded(h, r.heap, p, k);
      PointerDecodes(p, r.heap.infos[p].shift, k);
      BucketLeast(size);
    }
  }

  lemma LargeCorrect(h: Heap, size: nat, grow: bool, g: Got)
    requires Consistent(h) && NoneIdle(h) && size > 0
    requires g.ptr == 0 ==> g.book == h.book && !grow
    requires g.ptr != 0 ==>
               && g.ptr >= BASE && g.ptr == At(IndexOf(g.ptr)) && Sound(g.book)
               && Allocated(h.book, g.book, IndexOf(g.ptr), InPages(size)) && OthersKept(h.book, g.book, IndexOf(g.ptr))
    ensures HandsOut(h, Piece(g.ptr, h.(book := g.book)), size, grow)
  {
    hide Added, SizeOf, Sound, Allocated, OthersKept, IndexOf, AllDescribed, Filed, NoneIdle, Paged;
    if g.ptr != 0 {
      GotMarks(h, g.book, IndexOf(g.ptr), InPages(size));
      WholePages(size);
      PagesAdded(h, g.book, IndexOf(g.ptr), InPages(size));
      SameInfos(h, g.book);
    }
  }

  lemma SameInfos(h: Heap, b: Book)
    requires AllDescribed(h) && Filed(h) && NoneIdle(h)
    ensures AllDescribed(h.(book := b)) && Filed(h.(book := b)) && NoneIdle(h.(book := b))
  {
  }

  lemma PagesAdded(h: Heap, b: Book, i: nat, n: nat)
    requires Consistent(h) && Sound(b) && Allocated(h.book, b, i, n) && OthersKept(h.book, b, i) && Paged(h.(book := b))
    ensures Added(h, h.(book := b), At(i)) && SizeOf(h.(book := b), At(i)) == n * L4_PAGESIZE
  {
    var r := h.(book := b);
    IndexAt(i);
    assert i !in h.infos;
    forall p: nat ensures PageLive(r, p) <==> PageLive(h, p) || p == i {
      if PageLive(r, p) && p != i {
        NewOnlyFirst(h.book, b, i, n, p);
      }
    }
    hide Sound, Allocated, RunLength;
    forall a: nat | a >= BASE ensures PageAt(r, a) <==> PageAt(h, a) || a == At(i) {
    }
    forall a: nat | a >= BASE ensures ChunkAt(r, a) <==> ChunkAt(h, a) {
      SameChunks(h, r, a);
    }
    forall a: nat | Live(h, a) ensures SizeOf(r, a) == SizeOf(h, a) {
      if PageAt(h, a) {
        assert PageLive(h, IndexOf(a));
      }
    }
  }

  lemma SameChunks(h: Heap, r: Heap, a: nat)
    requires r.infos == h.infos && a >= BASE
    ensures ChunkAt(r, a) <==> ChunkAt(h, a)
  {
    if ChunkAt(h, a) {
      var k: nat :| Taken(h, IndexOf(a), k) && a == ChunkAddress(IndexOf(a), h.infos[IndexOf(a)].shift, k);
      assert Taken(r, IndexOf(a), k);
    }
    if ChunkAt(r, a) {
      var k: nat :| Taken(r, IndexOf(a), k) && a == ChunkAddress(IndexOf(a), r.infos[IndexOf(a)].shift, k);
      assert Taken(h, IndexOf(a), k);
    }
  }

  // ---------------------------------------------------------------- release

  lemma FreeBytesShifts(h: Heap, p: nat, k: nat)
    requires Consistent(h) && Taken(h, p, k)
    ensures SameShifts(h, FreeBytes(h, p, k))
    ensures forall q: nat :: q in FreeBytes(h, p, k).infos ==> q in h.infos
  {
  }

  /** One chunk less is one live pointer less. */
  lemma ChunkRemoved(h: Heap, r: Heap, p: nat, k: nat)
    requires Consistent(h) && Consistent(r) && Taken(h, p, k) && OneLess(h, r, p, k) && SamePages(h, r) &&
             SameShifts(h, r)
    requires forall q: nat :: q in r.infos ==> q in h.infos
    ensures Removed(h, r, ChunkAddress(p, h.infos[p].shift, k))
  {
    var ptr := ChunkAddress(p, h.infos[p].shift, k);
    PointerDecodes(p, h.infos[p].shift, k);
    forall a: nat | a >= BASE && ChunkAt(r, a) ensures ChunkAt(h, a) && a != ptr {
      var q := IndexOf(a);
      var j: nat :| Taken(r, q, j) && a == ChunkAddress(q, r.infos[q].shift, j);
      assert Taken(h, q, j);
      PointerDecodes(q, h.infos[q].shift, j);
    }
    forall a: nat | a >= BASE && ChunkAt(h, a) && a != ptr ensures ChunkAt(r, a) {
      var q := IndexOf(a);
      var j: nat :| Taken(h, q, j) && a == ChunkAddress(q, h.infos[q].shift, j);
      assert Taken(r, q, j);
    }
    forall a: nat | a >= BASE ensures PageAt(r, a) <==> PageAt(h, a) {
    }
    assert ChunkAt(h, ptr);
    PagesAndChunksApart(h, ptr);
    forall a: nat | Live(r, a) ensures SizeOf(r, a) == SizeOf(h, a) {
      if PageAt(r, a) {
        assert PageLive(r, IndexOf(a)) && PageLive(h, IndexOf(a));
      }
    }
  }

  lemma PagesRemoved(h: Heap, i: nat)
    requires Consistent(h) && PageLive(h, i) && Paged(h.(book := FreePages(h.book, i)))
    ensures Removed(h, h.(book := FreePages(h.book, i)), At(i))
  {
    hide Sound, RunLength, Freed, FreePages;
    FreePagesCorrect(h.book, i);
    var r := h.(book := FreePages(h.book, i));
    IndexAt(i);
    FreedFirsts(h.book.dir, i, RunLength(h.book.dir, i));
    forall p: nat ensures PageLive(r, p) <==> PageLive(h, p) && p != i {
    }
    forall a: nat | a >= BASE ensures PageAt(r, a) <==> PageAt(h, a) && a != At(i) {
    }
    forall a: nat | a >= BASE ensures ChunkAt(r, a) <==> ChunkAt(h, a) {
      SameChunks(h, r, a);
    }
    PagesAndChunksApart(h, At(i));
    forall a: nat | Live(r, a) ensures SizeOf(r, a) == SizeOf(h, a) {
      if PageAt(r, a) {
        assert PageLive(h, IndexOf(a));
      }
    }
  }

  /** ifree takes the pointer out of the live ones, and leaves every other with the bytes it had. */
  lemma IfreeCorrect(h: Heap, a: nat)
    requires Consistent(h) && NoneIdle(h) && Live(h, a)
    ensures Consistent(Ifree(h, a)) && NoneIdle(Ifree(h, a)) && Removed(h, Ifree(h, a), a)
  {
    hide FreeBytes, FreePages, Removed, SamePages, Paged, Filed, AllDescribed, OneLess, SameShifts, Power, IndexOf, At;
    var p := IndexOf(a);
    if p in h.infos {
      LiveChunk(h, a);
      var k := ChunkNumber(a, Power(h.infos[p].shift));
      FreeBytesCorrect(h, p, k);
      FreeBytesPages(h, p, k);
      FreeBytesShifts(h, p, k);
      ChunkRemoved(h, FreeBytes(h, p, k), p, k);
    } else {
      FreedMarks(h, p);
      SameInfos(h, FreePages(h.book, p));
      PagesRemoved(h, p);
    }
  }

  // ---------------------------------------------------------------- disjointness

  /** What a live pointer covers lies in the pages of its allocation. */
  lemma LiveInside(h: Heap, a: nat)
    requires Consistent(h) && Live(h, a)
    ensures var p := IndexOf(a);
            p < |h.book.dir| && At(p) <= a && a + SizeOf(h, a) <= At(p) + RunLength(h.book.dir, p) * L4_PAGESIZE
  {
    var p := IndexOf(a);
    if ChunkAt(h, a) {
      LiveChunk(h, a);
      ChunkInside(h, p, ChunkNumber(a, Power(h.infos[p].shift)));
      ChunkPageIsOne(h.book, p);
    }
  }

  /** Different live pointers cover different bytes. */
  lemma LiveDisjoint(h: Heap, a: nat, b: nat)
    requires Consistent(h) && Live(h, a) && Live(h, b) && a < b
    ensures a + SizeOf(h, a) <= b
  {
    var p, q := IndexOf(a), IndexOf(b);
    LiveInside(h, a);
    LiveInside(h, b);
    if p == q {
      SamePageDisjoint(h, a, b);
    } else {
      MonotoneIndex(a, b);
      NoStartInside(h, p, q);
      hide Sound, RunLength, SizeOf;
      MultipleMonotone(p + RunLength(h.book.dir, p), q);
    }
  }

  lemma MonotoneIndex(a: nat, b: nat)
    requires BASE <= a <= b
    ensures IndexOf(a) <= IndexOf(b)
  {
  }

  lemma MultipleMonotone(p: nat, q: nat)
    requires p <= q
    ensures At(p) <= At(q)
  {
  }

  /** No allocation starts inside another. */
  lemma NoStartInside(h: Heap, p: nat, q: nat)
    requires Consistent(h) && p < q < h.book.size && q < |h.book.dir| &&
             (h.book.dir[q] == FIRST || h.book.dir[q] == CHUNKS)
    ensures p + RunLength(h.book.dir, p) <= q
  {
  }

  lemma SamePageDisjoint(h: Heap, a: nat, b: nat)
    requires Consistent(h) && Live(h, a) && Live(h, b) && a < b && IndexOf(a) == IndexOf(b)
    ensures a + SizeOf(h, a) <= b
  {
    var p := IndexOf(a);
    PagesAndChunksApart(h, a);
    assert p in h.infos;
    LiveChunk(h, a);
    LiveChunk(h, b);
    var m := Power(h.infos[p].shift);
    ChunksDisjoint(h, p, ChunkNumber(a, m), p, ChunkNumber(b, m));
  }

  // ---------------------------------------------------------------- runs

  datatype Call = Malloc(size: nat, grow: bool, junk: seq<bool>) | Release(ptr: nat)

  /** The heap, and the live pointers with what was asked for them. */
  datatype World = World(heap: Heap, live: map<nat, nat>)

  /** The bookkeeping is sound, what is live is what was handed out and not given back, everybody has
      the bytes asked for, and nobody shares one. */
  ghost predicate Orderly(w: World) {
    && Consistent(w.heap) && NoneIdle(w.heap)
    && (forall a: nat :: a in w.live <==> Live(w.heap, a))
    && (forall a: nat :: a in w.live ==> SizeOf(w.heap, a) >= w.live[a])
    && (forall a: nat, b: nat :: a in w.live && b in w.live && a < b ==> a + SizeOf(w.heap, a) <= b)
  }

  ghost function Step(w: World, c: Call): World
    requires Consistent(w.heap)
  {
    match c
    case Malloc(size, grow, junk) =>
      var r := Imalloc(w.heap, size, grow, junk);
      if r.ptr == 0 then w else World(r.heap, w.live[r.ptr := size])
    case Release(ptr) =>
      if Live(w.heap, ptr) then World(Ifree(w.heap, ptr), w.live - {ptr}) else w
  }

  lemma StepOrderly(w: World, c: Call)
    requires Orderly(w)
    ensures Orderly(Step(w, c))
  {
    match c {
      case Malloc(size, grow, junk) =>
        ImallocCorrect(w.heap, size, grow, junk);
        var r := Imalloc(w.heap, size, grow, junk);
        if r.ptr != 0 {
          AddedOrderly(w, r.heap, r.ptr, size);
        }
      case Release(ptr) =>
        if Live(w.heap, ptr) {
          IfreeCorrect(w.heap, ptr);
          RemovedOrderly(w, Ifree(w.heap, ptr), ptr);
        }
    }
  }

  lemma LiveAbove(h: Heap)
    ensures forall a: nat :: Live(h, a) ==> a >= BASE
  {
  }

  lemma AddedOrderly(w: World, r: Heap, ptr: nat, size: nat)
    requires Orderly(w) && Consistent(r) && NoneIdle(r) && Added(w.heap, r, ptr) && ptr >= BASE &&
             SizeOf(r, ptr) >= size
    ensures Orderly(World(r, w.live[ptr := size]))
  {
    hide SizeOf, Live, Consistent, NoneIdle;
    LiveAbove(r);
    LiveAbove(w.heap);
    AllDisjoint(r, w.live[ptr := size]);
  }

  lemma RemovedOrderly(w: World, r: Heap, ptr: nat)
    requires Orderly(w) && Consistent(r) && NoneIdle(r) && Removed(w.heap, r, ptr)
    ensures Orderly(World(r, w.live - {ptr}))
  {
    hide SizeOf, Live, Consistent, NoneIdle;
    LiveAbove(r);
    LiveAbove(w.heap);
    AllDisjoint(r, w.live - {ptr});
  }

  lemma AllDisjoint(h: Heap, live: map<nat, nat>)
    requires Consistent(h) && forall a: nat :: a in live ==> a >= BASE && Live(h, a)
    ensures forall a: nat, b: nat :: a in live && b in live && a < b ==> a + SizeOf(h, a) <= b
  {
    forall a: nat, b: nat | a in live && b in live && a < b ensures a + SizeOf(h, a) <= b {
      LiveDisjoint(h, a, b);
    }
  }

  /** A heap of which all pages are free. */
  function NewHeap(size: nat): Heap
    requires size > 0
  {
    Heap(Fresh(size), seq(SHIFTS, _ => []), map[])
  }

  lemma NewOrderly(size: nat)
    requires size > 0
    ensures Orderly(World(NewHeap(size), map[]))
  {
    FreshSound(size);
    var h := NewHeap(size);
    assert forall p: nat :: p < size ==> h.book.dir[p] == FREE;
    forall a: nat ensures !Live(h, a) {
    }
  }

  /** Over every run of hmalloc and hfree, of small and large requests, with a heap that grows or not:
      the free runs, the directory, the bitmaps and the lists agree; what was handed out and not given
      back is what is live, with at least the bytes asked for; and no two live allocations overlap. */
  ghost function After(size: nat, run: seq<Call>): (w: World)
    requires size > 0
    ensures Orderly(w)
  {
    if run == [] then
      NewOrderly(size);
      World(NewHeap(size), map[])
    else
      StepOrderly(After(size, run[..|run| - 1]), run[|run| - 1]);
      Step(After(size, run[..|run| - 1]), run[|run| - 1])
  }

  /** Giving back at once what was just handed out leaves the same pointers live, with their bytes. */
  lemma MallocThenFree(h: Heap, size: nat, grow: bool, junk: seq<bool>)
    requires Consistent(h) && NoneIdle(h) && Imalloc(h, size, grow, junk).ptr != 0
    ensures var r := Imalloc(h, size, grow, junk);
            && Consistent(r.heap) && Live(r.heap, r.ptr)
            && (forall a: nat :: Live(Ifree(r.heap, r.ptr), a) <==> Live(h, a))
            && (forall a: nat :: Live(h, a) ==> SizeOf(Ifree(r.heap, r.ptr), a) == SizeOf(h, a))
  {
    ImallocCorrect(h, size, grow, junk);
    var r := Imalloc(h, size, grow, junk);
    IfreeCorrect(r.heap, r.ptr);
    hide Imalloc, Ifree, SizeOf, Live, Consistent;
  }
}

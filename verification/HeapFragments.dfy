/** malloc_bytes and free_bytes of lib/naming/hmalloc.c as values. */
module HeapFragments {
  import opened Machine
  import opened Sequences
  import opened HeapPages
  import opened HeapChunks

  /** `infos` describes the pages of chunks, and lists[s] are those with free chunks of size 1 << s. */
  datatype Heap = Heap(book: Book, lists: seq<seq<nat>>, infos: map<nat, PageInfo>)

  /** The directory knows which pages are described. */
  ghost predicate Paged(h: Heap) {
    && Sound(h.book)
    && (forall p: nat :: p in h.infos <==> p < h.book.size && p < |h.book.dir| && h.book.dir[p] == CHUNKS)
  }

  ghost predicate AllDescribed(h: Heap) {
    forall p: nat :: p in h.infos ==> Described(h.infos[p])
  }

  /** A page is on the list of its size exactly when it has free chunks, and on no other. */
  ghost predicate Filed(h: Heap) {
    && |h.lists| == SHIFTS
    && (forall s :: 0 <= s < SHIFTS ==> Distinct(h.lists[s]))
    && (forall s, p: nat :: 0 <= s < SHIFTS ==>
        (p in h.lists[s] <==> p in h.infos && h.infos[p].shift == s && h.infos[p].free > 0))
  }

  ghost predicate Consistent(h: Heap) {
    Paged(h) && AllDescribed(h) && Filed(h)
  }

  /** A page of which nothing is in use has been given back. */
  ghost predicate NoneIdle(h: Heap) {
    forall p: nat :: p in h.infos ==> h.infos[p].free < h.infos[p].total
  }

  /** The chunk is handed out. */
  ghost predicate Taken(h: Heap, p: nat, k: nat) {
    p in h.infos && InUse(h.infos[p], k)
  }

  function ChunkAddress(p: nat, s: nat, k: nat): (a: nat)
    ensures a >= At(p) > 0
  {
    At(p) + k * Power(s)
  }

  datatype Made = Made(ok: bool, heap: Heap)

  /** malloc_make_chunks */
  function MakeChunks(h: Heap, s: nat, grow: bool, junk: seq<bool>): Made
    requires Sound(h.book) && 4 <= s <= 11 && |h.lists| == SHIFTS
  {
    PageFilled(s);
    MallocPagesCorrect(h.book, L4_PAGESIZE, grow);
    var g := MallocPages(h.book, L4_PAGESIZE, grow);
    if g.ptr == 0 then Made(false, h)
    else
      var p := IndexOf(g.ptr);
      Made(true, Heap(g.book.(dir := g.book.dir[p := CHUNKS]), h.lists[s := [p] + h.lists[s]],
          h.infos[p := NewInfo(s, junk)]))
  }

  datatype Piece = Piece(ptr: nat, heap: Heap)

  /** The first free chunk of the first page on a list. */
  function TakeFrom(h: Heap, s: nat): Piece
    requires s < |h.lists| && h.lists[s] != [] && h.lists[s][0] in h.infos
    requires var i := h.infos[h.lists[s][0]]; i.free > 0 && FirstBit(i.bits) < |i.bits|
  {
    var p := h.lists[s][0];
    var i := TakeChunk(h.infos[p]);
    Piece(ChunkAddress(p, s, FirstBit(h.infos[p].bits)),
               Heap(h.book, if i.free == 0 then h.lists[s := h.lists[s][1..]] else h.lists, h.infos[p := i]))
  }

  lemma FirstPageHasChunk(h: Heap, s: nat)
    requires AllDescribed(h) && Filed(h) && s < SHIFTS && h.lists[s] != []
    ensures h.lists[s][0] in h.infos && h.infos[h.lists[s][0]].shift == s
    ensures var i := h.infos[h.lists[s][0]]; i.free > 0 && Described(i) && FirstBit(i.bits) < |i.bits|
  {
    assert h.lists[s][0] in h.lists[s];
    TakeChunkCorrect(h.infos[h.lists[s][0]]);
  }

  /** malloc_bytes; 0 is failure. */
  function MallocBytes(h: Heap, size: nat, grow: bool, junk: seq<bool>): Piece
    requires Consistent(h) && size <= MAXSIZE
  {
    BucketLeast(size);
    var s := Bucket(size);
    if h.lists[s] != [] then
      FirstPageHasChunk(h, s);
      TakeFrom(h, s)
    else
      var m := MakeChunks(h, s, grow, junk);
      MakeChunksCorrect(h, s, grow, junk);
      if !m.ok then Piece(0, h)
      else
        FirstPageHasChunk(m.heap, s);
        TakeFrom(m.heap, s)
  }

  /** Where free_bytes puts a page that has become non-full: it stops one page before the first that
      lies behind it. */
  function Place(l: seq<nat>, p: nat, j: nat): (r: nat)
    requires j <= |l|
    ensures j <= r <= |l|
    decreases |l| - j
  {
    if j + 1 < |l| && l[j + 1] < p then Place(l, p, j + 1) else j
  }

  ghost predicate Ascending(l: seq<nat>) {
    forall i, j :: 0 <= i < j < |l| ==> l[i] < l[j]
  }

  /** The comment in the source says address order. A list in address order stays so exactly when the
      page goes in front of all others. */
  lemma PlaceKeepsOrder(l: seq<nat>, p: nat)
    requires Ascending(l) && p !in l
    ensures Ascending(InsertedAt(l, Place(l, p, 0), p)) <==> l == [] || p < l[0]
  {
    var k, r := Place(l, p, 0), InsertedAt(l, Place(l, p, 0), p);
    if l != [] && p < l[0] {
      assert k == 0;
      assert forall i :: 0 < i < |r| ==> r[i] == l[i - 1] && l[0] <= l[i - 1];
    } else if l != [] {
      PlaceBehind(l, p, 0);
      assert r[k] == p && r[k + 1] == l[k];
    }
  }

  /** Otherwise the page in its place is followed by a smaller one. */
  lemma {:induction false} PlaceBehind(l: seq<nat>, p: nat, j: nat)
    requires j < |l| && l[j] < p
    ensures Place(l, p, j) < |l| && l[Place(l, p, j)] < p
    decreases |l| - j
  {
    if j + 1 < |l| && l[j + 1] < p {
      PlaceBehind(l, p, j + 1);
    }
  }

  /** For instance. */
  lemma PlaceExample()
    ensures InsertedAt([4, 9], Place([4, 9], 5, 0), 5) == [5, 4, 9]
  {
  }

  /** The place in numbers: as many pages behind the first as have smaller addresses, one after the other. */
  lemma {:induction false} PlaceMeans(l: seq<nat>, p: nat, j: nat)
    requires j <= |l|
    ensures var k := Place(l, p, j);
            && j <= k <= |l| && (forall i :: j < i <= k && i < |l| ==> l[i] < p) && (k + 1 < |l| ==> l[k + 1] >= p)
            && (k > j ==> k < |l|)
    decreases |l| - j
  {
    if j + 1 < |l| && l[j + 1] < p {
      PlaceMeans(l, p, j + 1);
    }
  }

  function Position(l: seq<nat>, p: nat): (i: nat)
    requires p in l
    ensures i < |l| && l[i] == p
  {
    if l[0] == p then 0 else 1 + Position(l[1..], p)
  }

  /** free_bytes of a chunk in use. */
  function FreeBytes(h: Heap, p: nat, k: nat): Heap
    requires Consistent(h) && Taken(h, p, k)
  {
    GiveChunkCorrect(h.infos[p], k);
    var i := GiveChunk(h.infos[p], k);
    var l := h.lists[i.shift];
    if i.free == 1 then
      Heap(h.book, h.lists[i.shift := InsertedAt(l, Place(l, p, 0), p)], h.infos[p := i])
    else if i.free == i.total then
      assert p in l;
      Heap(FreePages(h.book.(dir := h.book.dir[p := FIRST]), p), h.lists[i.shift := RemovedAt(l, Position(l, p))],
          h.infos - {p})
    else Heap(h.book, h.lists, h.infos[p := i])
  }

  // ---------------------------------------------------------------- the directory

  /** A page allocation of one page can be marked as a page of chunks, and back. */
  lemma Remarked(b: Book, p: nat, m: Mark)
    requires Sound(b) && p < b.size && RunLength(b.dir, p) == 1
    requires (b.dir[p] == FIRST && m == CHUNKS) || (b.dir[p] == CHUNKS && m == FIRST)
    ensures Sound(b.(dir := b.dir[p := m])) && RunLength(b.dir[p := m], p) == 1
  {
    var dir := b.dir[p := m];
    RunEndIs(dir, p + 1, p + 1);
    assert b.dir[p + 1] != FOLLOW by {
      assert RunEnd(b.dir, p + 1) == p + 1;
      assert p + 1 < |b.dir|;
    }
    forall i | 0 <= i < |dir| && dir[i] == FOLLOW ensures i > 0 && (dir[i - 1] == FIRST || dir[i - 1] == FOLLOW) {
      assert b.dir[i] == FOLLOW && i != p + 1;
    }
  }

  /** A page of chunks is an allocation of one page. */
  lemma ChunkPageIsOne(b: Book, p: nat)
    requires Sound(b) && p < b.size && b.dir[p] == CHUNKS
    ensures RunLength(b.dir, p) == 1
  {
    assert b.dir[p + 1] != FOLLOW;
  }

  // ---------------------------------------------------------------- new pages of chunks

  lemma OnePage()
    ensures InPages(L4_PAGESIZE) == 1
  {
  }

  lemma OnePageParts(b: Book, g: Book, p: nat)
    requires Sound(b) && Allocated(b, g, p, 1)
    ensures b.size < |b.dir| && p < g.size < |g.dir| && g.dir[p] == FIRST && RunLength(g.dir, p) == 1
    ensures p < b.size ==> b.dir[p] == FREE
  {
  }

  lemma MakeChunksPaged(h: Heap, s: nat, grow: bool, junk: seq<bool>)
    requires Paged(h) && 4 <= s <= 11 && |h.lists| == SHIFTS && MakeChunks(h, s, grow, junk).ok
    ensures MallocPages(h.book, L4_PAGESIZE, grow).ptr >= BASE
    ensures Paged(MakeChunks(h, s, grow, junk).heap)
    ensures IndexOf(MallocPages(h.book, L4_PAGESIZE, grow).ptr) !in h.infos
  {
    hide MallocPages, Sound, IndexOf, Allocated, OthersKept, RunLength, Power, NewInfo;
    MallocPagesCorrect(h.book, L4_PAGESIZE, grow);
    var g := MallocPages(h.book, L4_PAGESIZE, grow);
    var p := IndexOf(g.ptr);
    OnePage();
    OnePageParts(h.book, g.book, p);
    Remarked(g.book, p, CHUNKS);
    NewMarks(h.book, g.book, p);
  }

  lemma NewMarks(b: Book, b': Book, p: nat)
    requires Allocated(b, b', p, 1) && b.size < |b.dir|
    ensures forall q: nat :: q < b'.size && b'.dir[q] == CHUNKS ==> q < b.size && b.dir[q] == CHUNKS
    ensures forall q: nat :: q < b.size && b.dir[q] == CHUNKS ==> q < b'.size && b'.dir[q] == CHUNKS
  {
  }

  lemma MakeChunksCorrect(h: Heap, s: nat, grow: bool, junk: seq<bool>)
    requires Consistent(h) && 4 <= s <= 11 && h.lists[s] == []
    ensures var m := MakeChunks(h, s, grow, junk);
            && (m.ok <==> MallocPages(h.book, L4_PAGESIZE, grow).ptr != 0)
            && (!m.ok ==> m.heap == h)
            && (m.ok ==>
                  && Consistent(m.heap) && |m.heap.lists[s]| == 1
                  && var p := m.heap.lists[s][0];
                    && p !in h.infos && m.heap.infos == h.infos[p := NewInfo(s, junk)])
  {
    NewDescribed(s, junk);
    var m := MakeChunks(h, s, grow, junk);
    if m.ok {
      MakeChunksPaged(h, s, grow, junk);
      hide Paged, MallocPages;
      var p := IndexOf(MallocPages(h.book, L4_PAGESIZE, grow).ptr);
      PutFirst(h, m.heap, s, p);
    }
  }

  /** A new page goes on the empty list of its size. */
  lemma PutFirst(h: Heap, r: Heap, s: nat, p: nat)
    requires Filed(h) && s < SHIFTS && h.lists[s] == [] && p !in h.infos
    requires r.lists == h.lists[s := [p] + h.lists[s]]
    requires p in r.infos && r.infos == h.infos[p := r.infos[p]] && r.infos[p].shift == s && r.infos[p].free > 0
    ensures Filed(r) && r.lists[s] == [p]
  {
    assert [p] + h.lists[s] == [p];
  }

  // ---------------------------------------------------------------- allocation

  /** What handing out one more chunk means: that chunk is taken, and nothing else changes. */
  ghost predicate OneMore(h: Heap, r: Heap, p: nat, k: nat) {
    && !Taken(h, p, k) && Taken(r, p, k)
    && (forall q: nat, j: nat :: q != p || j != k ==> (Taken(r, q, j) <==> Taken(h, q, j)))
  }

  lemma TakeFiled(h: Heap, s: nat)
    requires AllDescribed(h) && Filed(h) && s < SHIFTS && h.lists[s] != []
    ensures h.lists[s][0] in h.infos
    ensures var i := h.infos[h.lists[s][0]]; i.free > 0 && FirstBit(i.bits) < |i.bits|
    ensures Filed(TakeFrom(h, s).heap)
  {
    hide Distinct;
    FirstPageHasChunk(h, s);
    var l, p, r := h.lists[s], h.lists[s][0], TakeFrom(h, s).heap;
    RestOf(l);
    forall t, q: nat | 0 <= t < SHIFTS
      ensures q in r.lists[t] <==> q in r.infos && r.infos[q].shift == t && r.infos[q].free > 0
    {
      assert q in h.lists[t] <==> q in h.infos && h.infos[q].shift == t && h.infos[q].free > 0;
    }
  }

  lemma RestOf(l: seq<nat>)
    requires Distinct(l) && l != []
    ensures Distinct(l[1..]) && forall q: nat :: q in l[1..] <==> q in l && q != l[0]
  {
    forall q: nat | q in l && q != l[0] ensures q in l[1..] {
      var i :| 0 <= i < |l| && l[i] == q;
      assert l[1..][i - 1] == q;
    }
  }

  lemma TakeFromCorrect(h: Heap, s: nat)
    requires AllDescribed(h) && Filed(h) && s < SHIFTS && h.lists[s] != []
    ensures h.lists[s][0] in h.infos
    ensures var p := h.lists[s][0];
            var i := h.infos[p];
            && i.free > 0 && FirstBit(i.bits) < |i.bits| && i.shift == s
            && AllDescribed(TakeFrom(h, s).heap) && OneMore(h, TakeFrom(h, s).heap, p, FirstBit(i.bits))
            && TakeFrom(h, s).ptr == ChunkAddress(p, s, FirstBit(i.bits))
  {
    hide Described, ChunkCount, Stolen;
    FirstPageHasChunk(h, s);
    TakeChunkCorrect(h.infos[h.lists[s][0]]);
  }

  /** The chunk that malloc_bytes hands out. */
  ghost predicate FitsRequest(h: Heap, r: Heap, ptr: nat, size: nat, p: nat, k: nat) {
    && ptr == ChunkAddress(p, Bucket(size), k)
    && p in r.infos && r.infos[p].shift == Bucket(size)
    && OneMore(h, r, p, k)
  }

  /** malloc_bytes fails only when no page with a free chunk of the size is left and no page can be
      had, and then changes nothing. Otherwise it hands out a chunk that was not in use, of the right
      size, and changes nothing else about what is in use. */
  ghost predicate Served(h: Heap, r: Piece, size: nat, grow: bool, p: nat, k: nat)
    requires Sound(h.book)
  {
    var s := Bucket(size);
    && s < |h.lists| && (r.ptr == 0 <==> h.lists[s] == [] && MallocPages(h.book, L4_PAGESIZE, grow).ptr == 0)
    && (r.ptr == 0 ==> r.heap == h)
    && (r.ptr != 0 ==> Consistent(r.heap) && NoneIdle(r.heap) && FitsRequest(h, r.heap, r.ptr, size, p, k))
  }

  /** That is what every call of malloc_bytes does. */
  lemma MallocBytesCorrect(h: Heap, size: nat, grow: bool, junk: seq<bool>) returns (p: nat, k: nat)
    requires Consistent(h) && NoneIdle(h) && size <= MAXSIZE
    ensures Served(h, MallocBytes(h, size, grow, junk), size, grow, p, k)
  {
    BucketLeast(size);
    MallocBytesForms(h, size, grow, junk);
    var s := Bucket(size);
    hide Consistent, NoneIdle, Served, TakeFrom, MakeChunks, FirstBit, Bucket;
    if h.lists[s] != [] {
      p, k := ServedFrom(h, h, size, s, grow, junk);
    } else if MakeChunks(h, s, grow, junk).ok {
      MadePage(h, s, grow, junk);
      p, k := ServedFrom(h, MakeChunks(h, s, grow, junk).heap, size, s, grow, junk);
    } else {
      MadePage(h, s, grow, junk);
      NotServed(h, size, grow);
      p, k := 0, 0;
    }
  }

  lemma MadePage(h: Heap, s: nat, grow: bool, junk: seq<bool>)
    requires Consistent(h) && 4 <= s <= 11 && h.lists[s] == []
    ensures var m := MakeChunks(h, s, grow, junk);
            && (m.ok <==> MallocPages(h.book, L4_PAGESIZE, grow).ptr != 0)
            && (m.ok ==> Extended(h, m.heap, s, junk))
  {
    MakeChunksCorrect(h, s, grow, junk);
    NewDescribed(s, junk);
  }

  /** The heap has a free chunk of the size, on a page it had or on a new one. */
  ghost predicate Extended(h: Heap, h1: Heap, s: nat, junk: seq<bool>) {
    && Consistent(h1) && s < |h1.lists| && h1.lists[s] != []
    && (h1 == h || (s <= SHIFTS && Stolen(s) <= ChunkCount(s) && h1.lists[s][0] !in h.infos &&
        h1.infos == h.infos[h1.lists[s][0] := NewInfo(s, junk)]))
  }

  lemma NotServed(h: Heap, size: nat, grow: bool)
    requires Consistent(h) && size <= MAXSIZE && Bucket(size) < |h.lists| && h.lists[Bucket(size)] == []
    requires MallocPages(h.book, L4_PAGESIZE, grow).ptr == 0
    ensures Served(h, Piece(0, h), size, grow, 0, 0)
  {
  }

  lemma ServedFrom(h: Heap, h1: Heap, size: nat, s: nat, grow: bool, junk: seq<bool>) returns (p: nat, k: nat)
    requires Consistent(h) && NoneIdle(h) && s == Bucket(size) && 4 <= s <= 11
    requires (h1 == h && h.lists[s] != []) ||
             (Extended(h, h1, s, junk) && MallocPages(h.book, L4_PAGESIZE, grow).ptr != 0)
    ensures s < |h1.lists| && h1.lists[s] != [] && h1.lists[s][0] in h1.infos
    ensures var i := h1.infos[h1.lists[s][0]]; i.free > 0 && FirstBit(i.bits) < |i.bits|
    ensures Served(h, TakeFrom(h1, s), size, grow, p, k)
  {
    hide TakeFrom, NoneIdle, OneMore, Bucket, MallocPages, Paged, AllDescribed, Power, ChunkAddress, Distinct;
    p, k := TakeAfter(h, h1, s, junk);
    assert s < |h.lists| && s < |h1.lists|;
    assert ChunkAddress(p, s, k) > 0;
  }

  /** Which chunk it is: the lowest free one of the first page on the list. The page leaves the list when that was
      its last one; no other page and no other list changes. */
  ghost predicate Lowest(h: Heap, s: nat, r: Piece, p: nat, k: nat)
    requires s < |h.lists|
  {
    && h.lists[s] != [] && p == h.lists[s][0] && p in h.infos && k < |h.infos[p].bits|
    && h.infos[p].bits[k] && (forall j :: 0 <= j < k ==> !h.infos[p].bits[j])
    && r.ptr == At(p) + k * Power(s) && r.heap.book == h.book
    && h.infos[p].free >= 1
    && r.heap.infos == h.infos[p := h.infos[p].(bits := h.infos[p].bits[k := false], free := h.infos[p].free - 1)]
    && r.heap.lists == if h.infos[p].free == 1 then h.lists[s := h.lists[s][1..]] else h.lists
  }

  lemma TakesLowest(h: Heap, s: nat)
    requires AllDescribed(h) && Filed(h) && s < SHIFTS && h.lists[s] != []
    ensures h.lists[s][0] in h.infos
    ensures var i := h.infos[h.lists[s][0]]; i.free > 0 && FirstBit(i.bits) < |i.bits|
    ensures exists p, k :: Lowest(h, s, TakeFrom(h, s), p, k)
  {
    hide Described, Power;
    FirstPageHasChunk(h, s);
    var p := h.lists[s][0];
    assert Lowest(h, s, TakeFrom(h, s), p, FirstBit(h.infos[p].bits));
  }

  /** malloc_bytes takes it from the list of the size, or from the one new page that is put there first. */
  lemma MallocBytesTakes(h: Heap, size: nat, grow: bool, junk: seq<bool>)
    requires Consistent(h) && size <= MAXSIZE && Bucket(size) < |h.lists| && MallocBytes(h, size, grow, junk).ptr != 0
    ensures var s, r := Bucket(size), MallocBytes(h, size, grow, junk);
            if h.lists[s] != [] then exists p, k :: Lowest(h, s, r, p, k)
            else
              exists h1: Heap, p, k :: s < |h1.lists| && h1.lists == h.lists[s := [p]] && Lowest(h1, s, r, p, k) &&
                p !in h.infos && h1.infos.Keys == h.infos.Keys + {p} && k == Stolen(s)
  {
    hide Sound, MallocPages, Lowest, TakeFrom, Power, Bucket, MakeChunks, NewInfo, MallocBytes;
    MallocBytesForms(h, size, grow, junk);
    var s := Bucket(size);
    if h.lists[s] != [] {
      TakesLowest(h, s);
    } else {
      var h1 := MakeChunks(h, s, grow, junk).heap;
      MakeChunksCorrect(h, s, grow, junk);
      OneNewPage(h, s, grow, junk);
      TakesLowest(h1, s);
      var p, k :| Lowest(h1, s, TakeFrom(h1, s), p, k);
      LowestOfNew(h1, s, TakeFrom(h1, s), p, k, junk);
    }
  }

  lemma OneNewPage(h: Heap, s: nat, grow: bool, junk: seq<bool>)
    requires Consistent(h) && 4 <= s <= 11 && h.lists[s] == [] && MakeChunks(h, s, grow, junk).ok
    ensures var m := MakeChunks(h, s, grow, junk).heap;
            |m.lists| == SHIFTS && m.lists[s] != [] && m.lists == h.lists[s := [m.lists[s][0]]]
  {
    hide MallocPages, Sound, NewInfo;
    var p := IndexOf(MallocPages(h.book, L4_PAGESIZE, grow).ptr);
    assert [p] + h.lists[s] == [p];
  }

  lemma LowestOfNew(h1: Heap, s: nat, r: Piece, p: nat, k: nat, junk: seq<bool>)
    requires 4 <= s <= 11 && s < |h1.lists| && Lowest(h1, s, r, p, k)
    requires h1.lists[s][0] in h1.infos && Stolen(s) <= ChunkCount(s) && h1.infos[h1.lists[s][0]] == NewInfo(s, junk)
    ensures p == h1.lists[s][0] && k == Stolen(s)
  {
    hide Power, Words, ChunkCount, Stolen;
    PageFilled(s);
    assert h1.infos[p].bits[Stolen(s)];
  }

  /** The three ways in which malloc_bytes ends. */
  lemma MallocBytesForms(h: Heap, size: nat, grow: bool, junk: seq<bool>)
    requires Consistent(h) && size <= MAXSIZE
    ensures 4 <= Bucket(size) <= 11
    ensures var s, r := Bucket(size), MallocBytes(h, size, grow, junk);
            if h.lists[s] != [] then
              && h.lists[s][0] in h.infos && h.infos[h.lists[s][0]].free > 0
              && FirstBit(h.infos[h.lists[s][0]].bits) < |h.infos[h.lists[s][0]].bits|
              && r == TakeFrom(h, s)
            else
              var m := MakeChunks(h, s, grow, junk);
              if !m.ok then r == Piece(0, h)
              else
                && |m.heap.lists| == SHIFTS && m.heap.lists[s] != [] && m.heap.lists[s][0] in m.heap.infos
                && m.heap.infos[m.heap.lists[s][0]].free > 0
                && FirstBit(m.heap.infos[m.heap.lists[s][0]].bits) < |m.heap.infos[m.heap.lists[s][0]].bits|
                && r == TakeFrom(m.heap, s)
  {
    BucketLeast(size);
    var s := Bucket(size);
    if h.lists[s] != [] {
      FirstPageHasChunk(h, s);
    } else {
      MakeChunksCorrect(h, s, grow, junk);
      if MakeChunks(h, s, grow, junk).ok {
        FirstPageHasChunk(MakeChunks(h, s, grow, junk).heap, s);
      }
    }
  }

  /** malloc_bytes once there is a page with a free chunk, a new one or an old one. */
  lemma TakeAfter(h: Heap, h1: Heap, s: nat, junk: seq<bool>) returns (p: nat, k: nat)
    requires Consistent(h) && NoneIdle(h) && 4 <= s <= 11 && Consistent(h1) && h1.lists[s] != []
    requires h1 == h || (Stolen(s) <= ChunkCount(s) && h1.lists[s][0] !in h.infos &&
             h1.infos == h.infos[h1.lists[s][0] := NewInfo(s, junk)])
    ensures h1.lists[s][0] in h1.infos
    ensures var i := h1.infos[h1.lists[s][0]]; i.free > 0 && FirstBit(i.bits) < |i.bits|
    ensures var r := TakeFrom(h1, s);
            && Consistent(r.heap) && NoneIdle(r.heap) && OneMore(h, r.heap, p, k)
            && r.ptr == ChunkAddress(p, s, k) && p in r.heap.infos && r.heap.infos[p].shift == s
  {
    TakeFiled(h1, s);
    TakeFromCorrect(h1, s);
    TakenPaged(h1, s);
    NoneIdleAfter(h, h1, s, junk);
    p, k := h1.lists[s][0], FirstBit(h1.infos[h1.lists[s][0]].bits);
    if h1 != h {
      NewPageNothingTaken(h, h1, p, s, junk);
    }
    hide Taken, Paged, Filed, AllDescribed, NoneIdle, NewInfo;
  }

  lemma TakenPaged(h: Heap, s: nat)
    requires Paged(h) && AllDescribed(h) && Filed(h) && s < SHIFTS && h.lists[s] != []
    ensures h.lists[s][0] in h.infos
    ensures var i := h.infos[h.lists[s][0]]; i.free > 0 && FirstBit(i.bits) < |i.bits|
    ensures Paged(TakeFrom(h, s).heap)
  {
    FirstPageHasChunk(h, s);
  }

  /** On a new page nothing is in use yet. */
  lemma NewPageNothingTaken(h: Heap, h1: Heap, p: nat, s: nat, junk: seq<bool>)
    requires 4 <= s <= 11 && p !in h.infos && Stolen(s) <= ChunkCount(s) && h1.infos == h.infos[p := NewInfo(s, junk)]
    ensures forall q: nat, j: nat :: Taken(h1, q, j) <==> Taken(h, q, j)
  {
    NewDescribed(s, junk);
  }

  lemma NoneIdleAfter(h: Heap, h1: Heap, s: nat, junk: seq<bool>)
    requires NoneIdle(h) && s < SHIFTS && AllDescribed(h1) && Filed(h1) && h1.lists[s] != []
    requires h1 == h || (Stolen(s) <= ChunkCount(s) && h1.infos == h.infos[h1.lists[s][0] := NewInfo(s, junk)])
    ensures h1.lists[s][0] in h1.infos
    ensures var i := h1.infos[h1.lists[s][0]]; i.free > 0 && FirstBit(i.bits) < |i.bits|
    ensures NoneIdle(TakeFrom(h1, s).heap)
  {
    FirstPageHasChunk(h1, s);
    hide Described;
  }

  // ---------------------------------------------------------------- release

  /** What taking one chunk back means. */
  ghost predicate OneLess(h: Heap, r: Heap, p: nat, k: nat) {
    && !Taken(r, p, k)
    && (forall q: nat, j: nat :: q != p || j != k ==> (Taken(r, q, j) <==> Taken(h, q, j)))
  }

  lemma FreeBytesTaken(h: Heap, p: nat, k: nat)
    requires Consistent(h) && Taken(h, p, k)
    ensures OneLess(h, FreeBytes(h, p, k), p, k) && AllDescribed(FreeBytes(h, p, k))
  {
    hide Paged, Filed, Described, Count, Power, ChunkCount, Stolen, FreePages, Place, Position;
    var i := GiveChunk(h.infos[p], k);
    GiveChunkCorrect(h.infos[p], k);
    if i.free != 1 && i.free == i.total {
      CountFull(i.bits, Stolen(i.shift), ChunkCount(i.shift));
      assert forall j: nat :: InUse(h.infos[p], j) ==> j == k by {
        forall j: nat | InUse(h.infos[p], j) ensures j == k {
          assert !h.infos[p].bits[j] && i.bits[j];
        }
      }
    }
  }

  lemma FreeBytesFiled(h: Heap, p: nat, k: nat)
    requires Consistent(h) && Taken(h, p, k)
    ensures Filed(FreeBytes(h, p, k))
  {
    hide Described, Paged, Distinct, Power, Count, ChunkCount, Stolen, FreePages, Place, Position, InsertedAt,
         RemovedAt;
    var r := FreeBytes(h, p, k);
    GiveChunkCorrect(h.infos[p], k);
    var i := GiveChunk(h.infos[p], k);
    var l := h.lists[i.shift];
    if i.free == 1 {
      assert p !in l;
      InsertedMembers(l, Place(l, p, 0), p);
    } else if i.free == i.total {
      assert p in l;
      RemovedMembers(l, Position(l, p));
    }
    forall t, q: nat | 0 <= t < SHIFTS
      ensures q in r.lists[t] <==> q in r.infos && r.infos[q].shift == t && r.infos[q].free > 0
    {
      assert q in h.lists[t] <==> q in h.infos && h.infos[q].shift == t && h.infos[q].free > 0;
    }
  }

  lemma InsertedMembers(l: seq<nat>, i: nat, x: nat)
    requires Distinct(l) && i <= |l| && x !in l
    ensures Distinct(InsertedAt(l, i, x)) && forall q: nat :: q in InsertedAt(l, i, x) <==> q in l || q == x
  {
    DistinctInserted(l, i, x);
    assert l == l[..i] + l[i..];
  }

  lemma RemovedMembers(l: seq<nat>, i: nat)
    requires Distinct(l) && i < |l|
    ensures Distinct(RemovedAt(l, i)) && forall q: nat :: q in RemovedAt(l, i) <==> q in l && q != l[i]
  {
    DistinctRemoved(l, i);
    assert l == l[..i] + [l[i]] + l[i + 1..];
    assert forall j :: 0 <= j < |l| && j != i ==> l[j] != l[i];
  }

  lemma FreeBytesPaged(h: Heap, p: nat, k: nat)
    requires Consistent(h) && Taken(h, p, k)
    ensures Paged(FreeBytes(h, p, k))
  {
    hide Sound, Described, Filed, FreePages, RunLength, OthersKept, Place, Position, Power, Stolen, ChunkCount, Count;
    GiveChunkCorrect(h.infos[p], k);
    var i := GiveChunk(h.infos[p], k);
    if i.free != 1 && i.free == i.total {
      var b := h.book;
      ChunkPageIsOne(b, p);
      Remarked(b, p, FIRST);
      var b1 := b.(dir := b.dir[p := FIRST]);
      FreePagesCorrect(b1, p);
      assert FreePages(b1, p).dir == Freed(b1.dir, p, 1);
    }
  }

  /** free_bytes takes back that chunk and changes nothing else about what is in use; a page of which
      nothing is in use any more goes back to the free runs. */
  lemma FreeBytesCorrect(h: Heap, p: nat, k: nat)
    requires Consistent(h) && NoneIdle(h) && Taken(h, p, k)
    ensures var r := FreeBytes(h, p, k);
            Consistent(r) && NoneIdle(r) && OneLess(h, r, p, k)
  {
    hide Paged, Filed, OneLess, Count, Power, Stolen, ChunkCount, Place, Position, FreePages;
    FreeBytesTaken(h, p, k);
    FreeBytesFiled(h, p, k);
    FreeBytesPaged(h, p, k);
    GiveChunkCorrect(h.infos[p], k);
    var i := GiveChunk(h.infos[p], k);
    assert i.total >= 2;
  }

  /** What happens to the lists and the pages: a page that was full comes back to the list of its size, a page of
      which nothing is in use any more leaves it and is described no longer, and otherwise nothing moves. */
  lemma FreeBytesMoves(h: Heap, p: nat, k: nat)
    requires Consistent(h) && Taken(h, p, k)
    ensures p in h.infos && k < |h.infos[p].bits| && h.infos[p].shift < |h.lists|
    ensures var i, r := h.infos[p], FreeBytes(h, p, k);
            var given, l := i.(bits := i.bits[k := true], free := i.free + 1), h.lists[i.shift];
            if i.free == 0 then
              && r.book == h.book && r.infos == h.infos[p := given]
              && Place(l, p, 0) <= |l|
              && r.lists == h.lists[i.shift := l[..Place(l, p, 0)] + [p] + l[Place(l, p, 0)..]]
            else if i.free + 1 == i.total then
              && r.infos == h.infos - {p}
              && exists n :: 0 <= n < |l| && l[n] == p && r.lists == h.lists[i.shift := l[..n] + l[n + 1..]]
            else r.book == h.book && r.infos == h.infos[p := given] && r.lists == h.lists
  {
    hide Paged, Described, Count, Power, Stolen, ChunkCount, Place, FreePages;
    GiveChunkCorrect(h.infos[p], k);
    TakenShift(h, p, k);
    var l := h.lists[h.infos[p].shift];
    if h.infos[p].free > 0 {
      assert p in l;
      assert RemovedAt(l, Position(l, p)) == l[..Position(l, p)] + l[Position(l, p) + 1..];
    }
  }

  lemma TakenShift(h: Heap, p: nat, k: nat)
    requires Consistent(h) && Taken(h, p, k)
    ensures h.infos[p].shift < |h.lists|
  {
  }

  // ---------------------------------------------------------------- addresses

  /** Where chunk k starts in its page. */
  lemma OffsetFacts(s: nat, k: nat)
    requires 4 <= s <= 11 && k < ChunkCount(s)
    ensures var o := k * Power(s);
            && o + Power(s) <= L4_PAGESIZE && o / Power(s) == k && o % Power(s) == 0
            && (0 < Stolen(s) <= k ==> HeaderSize(s) <= o)
  {
    Table(s);
    var c, m, w, t := ChunkCount(s), Power(s), Words(s), Stolen(s);
    assert HeaderSize(s) == 24 + 4 * w;
    hide *;
    if s == 4 {
      ByLiteral(k, m, 16);
    } else if s == 5 {
      ByLiteral(k, m, 32);
    } else if s == 6 {
      ByLiteral(k, m, 64);
    } else if s == 7 {
      ByLiteral(k, m, 128);
    } else if s == 8 {
      ByLiteral(k, m, 256);
    } else if s == 9 {
      ByLiteral(k, m, 512);
    } else if s == 10 {
      ByLiteral(k, m, 1024);
    } else {
      ByLiteral(k, m, 2048);
    }
  }

  lemma ByLiteral(k: nat, m: nat, lit: nat)
    requires m == lit && lit in {16, 32, 64, 128, 256, 512, 1024, 2048}
    ensures k * m == k * lit && (k * m) / m == k && (k * m) % m == 0
  {
    if lit == 16 {
      assert (k * 16) / 16 == k && (k * 16) % 16 == 0;
    } else if lit == 32 {
      assert (k * 32) / 32 == k && (k * 32) % 32 == 0;
    } else if lit == 64 {
      assert (k * 64) / 64 == k && (k * 64) % 64 == 0;
    } else if lit == 128 {
      assert (k * 128) / 128 == k && (k * 128) % 128 == 0;
    } else if lit == 256 {
      assert (k * 256) / 256 == k && (k * 256) % 256 == 0;
    } else if lit == 512 {
      assert (k * 512) / 512 == k && (k * 512) % 512 == 0;
    } else if lit == 1024 {
      assert (k * 1024) / 1024 == k && (k * 1024) % 1024 == 0;
    } else {
      assert (k * 2048) / 2048 == k && (k * 2048) % 2048 == 0;
    }
  }

  /** A chunk lies in its page, behind the description if that is in the page. */
  lemma ChunkInside(h: Heap, p: nat, k: nat)
    requires AllDescribed(h) && Taken(h, p, k)
    ensures var s := h.infos[p].shift;
            && At(p) <= ChunkAddress(p, s, k) && ChunkAddress(p, s, k) + Power(s) <= At(p) + L4_PAGESIZE
            && (Stolen(s) > 0 ==> ChunkAddress(p, s, k) >= At(p) + HeaderSize(s))
  {
    var s := h.infos[p].shift;
    assert 4 <= s <= 11 && Stolen(s) <= k < ChunkCount(s);
    OffsetFacts(s, k);
    hide Power, Stolen, HeaderSize, ChunkCount, At, Taken, AllDescribed;
    assert ChunkAddress(p, s, k) == At(p) + k * Power(s);
  }

  /** Chunks in use share no byte. */
  lemma ChunksDisjoint(h: Heap, p: nat, k: nat, q: nat, j: nat)
    requires AllDescribed(h) && Taken(h, p, k) && Taken(h, q, j) && (p != q || k != j)
    ensures var a, b := ChunkAddress(p, h.infos[p].shift, k), ChunkAddress(q, h.infos[q].shift, j);
            a + Power(h.infos[p].shift) <= b || b + Power(h.infos[q].shift) <= a
  {
    ChunkInside(h, p, k);
    ChunkInside(h, q, j);
    var m := Power(h.infos[p].shift);
    hide Power, AllDescribed, Taken, Stolen;
    if p == q {
      StepsApart(if k < j then k else j, if k < j then j else k, m);
    }
  }

  /** How free_bytes gets the chunk number from a pointer. */
  function ChunkNumber(a: nat, m: nat): nat
    requires m > 0
  {
    (a % L4_PAGESIZE) / m
  }

  /** free_bytes finds the page and the chunk from the pointer. */
  lemma PointerDecodes(p: nat, s: nat, k: nat)
    requires 4 <= s <= 11 && k < ChunkCount(s)
    ensures IndexOf(ChunkAddress(p, s, k)) == p && ChunkNumber(ChunkAddress(p, s, k), Power(s)) == k
  {
    hide Power, IndexOf, At, ChunkCount;
    OffsetFacts(s, k);
    Decoded(p, k * Power(s), Power(s), k);
  }

  lemma Decoded(p: nat, o: nat, m: nat, k: nat)
    requires m > 0 && o < L4_PAGESIZE && o / m == k
    ensures IndexOf(At(p) + o) == p && ChunkNumber(At(p) + o, m) == k
  {
    OffsetInPage(p, o);
  }

  lemma OffsetInPage(p: nat, o: nat)
    requires o < L4_PAGESIZE
    ensures IndexOf(At(p) + o) == p && (At(p) + o) % L4_PAGESIZE == o
  {
  }
}

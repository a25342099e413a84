/** Runs of free pages and the page directory in lib/naming/hmalloc.c as a value. */
module HeapPages {
  import opened Machine
  import opened FreeList

  type PageAddress = a: nat | a > 0 && a % 4096 == 0 witness 4096

  /** Where the heap starts: any page. */
  const BASE: PageAddress

  /** An entry of the page directory. CHUNKS stands for the description of a page of chunks. */
  datatype Mark = NOT_MINE | FREE | FIRST | FOLLOW | CHUNKS

  /** The heap has `size` pages; the directory has room for more. The slots at its front that serve
      as bucket heads are kept apart. */
  datatype Book = Book(free: seq<Chunk>, dir: seq<Mark>, size: nat)

  function At(i: nat): nat {
    BASE + i * L4_PAGESIZE
  }

  /** ptr2idx */
  function IndexOf(a: nat): nat
    requires a >= BASE
  {
    (a - BASE) / L4_PAGESIZE
  }

  function InPages(size: nat): nat {
    PageRoundUp(size) / L4_PAGESIZE
  }

  /** Where the FOLLOW entries from i on end. */
  function RunEnd(dir: seq<Mark>, i: nat): (e: nat)
    requires i <= |dir|
    ensures i <= e <= |dir|
    ensures forall k :: i <= k < e ==> dir[k] == FOLLOW
    ensures e < |dir| ==> dir[e] != FOLLOW
    decreases |dir| - i
  {
    if i < |dir| && dir[i] == FOLLOW then RunEnd(dir, i + 1) else i
  }

  /** The pages of the allocation that starts at page i. */
  function RunLength(dir: seq<Mark>, i: nat): (n: nat)
    requires i < |dir|
    ensures n >= 1 && i + n <= |dir|
  {
    RunEnd(dir, i + 1) - i
  }

  /** A FIRST and its FOLLOWs. */
  function Marked(dir: seq<Mark>, i: nat, n: nat): (r: seq<Mark>)
    requires n >= 1 && i + n <= |dir|
    ensures |r| == |dir|
    ensures forall k :: 0 <= k < |dir| ==> r[k] == if k == i then FIRST else if i < k < i + n then FOLLOW else dir[k]
  {
    seq(|dir|, k requires 0 <= k < |dir| => if k == i then FIRST else if i < k < i + n then FOLLOW else dir[k])
  }

  function Freed(dir: seq<Mark>, i: nat, n: nat): (r: seq<Mark>)
    requires i + n <= |dir|
    ensures |r| == |dir|
    ensures forall k :: 0 <= k < |dir| ==> r[k] == if i <= k < i + n then FREE else dir[k]
  {
    seq(|dir|, k requires 0 <= k < |dir| => if i <= k < i + n then FREE else dir[k])
  }

  /** extend_pgdir, when the directory has no entry behind the last page. */
  function Roomier(dir: seq<Mark>, size: nat): (r: seq<Mark>)
    requires size >= 1
    ensures size < |r| && dir <= r
    ensures forall k :: |dir| <= k < |r| ==> r[k] == NOT_MINE
  {
    if size >= |dir| then dir + seq((PageRoundUp((size - 1) * 8) + L4_PAGESIZE) / 8 - |dir|, _ => NOT_MINE) else dir
  }

  /** The free runs are tidy and lie in the heap. */
  ghost predicate RunsInside(free: seq<Chunk>, size: nat) {
    Tidy(free) && forall x: nat :: IsFree(free, x) ==> BASE <= x < At(size)
  }

  /** The directory knows the pages of the heap and no others, and says FREE of exactly those in
      free runs. */
  ghost predicate Agrees(b: Book) {
    && b.size < |b.dir|
    && (forall i :: 0 <= i < |b.dir| ==> (b.dir[i] == NOT_MINE <==> i >= b.size))
    && (forall i :: 0 <= i < b.size ==> (b.dir[i] == FREE <==> IsFree(b.free, At(i))))
  }

  /** Every FOLLOW continues an allocation. */
  ghost predicate Continues(dir: seq<Mark>) {
    forall i :: 0 <= i < |dir| && dir[i] == FOLLOW ==> i > 0 && (dir[i - 1] == FIRST || dir[i - 1] == FOLLOW)
  }

  ghost predicate Sound(b: Book) {
    RunsInside(b.free, b.size) && Agrees(b) && Continues(b.dir)
  }

  datatype Got = Got(ptr: nat, book: Book)

  /** malloc_pages. `grow` says whether map_pages can extend the heap. */
  function MallocPages(b: Book, size: nat, grow: bool): Got
    requires Sound(b) && size > 0
  {
    var n, a := InPages(size), Alloc(b.free, size);
    AllocInside(b, size);
    if a.addr != 0 then Got(a.addr, Book(a.left, Marked(b.dir, IndexOf(a.addr), n), b.size))
    else if grow then Got(At(b.size), Book(b.free, Marked(Roomier(b.dir, b.size + n), b.size, n), b.size + n))
    else Got(0, b)
  }

  /** free_pages of the allocation at page i. */
  function FreePages(b: Book, i: nat): Book
    requires i < |b.dir|
  {
    var n := RunLength(b.dir, i);
    Book(Release(b.free, At(i), n * L4_PAGESIZE), Freed(b.dir, i, n), b.size)
  }

  // ---------------------------------------------------------------- addresses and pages

  lemma IndexAt(i: nat)
    ensures IndexOf(At(i)) == i && At(i) > 0 && At(i) % L4_PAGESIZE == 0
  {
  }

  lemma AtIndex(a: nat)
    requires a >= BASE && a % L4_PAGESIZE == 0
    ensures At(IndexOf(a)) == a
  {
  }

  lemma WholePages(size: nat)
    requires size > 0
    ensures InPages(size) >= 1 && InPages(size) * L4_PAGESIZE == PageRoundUp(size)
  {
  }

  /** Free runs are made of whole pages. */
  lemma FreeByPage(s: seq<Chunk>, x: nat)
    requires Tidy(s) && x >= BASE
    ensures IsFree(s, x) <==> IsFree(s, At(IndexOf(x)))
  {
    PageStart(x);
    FreeSamePage(s, x, At(IndexOf(x)));
  }

  lemma PageStart(x: nat)
    requires x >= BASE
    ensures var y := At(IndexOf(x));
            y <= x < y + L4_PAGESIZE && y % L4_PAGESIZE == 0 && y == x / L4_PAGESIZE * L4_PAGESIZE &&
                x == y + x % L4_PAGESIZE
  {
  }

  lemma FreeSamePage(s: seq<Chunk>, x: nat, y: nat)
    requires Tidy(s) && y <= x < y + L4_PAGESIZE && y % L4_PAGESIZE == 0
    ensures IsFree(s, x) <==> IsFree(s, y)
  {
    hide Pages;
    if IsFree(s, x) {
      var i :| 0 <= i < |s| && Within(s[i], x);
      PageEnds(s[i]);
      StartOfPage(s[i].addr, x, y);
      assert Within(s[i], y);
    }
    if IsFree(s, y) {
      var i :| 0 <= i < |s| && Within(s[i], y);
      PageEnds(s[i]);
      EndOfPage(s[i].addr + s[i].size, x, y);
      assert Within(s[i], x);
    }
  }

  lemma PageEnds(c: Chunk)
    requires Pages(c)
    ensures c.addr % L4_PAGESIZE == 0 && (c.addr + c.size) % L4_PAGESIZE == 0
  {
  }

  lemma StartOfPage(a: nat, x: nat, y: nat)
    requires a % L4_PAGESIZE == 0 && y % L4_PAGESIZE == 0 && a <= x && y <= x < y + L4_PAGESIZE
    ensures a <= y
  {
  }

  lemma EndOfPage(e: nat, x: nat, y: nat)
    requires e % L4_PAGESIZE == 0 && y % L4_PAGESIZE == 0 && y < e && x < y + L4_PAGESIZE
    ensures x < e
  {
  }

  /** What the free list hands out lies in the heap. */
  lemma AllocInside(b: Book, size: nat)
    requires RunsInside(b.free, b.size) && Agrees(b) && size > 0
    ensures var a := Alloc(b.free, size);
            InPages(size) >= 1
            && (a.addr != 0 ==>
                  && a.addr >= BASE && At(IndexOf(a.addr)) == a.addr
                  && IndexOf(a.addr) + InPages(size) <= b.size)
  {
    AllocCorrect(b.free, size);
    WholePages(size);
    var a := Alloc(b.free, size);
    if a.addr != 0 {
      var c := Chunk(a.addr, PageRoundUp(size));
      assert Within(c, a.addr);
      AtIndex(a.addr);
      var last := a.addr + PageRoundUp(size) - 1;
      assert Within(c, last);
      assert IsFree(b.free, last);
    }
  }

  // ---------------------------------------------------------------- runs of marks

  lemma {:induction false} RunEndIs(dir: seq<Mark>, i: nat, e: nat)
    requires i <= e <= |dir|
    requires forall k :: i <= k < e ==> dir[k] == FOLLOW
    requires e < |dir| ==> dir[e] != FOLLOW
    ensures RunEnd(dir, i) == e
    decreases e - i
  {
    if i < e {
      RunEndIs(dir, i + 1, e);
    }
  }

  /** What follows an allocation is no FOLLOW when the entry before it was not an allocation's. */
  ghost predicate Bounded(dir: seq<Mark>, i: nat, n: nat) {
    i + n < |dir| && dir[i + n] != FOLLOW
  }

  lemma MarkedRun(dir: seq<Mark>, i: nat, n: nat)
    requires n >= 1 && Bounded(dir, i, n)
    ensures RunLength(Marked(dir, i, n), i) == n
  {
    RunEndIs(Marked(dir, i, n), i + 1, i + n);
  }

  /** An allocation keeps its length when its marks stay and nothing is added behind it. */
  lemma OtherRun(dir: seq<Mark>, dir': seq<Mark>, a: nat)
    requires a < |dir| <= |dir'| && RunEnd(dir, a + 1) < |dir|
    requires forall k :: a < k < RunEnd(dir, a + 1) ==> dir'[k] == dir[k]
    requires dir'[RunEnd(dir, a + 1)] != FOLLOW
    ensures RunLength(dir', a) == RunLength(dir, a)
  {
    RunEndIs(dir', a + 1, RunEnd(dir, a + 1));
  }

  /** Two allocations do not share a page. */
  lemma RunsDisjoint(dir: seq<Mark>, a: nat, a': nat)
    requires a < a' < |dir| && dir[a'] == FIRST
    ensures a + RunLength(dir, a) <= a'
  {
  }

  /** The free list hands out pages that the directory calls free. */
  lemma GrantedFree(b: Book, size: nat, k: nat)
    requires Sound(b) && size > 0 && Alloc(b.free, size).addr != 0
    requires var a := Alloc(b.free, size).addr;
             a >= BASE && IndexOf(a) <= k < IndexOf(a) + InPages(size)
    ensures k < b.size && b.dir[k] == FREE && !IsFree(Alloc(b.free, size).left, At(k))
  {
    AllocInside(b, size);
    AllocCorrect(b.free, size);
    WholePages(size);
    var a := Alloc(b.free, size).addr;
    assert At(k) == a + (k - IndexOf(a)) * L4_PAGESIZE;
    assert Within(Chunk(a, PageRoundUp(size)), At(k));
  }

  /** The pages of an allocation are not in any free run, so they can be released. */
  lemma RunReleasable(b: Book, i: nat)
    requires Sound(b) && i < b.size && b.dir[i] == FIRST
    ensures var n := RunLength(b.dir, i);
            i + n <= b.size && Releasable(b.free, Chunk(At(i), n * L4_PAGESIZE))
  {
    var n := RunLength(b.dir, i);
    assert b.dir[b.size] != FOLLOW;
    IndexAt(i);
    forall x | Within(Chunk(At(i), n * L4_PAGESIZE), x) ensures !IsFree(b.free, x) {
      FreeByPage(b.free, x);
      var k := IndexOf(x);
      PageStart(x);
      assert i <= k < i + n;
      assert b.dir[k] != FREE;
    }
  }

  // ---------------------------------------------------------------- allocation

  /** Pages that no allocation uses. */
  ghost predicate Unused(dir: seq<Mark>, i: nat, n: nat) {
    i + n < |dir| && forall k :: i <= k < i + n ==> dir[k] == FREE || dir[k] == NOT_MINE
  }

  lemma MarkedContinues(dir: seq<Mark>, i: nat, n: nat)
    requires Continues(dir) && n >= 1 && Unused(dir, i, n)
    ensures Continues(Marked(dir, i, n)) && Bounded(dir, i, n)
  {
    assert dir[i + n - 1] == FREE || dir[i + n - 1] == NOT_MINE;
  }

  /** An allocation on unused pages has its length, and the others keep theirs. */
  lemma MarkedRuns(dir: seq<Mark>, i: nat, n: nat, a: nat)
    requires Continues(dir) && n >= 1 && Unused(dir, i, n)
    requires a < |dir| && dir[a] == FIRST && RunEnd(dir, a + 1) < |dir|
    ensures a != i && Marked(dir, i, n)[a] == FIRST && RunLength(Marked(dir, i, n), a) == RunLength(dir, a)
  {
    var e := RunEnd(dir, a + 1);
    MarkedContinues(dir, i, n);
    if i < e < i + n {
      assert dir[e - 1] == FREE || dir[e - 1] == NOT_MINE;
    }
    OtherRun(dir, Marked(dir, i, n), a);
  }

  lemma RunEndsInside(b: Book, a: nat)
    requires Agrees(b) && a < b.size
    ensures RunEnd(b.dir, a + 1) <= b.size
  {
    assert b.dir[b.size] != FOLLOW;
  }

  /** What a new allocation of n pages at page i means for the directory. */
  ghost predicate Allocated(b: Book, b': Book, i: nat, n: nat) {
    && n >= 1 && i + n <= b'.size < |b'.dir| && |b.dir| <= |b'.dir|
    && (b'.size == b.size || (i == b.size && b'.size == i + n))
    && b'.dir[i] == FIRST && RunLength(b'.dir, i) == n
    && (forall k :: i <= k < i + n && k < b.size ==> k < |b.dir| && b.dir[k] == FREE)
    && (forall k :: 0 <= k < |b.dir| && !(i <= k < i + n) ==> b'.dir[k] == b.dir[k])
  }

  /** Every other allocation is still there, with its length. */
  ghost predicate OthersKept(b: Book, b': Book, i: nat) {
    forall a :: 0 <= a < b.size && a < |b.dir| && b.dir[a] == FIRST && a != i ==>
      a < |b'.dir| && b'.dir[a] == FIRST && RunLength(b'.dir, a) == RunLength(b.dir, a)
  }

  /** Where malloc_pages finds its pages: at the front of the first run that is long enough; otherwise behind the
      last page, when the heap can grow, which leaves the free runs alone. */
  lemma MallocPagesTakes(b: Book, size: nat, grow: bool)
    requires Sound(b) && size > 0
    ensures var r, n := MallocPages(b, size, grow), PageRoundUp(size);
            if exists i :: 0 <= i < |b.free| && b.free[i].size >= n then
              exists i :: FrontOfFirst(b.free, n, i, Allocation(r.ptr, r.book.free)) && r.book.size == b.size
            else if grow then
              r.ptr == BASE + b.size * 4096 && r.book.free == b.free && r.book.size == b.size + n / 4096
            else r == Got(0, b)
  {
    hide PageRoundUp, Marked, Roomier;
    AllocCorrect(b.free, size);
    if exists i :: 0 <= i < |b.free| && b.free[i].size >= PageRoundUp(size) {
      AllocTakesFirst(b.free, size);
    }
  }

  /** A directory that is too short becomes longer by whole pages of entries, with room for at least 512 more than
      the pages before the last one. */
  lemma RoomierLength(dir: seq<Mark>, size: nat)
    requires size >= 1
    ensures size < |dir| ==> Roomier(dir, size) == dir
    ensures size >= |dir| ==>
              |Roomier(dir, size)| % 512 == 0 && size + 511 <= |Roomier(dir, size)| < size + 1023
  {
  }

  lemma TakenFromRun(b: Book, size: nat)
    requires Sound(b) && size > 0 && Alloc(b.free, size).addr != 0
    ensures var r := MallocPages(b, size, false);
            r.ptr >= BASE && Sound(r.book) && Allocated(b, r.book, IndexOf(r.ptr), InPages(size))
            && OthersKept(b, r.book, IndexOf(r.ptr))
  {
    AllocInside(b, size);
    AllocCorrect(b.free, size);
    WholePages(size);
    var a, n := Alloc(b.free, size), InPages(size);
    var i := IndexOf(a.addr);
    forall k | i <= k < i + n ensures k < b.size && b.dir[k] == FREE && !IsFree(a.left, At(k)) {
      GrantedFree(b, size, k);
    }
    forall k | 0 <= k < b.size && !(i <= k < i + n) ensures IsFree(a.left, At(k)) <==> IsFree(b.free, At(k)) {
      OutsideRun(a.addr, PageRoundUp(size), i, n, k);
    }
    hide Alloc, Tidy, At, IndexOf;
    MarkedInside(b, a.left, i, n);
  }

  /** Marking free pages of the heap as an allocation, when the free runs lose just those. */
  lemma MarkedInside(b: Book, left: seq<Chunk>, i: nat, n: nat)
    requires Sound(b) && n >= 1 && i + n <= b.size && RunsInside(left, b.size)
    requires forall k :: i <= k < i + n ==> b.dir[k] == FREE && !IsFree(left, At(k))
    requires forall k :: 0 <= k < b.size && !(i <= k < i + n) ==> (IsFree(left, At(k)) <==> IsFree(b.free, At(k)))
    ensures var r := Book(left, Marked(b.dir, i, n), b.size);
            Sound(r) && Allocated(b, r, i, n) && OthersKept(b, r, i)
  {
    hide RunLength, RunsInside, IsFree, At;
    MarkedContinues(b.dir, i, n);
    MarkedRun(b.dir, i, n);
    forall x | 0 <= x < b.size && b.dir[x] == FIRST && x != i
      ensures Marked(b.dir, i, n)[x] == FIRST && RunLength(Marked(b.dir, i, n), x) == RunLength(b.dir, x)
    {
      RunEndsInside(b, x);
      MarkedRuns(b.dir, i, n, x);
    }
  }

  lemma OutsideRun(a: nat, size: nat, i: nat, n: nat, k: nat)
    requires a == At(i) && size == n * L4_PAGESIZE && !(i <= k < i + n)
    ensures !Within(Chunk(a, size), At(k))
  {
  }

  lemma TakenFromNew(b: Book, size: nat)
    requires Sound(b) && size > 0 && Alloc(b.free, size).addr == 0
    ensures var r := MallocPages(b, size, true);
            r.ptr == At(b.size) && Sound(r.book) && Allocated(b, r.book, b.size, InPages(size))
            && OthersKept(b, r.book, b.size)
  {
    hide Alloc, Roomier, InPages, Sound, Allocated, OthersKept, RunLength;
    WholePages(size);
    var i, n := b.size, InPages(size);
    var dir := Roomier(b.dir, i + n);
    LongerSound(b, dir);
    MarkedBehind(b, dir, n);
  }

  /** A longer directory says the same. */
  lemma LongerSound(b: Book, dir: seq<Mark>)
    requires Sound(b) && b.dir <= dir && forall k :: |b.dir| <= k < |dir| ==> dir[k] == NOT_MINE
    ensures Sound(b.(dir := dir))
  {
    forall k | 0 <= k < |dir| && dir[k] == FOLLOW ensures k > 0 && (dir[k - 1] == FIRST || dir[k - 1] == FOLLOW) {
      assert dir[k] == b.dir[k];
    }
    forall k | 0 <= k < |dir| ensures dir[k] == NOT_MINE <==> k >= b.size {
      assert k < |b.dir| ==> dir[k] == b.dir[k];
    }
  }

  /** Marking an allocation behind the heap, which grows by it. */
  lemma MarkedBehind(b: Book, dir: seq<Mark>, n: nat)
    requires Sound(b) && Sound(b.(dir := dir)) && b.dir <= dir && n >= 1 && b.size + n < |dir|
    ensures var r := Book(b.free, Marked(dir, b.size, n), b.size + n);
            Sound(r) && Allocated(b, r, b.size, n) && OthersKept(b, r, b.size)
  {
    var i := b.size;
    MarkedContinues(dir, i, n);
    MarkedRun(dir, i, n);
    forall k | i <= k < i + n ensures !IsFree(b.free, At(k)) {
    }
    hide RunLength;
    forall x | 0 <= x < b.size && b.dir[x] == FIRST
      ensures Marked(dir, i, n)[x] == FIRST && RunLength(Marked(dir, i, n), x) == RunLength(b.dir, x)
    {
      RunEndsInside(b, x);
      SamePrefix(b.dir, dir, x);
      MarkedRuns(dir, i, n, x);
    }
  }

  lemma SamePrefix(dir: seq<Mark>, longer: seq<Mark>, x: nat)
    requires dir <= longer && x < |dir| && RunEnd(dir, x + 1) < |dir|
    ensures RunLength(longer, x) == RunLength(dir, x) && RunEnd(longer, x + 1) == RunEnd(dir, x + 1)
  {
    RunEndIs(longer, x + 1, RunEnd(dir, x + 1));
  }

  /** malloc_pages fails only when no free run is long enough and the heap cannot grow, and then
      nothing has changed. Otherwise it hands out pages that nobody used, marks them as one FIRST and
      its FOLLOWs, and changes no other entry and no other allocation. */
  lemma MallocPagesCorrect(b: Book, size: nat, grow: bool)
    requires Sound(b) && size > 0
    ensures var r := MallocPages(b, size, grow);
            && (r.ptr == 0 <==> !grow && forall i :: 0 <= i < |b.free| ==> b.free[i].size < PageRoundUp(size))
            && (r.ptr == 0 ==> r.book == b)
            && (r.ptr != 0 ==>
                  && r.ptr >= BASE && r.ptr == At(IndexOf(r.ptr)) && Sound(r.book)
                  && Allocated(b, r.book, IndexOf(r.ptr), InPages(size))
                  && OthersKept(b, r.book, IndexOf(r.ptr)))
  {
    AllocCorrect(b.free, size);
    AllocInside(b, size);
    if Alloc(b.free, size).addr != 0 {
      TakenFromRun(b, size);
    } else if grow {
      TakenFromNew(b, size);
      IndexAt(b.size);
    }
  }

  // ---------------------------------------------------------------- release

  /** free_pages releases exactly the pages of the allocation, which become one with the free runs
      beside them, and changes no other entry and no other allocation. */
  lemma FreePagesCorrect(b: Book, i: nat)
    requires Sound(b) && i < b.size && b.dir[i] == FIRST
    ensures var r, n := FreePages(b, i), RunLength(b.dir, i);
            && i + n <= b.size
            && Sound(r) && r.size == b.size && r.dir == Freed(b.dir, i, n)
            && OthersKept(b, r, i)
            && (forall x: nat :: IsFree(r.free, x) <==> IsFree(b.free, x) || At(i) <= x < At(i + n))
  {
    var n := RunLength(b.dir, i);
    var c := Chunk(At(i), n * L4_PAGESIZE);
    RunReleasable(b, i);
    ReleaseCorrect(b.free, c);
    var r := FreePages(b, i);
    assert At(i + n) == End(c);
    FreedAgrees(b, i, n, r.free);
    forall a | 0 <= a < b.size && b.dir[a] == FIRST && a != i
      ensures r.dir[a] == FIRST && RunLength(r.dir, a) == RunLength(b.dir, a)
    {
      FreedRuns(b, i, a);
    }
  }

  lemma FreedAgrees(b: Book, i: nat, n: nat, free: seq<Chunk>)
    requires Sound(b) && i < b.size && b.dir[i] == FIRST && n == RunLength(b.dir, i) && i + n <= b.size
    requires Tidy(free) && forall x: nat :: IsFree(free, x) <==> IsFree(b.free, x) || At(i) <= x < At(i + n)
    ensures Sound(Book(free, Freed(b.dir, i, n), b.size))
  {
    var dir := Freed(b.dir, i, n);
    forall k | 0 <= k < |dir| && dir[k] == FOLLOW ensures k > 0 && (dir[k - 1] == FIRST || dir[k - 1] == FOLLOW) {
      assert b.dir[k] == FOLLOW;
      assert k != i + n;
    }
  }

  lemma FreedRuns(b: Book, i: nat, a: nat)
    requires Sound(b) && i < b.size && b.dir[i] == FIRST && a < b.size && b.dir[a] == FIRST && a != i
    ensures var dir := Freed(b.dir, i, RunLength(b.dir, i));
            dir[a] == FIRST && RunLength(dir, a) == RunLength(b.dir, a)
  {
    RunEndsInside(b, a);
    if a < i {
      RunsDisjoint(b.dir, a, i);
    } else {
      RunsDisjoint(b.dir, i, a);
    }
    OtherRun(b.dir, Freed(b.dir, i, RunLength(b.dir, i)), a);
  }

  // ---------------------------------------------------------------- runs of calls

  datatype Request = Get(size: nat, grow: bool) | Put(page: nat)

  /** The book, and the pages that each live allocation was asked for. */
  datatype Account = Account(book: Book, live: map<nat, nat>)

  /** The live allocations are the FIRST entries, with the lengths that were asked for. */
  ghost predicate Tracks(acc: Account) {
    && (forall a: nat :: a in acc.live <==> a < acc.book.size && a < |acc.book.dir| && acc.book.dir[a] == FIRST)
    && (forall a: nat :: a in acc.live ==> RunLength(acc.book.dir, a) == acc.live[a])
  }

  ghost function Step(acc: Account, r: Request): Account
    requires Sound(acc.book) && Tracks(acc)
  {
    match r
    case Get(size, grow) =>
      if size == 0 then acc
      else
        MallocPagesCorrect(acc.book, size, grow);
        var g := MallocPages(acc.book, size, grow);
        if g.ptr == 0 then acc else Account(g.book, acc.live[IndexOf(g.ptr) := InPages(size)])
    case Put(page) =>
      if page in acc.live then Account(FreePages(acc.book, page), acc.live - {page}) else acc
  }

  lemma StepTracks(acc: Account, r: Request)
    requires Sound(acc.book) && Tracks(acc)
    ensures Sound(Step(acc, r).book) && Tracks(Step(acc, r))
  {
    match r
    case Get(size, grow) =>
      if size > 0 {
        MallocPagesCorrect(acc.book, size, grow);
        var g := MallocPages(acc.book, size, grow);
        if g.ptr != 0 {
          GotTracks(acc, g.book, IndexOf(g.ptr), InPages(size));
        }
      }
    case Put(page) =>
      if page in acc.live {
        FreePagesCorrect(acc.book, page);
        PutTracks(acc, page);
      }
  }

  lemma GotTracks(acc: Account, b: Book, i: nat, n: nat)
    requires Sound(acc.book) && Tracks(acc)
    requires Allocated(acc.book, b, i, n) && OthersKept(acc.book, b, i)
    ensures Tracks(Account(b, acc.live[i := n]))
  {
    var live := acc.live[i := n];
    forall a: nat | a < b.size && b.dir[a] == FIRST ensures a in live {
      if a != i {
        NewOnlyFirst(acc.book, b, i, n, a);
      }
    }
  }

  /** Inside a new allocation, and behind the old heap, there is no other FIRST. */
  lemma NewOnlyFirst(b: Book, b': Book, i: nat, n: nat, a: nat)
    requires Allocated(b, b', i, n) && b.size < |b.dir|
    requires a < b'.size && b'.dir[a] == FIRST && a != i
    ensures a < b.size && b.dir[a] == FIRST
  {
    assert forall k :: i < k < i + n ==> b'.dir[k] == FOLLOW;
  }

  lemma PutTracks(acc: Account, i: nat)
    requires Sound(acc.book) && Tracks(acc) && i in acc.live
    ensures Tracks(Account(FreePages(acc.book, i), acc.live - {i}))
  {
    hide RunLength, Sound, Freed;
    var b, n := acc.book, RunLength(acc.book.dir, i);
    var dir, live := Freed(b.dir, i, n), acc.live - {i};
    forall a: nat | a in live ensures dir[a] == FIRST && RunLength(dir, a) == live[a] {
      FreedRuns(b, i, a);
    }
    FreedFirsts(b.dir, i, n);
  }

  lemma FreedFirsts(dir: seq<Mark>, i: nat, n: nat)
    requires n >= 1 && i + n <= |dir|
    ensures forall a: nat :: a < |dir| && Freed(dir, i, n)[a] == FIRST ==> dir[a] == FIRST && a != i
    ensures Freed(dir, i, n)[i] != FIRST
  {
  }

  /** A heap of which all pages are free. */
  function Fresh(size: nat): Book
    requires size > 0
  {
    Book([Chunk(BASE, size * L4_PAGESIZE)], seq(size, _ => FREE) + [NOT_MINE], size)
  }

  lemma FreshSound(size: nat)
    requires size > 0
    ensures Sound(Fresh(size)) && Tracks(Account(Fresh(size), map[]))
  {
    var b := Fresh(size);
    assert forall i :: 0 <= i < size ==> b.dir[i] == FREE;
    assert b.free[0] == Chunk(BASE, size * L4_PAGESIZE);
    IndexAt(0);
    assert forall i :: 0 <= i < size ==> Within(b.free[0], At(i));
    forall x: nat | IsFree(b.free, x) ensures BASE <= x < At(size) {
      var i :| 0 <= i < |b.free| && Within(b.free[i], x);
    }
  }

  ghost function After(size: nat, run: seq<Request>): (acc: Account)
    requires size > 0
    ensures Sound(acc.book) && Tracks(acc)
  {
    if run == [] then
      FreshSound(size);
      Account(Fresh(size), map[])
    else
      var acc := After(size, run[..|run| - 1]);
      StepTracks(acc, run[|run| - 1]);
      Step(acc, run[|run| - 1])
  }

  /** Over every run of malloc_pages and free_pages: the free runs stay sorted, apart and never
      adjacent, they are what the directory calls free, and every live allocation has the pages it
      was asked for, which no other allocation shares. */
  lemma {:induction false} RunsKeepBooks(size: nat, run: seq<Request>)
    requires size > 0
    ensures var acc := After(size, run);
            && Sound(acc.book)
            && (forall a: nat :: a in acc.live ==>
                  a < |acc.book.dir| && acc.book.dir[a] == FIRST && RunLength(acc.book.dir, a) == acc.live[a])
            && (forall a: nat, a': nat :: a in acc.live && a' in acc.live && a < a' ==> a + acc.live[a] <= a')
  {
    var acc := After(size, run);
    forall a: nat, a': nat | a in acc.live && a' in acc.live && a < a' ensures a + acc.live[a] <= a' {
      RunsDisjoint(acc.book.dir, a, a');
    }
  }

  /** What one request got, freeing its pointer gives back: as many pages, whatever happened to
      other allocations in between. */
  lemma {:induction false} FreeingReleasesWhatWasTaken(size: nat, run: seq<Request>, more: seq<Request>, n: nat,
      grow: bool)
    requires size > 0 && n > 0 && MallocPages(After(size, run).book, n, grow).ptr != 0
    ensures MallocPages(After(size, run).book, n, grow).ptr >= BASE
    ensures var i := IndexOf(MallocPages(After(size, run).book, n, grow).ptr);
            Put(i) !in more ==>
              var acc := After(size, run + [Get(n, grow)] + more);
              i in acc.live && acc.live[i] == InPages(n) == RunLength(acc.book.dir, i)
    decreases |more|
  {
    hide Sound, Tracks, MallocPages, IndexOf, After, Step, RunLength, InPages;
    var acc := After(size, run);
    MallocPagesCorrect(acc.book, n, grow);
    var i := IndexOf(MallocPages(acc.book, n, grow).ptr);
    if more == [] {
      assert run + [Get(n, grow)] + more == run + [Get(n, grow)];
      AfterStep(size, run, Get(n, grow));
      JustGot(acc, n, grow);
    } else if Put(i) !in more {
      var m := |more| - 1;
      var earlier := run + [Get(n, grow)] + more[..m];
      assert run + [Get(n, grow)] + more == earlier + [more[m]];
      assert more[m] in more && Put(i) !in more[..m];
      FreeingReleasesWhatWasTaken(size, run, more[..m], n, grow);
      AfterStep(size, earlier, more[m]);
      OtherRequest(After(size, earlier), more[m], i);
    }
  }

  lemma AfterStep(size: nat, run: seq<Request>, r: Request)
    requires size > 0
    ensures After(size, run + [r]) == Step(After(size, run), r)
  {
    var whole := run + [r];
    assert whole[..|whole| - 1] == run && whole[|whole| - 1] == r;
  }

  lemma JustGot(acc: Account, n: nat, grow: bool)
    requires Sound(acc.book) && Tracks(acc) && n > 0 && MallocPages(acc.book, n, grow).ptr != 0
    ensures MallocPages(acc.book, n, grow).ptr >= BASE
    ensures var i, r := IndexOf(MallocPages(acc.book, n, grow).ptr), Step(acc, Get(n, grow));
            i in r.live && r.live[i] == InPages(n) && i < |r.book.dir| && RunLength(r.book.dir, i) == InPages(n)
  {
    MallocPagesCorrect(acc.book, n, grow);
  }

  /** A request other than its own Put leaves an allocation alone. */
  lemma OtherRequest(acc: Account, r: Request, i: nat)
    requires Sound(acc.book) && Tracks(acc) && i in acc.live && r != Put(i)
    ensures i in Step(acc, r).live && Step(acc, r).live[i] == acc.live[i]
    ensures i < |Step(acc, r).book.dir| && RunLength(Step(acc, r).book.dir, i) == acc.live[i]
  {
    hide Sound, MallocPages, FreePages, Allocated, OthersKept, RunLength, Freed, IndexOf, At;
    StepTracks(acc, r);
    match r
    case Get(size, grow) =>
      if size > 0 {
        MallocPagesCorrect(acc.book, size, grow);
        GotElsewhere(acc.book, MallocPages(acc.book, size, grow), InPages(size), i);
      }
    case Put(_) =>
  }

  lemma GotElsewhere(b: Book, g: Got, n: nat, i: nat)
    requires i < b.size && i < |b.dir| && b.dir[i] == FIRST
    requires g.ptr != 0 ==> g.ptr >= BASE && Allocated(b, g.book, IndexOf(g.ptr), n)
    ensures g.ptr != 0 ==> IndexOf(g.ptr) != i
  {
  }
}

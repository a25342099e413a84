/** The kernel's own heap to the letter of kernel/src/mm.c. */
module BucketHeapAsWritten {
  import opened Machine
  import opened BucketHeap

  /** (size_t)(1 << n). Shifting by 31 gives the smallest int, which is extended to 64 bits; shifting
      an int by 32 and more has no meaning in C. */
  function ShiftedOne(n: nat): nat
    requires n <= 31
  {
    if n <= 30 then Power(n) else WORD - 0x8000_0000
  }

  /** The last bucket for which the shift has a meaning. */
  const LASTSHIFT: nat := 28

  /** morecore for a bucket whose list is empty. */
  function GrowAsWritten(h: Heap, b: nat, limit: nat): Heap
    requires b <= LASTSHIFT && b < |h.free|
  {
    var sz := ShiftedOne(b + 3);
    var amt := if sz < L4_PAGESIZE then L4_PAGESIZE else (sz + L4_PAGESIZE) % WORD;
    var n := if sz < L4_PAGESIZE then amt / Power(b + 3) else 1;
    var brk := (h.brk + amt) % WORD;
    if brk > limit then h
    else
      var s := Cut(h.brk, sz, n);
      Heap(h.free[b := s], h.live, h.all + NewBlocks(s, b), brk)
  }

  /** The request needs no shift, or one that has a meaning. */
  predicate Shiftable(h: Heap, nbytes: nat)
    requires |h.free| == NBUCKETS
  {
    var b := FirstFit(nbytes, 0);
    b <= LASTSHIFT || b > LASTBUCKET || h.free[b] != []
  }

  /** _kmalloc */
  function MallocAsWritten(h: Heap, nbytes: nat, limit: nat): Allocation
    requires |h.free| == NBUCKETS && Shiftable(h, nbytes)
  {
    var b := FirstFit(nbytes, 0);
    if b > LASTBUCKET then Allocation(0, h)
    else if h.free[b] == [] then Pop(GrowAsWritten(h, b, limit), b)
    else Pop(h, b)
  }

  // ---------------------------------------------------------------- when it does what is meant

  lemma ShiftIsSize(b: nat)
    requires b <= LASTSHIFT
    ensures b < LASTSHIFT ==> ShiftedOne(b + 3) == Size(b) <= 0x4000_0000
    ensures b == LASTSHIFT ==> ShiftedOne(b + 3) == 0xFFFF_FFFF_8000_0000 && Size(b) == 0x8000_0000
  {
    LargePowers();
    if b < LASTSHIFT {
      PowerMonotone(b + 3, 30);
    }
  }

  /** What morecore does for each bucket. */
  lemma GrowForms(h: Heap, b: nat, limit: nat)
    requires b <= LASTSHIFT && b < |h.free| && h.brk <= limit < WORD
    ensures b < LASTSHIFT && h.brk + Amount(b) < WORD ==> GrowAsWritten(h, b, limit) == Grow(h, b, limit)
    ensures b < LASTSHIFT && h.brk + Amount(b) >= WORD ==>
              GrowAsWritten(h, b, limit).brk == h.brk + Amount(b) - WORD < h.brk
    ensures b == LASTSHIFT && h.brk >= 0x7FFF_F000 ==>
              && GrowAsWritten(h, b, limit).brk == h.brk - 0x7FFF_F000
              && GrowAsWritten(h, b, limit).free == h.free[b := [h.brk]]
              && GrowAsWritten(h, b, limit).all == h.all + NewBlocks([h.brk], b)
    ensures b == LASTSHIFT && h.brk < 0x7FFF_F000 && limit < h.brk + (WORD - 0x7FFF_F000) ==>
              GrowAsWritten(h, b, limit) == h
    ensures b == LASTSHIFT && h.brk < 0x7FFF_F000 && limit >= h.brk + (WORD - 0x7FFF_F000) ==>
              GrowAsWritten(h, b, limit).brk == h.brk + (WORD - 0x7FFF_F000)
  {
    hide ShiftedOne, Size, Power;
    ShiftIsSize(b);
    SmallBuckets(b);
    PageShift(b);
    var sz := ShiftedOne(b + 3);
    Wrapped(sz + L4_PAGESIZE);
    Wrapped(h.brk + if sz < L4_PAGESIZE then L4_PAGESIZE else (sz + L4_PAGESIZE) % WORD);
    assert Cut(h.brk, sz, 1) == [h.brk] + Cut(h.brk + sz, sz, 0) == [h.brk];
  }

  lemma PageShift(b: nat)
    ensures Size(b) < L4_PAGESIZE ==> L4_PAGESIZE / Power(b + 3) == Pieces(b)
  {
  }

  /** morecore does what is meant exactly when the block has at most 2^30 bytes and the sum is less than
      2^64; or when it has 2^31 bytes, the break is so low that the sum wraps round to more than the
      limit, and there is no room for the block anyway. */
  lemma GrowAgrees(h: Heap, b: nat, limit: nat)
    requires b <= LASTSHIFT && b < |h.free| && h.brk <= limit < WORD
    ensures GrowAsWritten(h, b, limit) == Grow(h, b, limit) <==>
            if b < LASTSHIFT then h.brk + Amount(b) < WORD
            else h.brk < 0x7FFF_F000 && limit < h.brk + 0x8000_1000
  {
    GrowForms(h, b, limit);
    ShiftIsSize(b);
    assert Amount(LASTSHIFT) == 0x8000_1000 by {
      ShiftIsSize(LASTSHIFT);
    }
  }

  /** The largest request whose block has at most 2^30 bytes and a page. */
  const LARGEST: nat := 0x4000_0FF8

  lemma LargestRequest(nbytes: nat)
    ensures FirstFit(nbytes, 0) < LASTSHIFT <==> nbytes <= LARGEST
  {
    LargePowers();
    SmallBuckets(27);
    assert BlockSize(27) == 0x4000_1000;
    var b := FirstFit(nbytes, 0);
    if b < LASTSHIFT {
      BlockSizeMonotone(b, 27);
    }
  }

  /** Where the kernel puts its heap: above the first 2 GB, and not at the end of the address space. */
  predicate HighRegion(base: nat, limit: nat) {
    0x7FFF_F000 <= base <= limit && limit + 0x4000_1000 < WORD
  }

  /** There _kmalloc does what is meant exactly when the request is no larger than LARGEST, or the free
      list for it is not empty, or it is too large to be a block at all. */
  lemma MallocAgrees(h: Heap, nbytes: nat, base: nat, limit: nat)
    requires Sound(h, base, limit) && HighRegion(base, limit)
    ensures Shiftable(h, nbytes) && MallocAsWritten(h, nbytes, limit) == Malloc(h, nbytes, limit) <==>
            nbytes <= LARGEST || FirstFit(nbytes, 0) > LASTBUCKET || h.free[FirstFit(nbytes, 0)] != []
  {
    var b := FirstFit(nbytes, 0);
    LargestRequest(nbytes);
    if b <= LASTSHIFT && h.free[b] == [] {
      GrowAgrees(h, b, limit);
      GrowForms(h, b, limit);
      ShiftIsSize(b);
      SmallBuckets(b);
    }
  }

  /** For the next larger requests it goes wrong in every sound heap that has no such block free: it
      hands out a block that is not below the break, and moves the break down by almost 2 GB. */
  lemma BreakDrops(h: Heap, nbytes: nat, base: nat, limit: nat, base': nat, limit': nat)
    requires Sound(h, base, limit) && limit < WORD && 0x7FFF_F000 <= h.brk
    requires FirstFit(nbytes, 0) == LASTSHIFT && h.free[LASTSHIFT] == []
    ensures var r := MallocAsWritten(h, nbytes, limit);
            r.ptr == h.brk + OVERHEAD && r.heap.brk == h.brk - 0x7FFF_F000 && !Sound(r.heap, base', limit')
  {
    GrowForms(h, LASTSHIFT, limit);
    var r := MallocAsWritten(h, nbytes, limit);
    assert h.brk in r.heap.all && r.heap.all[h.brk] == LASTSHIFT;
  }

  /** Which the kernel's heap of 64 MB allows: its first request for 2^30 + 4089 bytes should fail. */
  lemma BreakDropsExample(h: Heap)
    requires h == New(0x6_FC00_1000)
    ensures Shiftable(h, 0x4000_0FF9)
    ensures var r := MallocAsWritten(h, 0x4000_0FF9, 0x7_0000_0000);
            r.ptr == 0x6_FC00_1008 && r.heap.brk == 0x6_7C00_2000
    ensures Malloc(h, 0x4000_0FF9, 0x7_0000_0000).ptr == 0
  {
    LargePowers();
    LargestRequest(0x4000_0FF9);
    SmallBuckets(LASTSHIFT);
    assert BlockSize(LASTSHIFT) == 0x8000_1000;
    assert FirstFit(0x4000_0FF9, 0) == LASTSHIFT;
    GrowForms(h, LASTSHIFT, 0x7_0000_0000);
  }

  // ---------------------------------------------------------------- runs

  /** No request is larger than LARGEST. */
  predicate Modest(run: seq<Request>) {
    forall i :: 0 <= i < |run| && run[i].Take? ==> run[i].nbytes <= LARGEST
  }

  /** A run of the code as it stands. */
  ghost function AfterAsWritten(run: seq<Request>, base: nat, limit: nat): (h: Heap)
    requires Modest(run)
    ensures |h.free| == NBUCKETS
  {
    if run == [] then New(base)
    else
      var h := AfterAsWritten(run[..|run| - 1], base, limit);
      match run[|run| - 1]
      case Take(nbytes) =>
        LargestRequest(nbytes);
        MallocAsWritten(h, nbytes, limit).heap
      case Give(ptr) => if ptr >= OVERHEAD && ptr - OVERHEAD in h.live then Free(h, ptr) else h
  }

  /** Over every run of requests up to LARGEST the code as it stands does what is meant: all blocks, free
      or live, are disjoint and below the break, and every block is live or on its list. */
  lemma {:induction false} RunsAsWrittenSound(run: seq<Request>, base: nat, limit: nat)
    requires Modest(run) && 0 < base <= limit && limit + 0x4000_1000 < WORD
    ensures AfterAsWritten(run, base, limit) == After(run, base, limit)
    ensures Sound(AfterAsWritten(run, base, limit), base, limit)
  {
    if run != [] {
      var earlier := run[..|run| - 1];
      RunsAsWrittenSound(earlier, base, limit);
      RunsSound(run, base, limit);
      if run[|run| - 1].Take? {
        MallocModest(After(earlier, base, limit), run[|run| - 1].nbytes, base, limit);
      }
    }
  }

  /** After any such run the next request is served as meant exactly when it is one of those, too, or so
      large that no block could hold it. */
  lemma NextAgrees(run: seq<Request>, nbytes: nat, base: nat, limit: nat)
    requires Modest(run) && HighRegion(base, limit)
    ensures var h := AfterAsWritten(run, base, limit);
            Shiftable(h, nbytes) && MallocAsWritten(h, nbytes, limit) == Malloc(h, nbytes, limit) <==>
            nbytes <= LARGEST || nbytes > 0x8000_0000_0000_0FF8
  {
    var h, b := AfterAsWritten(run, base, limit), FirstFit(nbytes, 0);
    RunsAsWrittenSound(run, base, limit);
    MallocAgrees(h, nbytes, base, limit);
    LargestRequest(nbytes);
    LargestBlock(nbytes);
    if LASTSHIFT <= b <= LASTBUCKET && h.free[b] != [] {
      OnlySmallBlocks(run, base, limit, h.free[b][0]);
    }
  }

  lemma LargestBlock(nbytes: nat)
    ensures FirstFit(nbytes, 0) > LASTBUCKET <==> nbytes > 0x8000_0000_0000_0FF8
  {
    LargePowers();
    var b := FirstFit(nbytes, 0);
    SmallBuckets(LASTBUCKET);
    assert BlockSize(LASTBUCKET) == 0x8000_0000_0000_1000;
    if b <= LASTBUCKET {
      BlockSizeMonotone(b, LASTBUCKET);
    }
  }

  /** Such runs never cut a block for a larger bucket. */
  lemma {:induction false} OnlySmallBlocks(run: seq<Request>, base: nat, limit: nat, a: nat)
    requires Modest(run) && a in After(run, base, limit).all
    ensures After(run, base, limit).all[a] < LASTSHIFT
  {
    if run != [] {
      var earlier := run[..|run| - 1];
      if a in After(earlier, base, limit).all {
        OnlySmallBlocks(earlier, base, limit, a);
      }
      if run[|run| - 1].Take? {
        LargestRequest(run[|run| - 1].nbytes);
      }
    }
  }

  lemma MallocModest(h: Heap, nbytes: nat, base: nat, limit: nat)
    requires Sound(h, base, limit) && limit + 0x4000_1000 < WORD && nbytes <= LARGEST
    ensures Shiftable(h, nbytes) && MallocAsWritten(h, nbytes, limit) == Malloc(h, nbytes, limit)
  {
    LargestRequest(nbytes);
    var b := FirstFit(nbytes, 0);
    if h.free[b] == [] {
      ShiftIsSize(b);
      GrowForms(h, b, limit);
    }
  }
}

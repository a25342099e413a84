/** The kernel's own heap of kernel/src/mm.c on its memory: free blocks are chained through their first
    word, which in a live block holds the number of its bucket, and the break is a field. */
module KernelHeaps {
  import opened Machine
  import opened Sequences
  import opened BucketHeap
  import opened BucketHeapAsWritten

  /** union overhead */
  datatype Overhead = Next(next: nat) | InUse(index: nat)

  /** The list is chained from the head on; address 0 is NULL. */
  ghost predicate Chain(mem: map<nat, Overhead>, head: nat, list: seq<nat>)
    decreases |list|
  {
    if list == [] then head == 0
    else head == list[0] && head > 0 && head in mem && mem[head].Next? && Chain(mem, mem[head].next, list[1..])
  }

  ghost predicate Represents(nextf: seq<nat>, mem: map<nat, Overhead>, h: Heap) {
    && |nextf| == |h.free| == NBUCKETS
    && (forall b :: 0 <= b < NBUCKETS ==> Chain(mem, nextf[b], h.free[b]))
    && (forall a :: a in h.live ==> a in mem && mem[a] == InUse(h.live[a]))
  }

  lemma {:induction false} ChainFrame(mem: map<nat, Overhead>, mem': map<nat, Overhead>, head: nat, list: seq<nat>)
    requires Chain(mem, head, list)
    requires forall a :: a in list && a in mem ==> a in mem' && mem'[a] == mem[a]
    ensures Chain(mem', head, list)
    decreases |list|
  {
    if list != [] {
      ChainFrame(mem, mem', mem[head].next, list[1..]);
    }
  }

  /** Taking the first block off a chain. */
  lemma PopRepresents(nextf: seq<nat>, mem: map<nat, Overhead>, h: Heap, b: nat)
    requires Represents(nextf, mem, h) && Filed(h) && b < NBUCKETS && h.free[b] != []
    ensures var a := nextf[b];
            && a == h.free[b][0] && a in mem && mem[a].Next?
            && Represents(nextf[b := mem[a].next], mem[a := InUse(b)], Pop(h, b).heap)
  {
    var a := nextf[b];
    assert Chain(mem, a, h.free[b]);
    var mem', r := mem[a := InUse(b)], Pop(h, b).heap;
    forall c | 0 <= c < NBUCKETS ensures Chain(mem', nextf[b := mem[a].next][c], r.free[c]) {
      assert Chain(mem, nextf[c], h.free[c]);
      if c == b {
        assert forall i :: 0 < i < |h.free[b]| ==> h.free[b][i] != a;
        ChainFrame(mem, mem', mem[a].next, h.free[b][1..]);
      } else {
        NotOnList(h, a, b, c);
        ChainFrame(mem, mem', nextf[c], h.free[c]);
      }
    }
  }

  lemma NotOnList(h: Heap, a: nat, b: nat, c: nat)
    requires Filed(h) && b < NBUCKETS && c < NBUCKETS && c != b
    requires a in h.all && h.all[a] == b
    ensures a !in h.free[c]
  {
  }

  /** Putting a live block in front of a chain. */
  lemma PushRepresents(nextf: seq<nat>, mem: map<nat, Overhead>, h: Heap, a: nat)
    requires Represents(nextf, mem, h) && Filed(h) && a in h.live && a > 0 && h.live[a] < NBUCKETS
    ensures var b := h.live[a];
            && a in mem && mem[a] == InUse(b)
            && Represents(nextf[b := a], mem[a := Next(nextf[b])], Free(h, a + OVERHEAD))
  {
    var b := h.live[a];
    var mem', r := mem[a := Next(nextf[b])], Free(h, a + OVERHEAD);
    forall c | 0 <= c < NBUCKETS ensures Chain(mem', nextf[b := a][c], r.free[c]) {
      assert Chain(mem, nextf[c], h.free[c]);
      LiveNotOnList(h, a, c);
      ChainFrame(mem, mem', nextf[c], h.free[c]);
      if c == b {
        assert r.free[b][1..] == h.free[b];
      }
    }
  }

  lemma LiveNotOnList(h: Heap, a: nat, c: nat)
    requires Filed(h) && a in h.live && c < NBUCKETS
    ensures a !in h.free[c]
  {
  }

  /** The blocks are chained in order. */
  ghost predicate Linked(mem: map<nat, Overhead>, s: seq<nat>) {
    forall i :: 0 <= i < |s| ==> s[i] > 0 && s[i] in mem && mem[s[i]] == Next(if i + 1 < |s| then s[i + 1] else 0)
  }

  lemma {:induction false} LinkedIsChain(mem: map<nat, Overhead>, s: seq<nat>, i: nat)
    requires Linked(mem, s) && i <= |s|
    ensures Chain(mem, if i < |s| then s[i] else 0, s[i..])
    decreases |s| - i
  {
    if i < |s| {
      LinkedIsChain(mem, s, i + 1);
      assert s[i..][1..] == s[i + 1..];
    }
  }

  /** Chaining new blocks onto an empty list. */
  lemma GrowRepresents(nextf: seq<nat>, mem: map<nat, Overhead>, h: Heap, b: nat, s: seq<nat>,
                       mem': map<nat, Overhead>, r: Heap)
    requires Represents(nextf, mem, h) && Filed(h) && b < NBUCKETS && h.free[b] == [] && s != []
    requires Linked(mem', s) && forall i :: 0 <= i < |s| ==> s[i] !in h.all
    requires forall a :: a in mem && a !in s ==> a in mem' && mem'[a] == mem[a]
    requires r.free == h.free[b := s] && r.live == h.live
    ensures Represents(nextf[b := s[0]], mem', r)
  {
    LinkedIsChain(mem', s, 0);
    assert s[0..] == s;
    forall c | 0 <= c < NBUCKETS ensures Chain(mem', nextf[b := s[0]][c], r.free[c]) {
      if c != b {
        assert Chain(mem, nextf[c], h.free[c]);
        forall a | a in h.free[c] ensures a !in s {
          var i :| 0 <= i < |h.free[c]| && h.free[c][i] == a;
        }
        ChainFrame(mem, mem', nextf[c], h.free[c]);
      }
    }
  }

  // ---------------------------------------------------------------- the bucket of a request

  lemma {:induction false} SkipSmall(nbytes: nat, b: nat)
    requires nbytes > L4_PAGESIZE - OVERHEAD && b <= PAGEBUCKET
    ensures FirstFit(nbytes, b) == FirstFit(nbytes, PAGEBUCKET)
    decreases PAGEBUCKET - b
  {
    if b < PAGEBUCKET {
      SmallBuckets(b);
      SkipSmall(nbytes, b + 1);
    }
  }

  lemma LastSize()
    ensures Size(LASTBUCKET) == 0x8000_0000_0000_0000
  {
    LargePowers();
  }

  /** Doubling gives 0 in 64 bits exactly at the last bucket. */
  lemma Overflow(b: nat)
    requires b <= LASTBUCKET
    ensures 2 * Size(b) == 0x1_0000_0000_0000_0000 <==> b == LASTBUCKET
  {
    LastSize();
    if b < LASTBUCKET {
      SizeMonotone(b + 1, LASTBUCKET);
    }
  }

  lemma Doubled(b: nat, nbytes: nat)
    ensures Size(b + 1) == 2 * Size(b)
    ensures FirstFit(nbytes, LASTBUCKET + 1) == LASTBUCKET + 1
  {
  }

  /** What the comparison in the search for a bucket means. */
  lemma Climb(nbytes: nat, b: nat, small: bool)
    requires b <= LASTBUCKET && small == (nbytes <= L4_PAGESIZE - OVERHEAD)
    requires if small then b <= PAGEBUCKET else b >= PAGEBUCKET
    ensures var room := Size(b) + if small then 0 else L4_PAGESIZE;
            && (nbytes + OVERHEAD > room ==>
                  FirstFit(nbytes, b) == FirstFit(nbytes, b + 1) && (small ==> b < PAGEBUCKET))
            && (nbytes + OVERHEAD <= room ==> FirstFit(nbytes, b) == b)
  {
    SizeTable();
    SmallBuckets(b);
  }

  class KernelHeap {
    const base: nat
    const limit: nat  // end of the heap's object
    const heap_nextf: array<nat>
    var hs_current_brk: nat
    var memory: map<nat, Overhead>
    ghost var value: Heap

    /** The memory holds the lists of the value. */
    ghost predicate Represented()
      reads this, heap_nextf
    {
      && heap_nextf.Length == NBUCKETS && limit < WORD
      && value.brk == hs_current_brk && Filed(value)
      && Represents(heap_nextf[..], memory, value)
    }

    ghost predicate Valid()
      reads this, heap_nextf
    {
      Represented() && Sound(value, base, limit)
    }

    /** _libmach_heap_new, from the first page behind the heap's own data */
    constructor (base: nat, limit: nat)
      requires 0 < base <= limit < WORD
      ensures Valid() && value == New(base) && this.base == base && this.limit == limit && fresh(heap_nextf)
    {
      this.base, this.limit := base, limit;
      heap_nextf := new nat[NBUCKETS](_ => 0);
      hs_current_brk := base;
      memory := map[];
      value := New(base);
    }

    /** _libmach_heap_space_sbrk. The sum is one of 64 bits. */
    method sbrk(incr: nat) returns (ok: bool, old_brk: nat)
      modifies this`hs_current_brk
      ensures old_brk == old(hs_current_brk)
      ensures ok <==> (old_brk + incr) % WORD <= limit
      ensures hs_current_brk == if ok then (old_brk + incr) % WORD else old_brk
    {
      old_brk := hs_current_brk;
      ok := (hs_current_brk + incr) % WORD <= limit;
      if ok {
        hs_current_brk := (hs_current_brk + incr) % WORD;
      }
    }

    /** The search for a bucket in _kmalloc. The request is compared with the bytes behind the header:
        of the block itself for sizes below a page, of the block and the extra page otherwise. */
    method FindBucket(nbytes: nat) returns (bucket: nat)
      ensures bucket == FirstFit(nbytes, 0)
    {
      hide FirstFit, Size;
      SizeTable();
      var n: int := L4_PAGESIZE - OVERHEAD;
      var amt;
      if nbytes <= n {
        amt, bucket, n := 8, 0, 0 - OVERHEAD as int;
      } else {
        SkipSmall(nbytes, 0);
        amt, bucket := L4_PAGESIZE, PAGEBUCKET;
      }
      ghost var small := nbytes <= L4_PAGESIZE - OVERHEAD;
      Climb(nbytes, bucket, small);
      while nbytes > amt + n
        invariant bucket <= LASTBUCKET && amt == Size(bucket) && FirstFit(nbytes, 0) == FirstFit(nbytes, bucket)
        invariant nbytes > amt + n ==>
                    FirstFit(nbytes, bucket) == FirstFit(nbytes, bucket + 1) && (small ==> bucket < PAGEBUCKET)
        invariant nbytes <= amt + n ==> FirstFit(nbytes, bucket) == bucket
        invariant if small then n + OVERHEAD == 0 && bucket <= PAGEBUCKET
                  else n == L4_PAGESIZE - OVERHEAD && bucket >= PAGEBUCKET
        decreases LASTBUCKET - bucket
      {
        Overflow(bucket);
        Doubled(bucket, nbytes);
        amt := amt * 2;
        if amt == 0x1_0000_0000_0000_0000 {
          return LASTBUCKET + 1;
        }
        bucket := bucket + 1;
        Climb(nbytes, bucket, small);
      }
    }

    /** morecore */
    method morecore(bucket: nat)
      requires Valid() && bucket <= LASTSHIFT && value.free[bucket] == []
      modifies this, heap_nextf
      ensures Represented() && value == GrowAsWritten(old(value), bucket, limit)
    {
      hide Sound, Filed, Represents, Cut, Distinct;
      var sz := ShiftedOne(bucket + 3);
      NewStretch(value, base, limit, bucket);
      var amt, nblks := L4_PAGESIZE, 1;
      if sz < L4_PAGESIZE {
        nblks := amt / Power(bucket + 3);
      } else {
        amt := (sz + L4_PAGESIZE) % WORD;
      }
      ghost var r, s := GrowAsWritten(value, bucket, limit), Cut(hs_current_brk, sz, nblks);
      var ok, op := sbrk(amt);
      if ok {
        AddBlocks(bucket, op, sz, nblks, s, r);
      }
    }

    /** The new stretch goes onto the list of the bucket. */
    method AddBlocks(bucket: nat, op: nat, sz: nat, nblks: nat, ghost s: seq<nat>, ghost r: Heap)
      requires heap_nextf.Length == NBUCKETS && limit < WORD && Represents(heap_nextf[..], memory, value) &&
               Filed(value)
      requires bucket < NBUCKETS && value.free[bucket] == []
      requires s == Cut(op, sz, nblks) && op > 0 && nblks >= 1
      requires forall i, j :: 0 <= i < j < |s| ==> s[i] < s[j]
      requires forall i :: 0 <= i < |s| ==> s[i] !in value.all
      requires Filed(r) && r.brk == hs_current_brk && r.free == value.free[bucket := s] && r.live == value.live
      modifies this`memory, this`value, heap_nextf
      ensures Represented() && value == r
    {
      hide Cut, Represents, Distinct, Filed, Linked;
      ghost var h, mem, nextf := value, memory, heap_nextf[..];
      FirstOfCut(op, sz, nblks);
      var linked := LinkUp(memory, op, sz, nblks, s);
      GrowRepresents(nextf, mem, h, bucket, s, linked, r);
      heap_nextf[bucket] := op;
      memory := linked;
      value := r;
      assert heap_nextf[..] == nextf[bucket := s[0]];
    }

    /** _kmalloc; 0 is failure. Up to LARGEST it does what is meant. */
    method kmalloc(nbytes: nat) returns (ptr: nat)
      requires Valid() && Shiftable(value, nbytes)
      modifies this, heap_nextf
      ensures Represented()
      ensures Allocation(ptr, value) == MallocAsWritten(old(value), nbytes, limit)
      ensures nbytes <= LARGEST && limit + 0x4000_1000 < WORD ==>
                Valid() && Allocation(ptr, value) == Malloc(old(value), nbytes, limit)
    {
      hide Sound, Filed, Represents, GrowAsWritten, FirstFit, Malloc, Pop;
      ghost var h := value;
      if nbytes <= LARGEST && limit + 0x4000_1000 < WORD {
        ModestStep(h, nbytes, base, limit);
      }
      var bucket := FindBucket(nbytes);
      if bucket > LASTBUCKET {
        return 0;
      }
      HeadOfList(heap_nextf[..], memory, value, bucket);
      if heap_nextf[bucket] == 0 {
        morecore(bucket);
        HeadOfList(heap_nextf[..], memory, value, bucket);
        if heap_nextf[bucket] == 0 {
          PopEmpty(value, bucket);
          return 0;
        }
      }
      ptr := TakeFirst(bucket);
    }

    /** The removal from the list in _kmalloc. */
    method TakeFirst(bucket: nat) returns (ptr: nat)
      requires Represented() && bucket < NBUCKETS && value.free[bucket] != []
      modifies this, heap_nextf
      ensures Represented() && old(|value.free|) == NBUCKETS
      ensures Allocation(ptr, value) == Pop(old(value), bucket)
    {
      hide Represents, Distinct;
      PopFiled(value, bucket);
      PopRepresents(heap_nextf[..], memory, value, bucket);
      var op := heap_nextf[bucket];
      heap_nextf[bucket] := memory[op].next;
      memory := memory[op := InUse(bucket)];
      value := Pop(value, bucket).heap;
      ptr := op + OVERHEAD;
    }

    /** _kfree of a pointer that is in use. */
    method kfree(ptr: nat)
      requires Valid() && ptr > OVERHEAD && ptr - OVERHEAD in value.live
      modifies this, heap_nextf
      ensures Valid() && value == Free(old(value), ptr)
    {
      var op := ptr - OVERHEAD;
      hide Represents, Free, Placed;
      FreeCorrect(value, ptr, base, limit);
      PushRepresents(heap_nextf[..], memory, value, op);
      var size := memory[op].index;
      memory := memory[op := Next(heap_nextf[size])];
      heap_nextf[size] := op;
      value := Free(value, ptr);
    }
  }

  /** The list of a bucket is empty when its head is 0. */
  lemma HeadOfList(nextf: seq<nat>, mem: map<nat, Overhead>, h: Heap, b: nat)
    requires Represents(nextf, mem, h) && b < NBUCKETS
    ensures |nextf| == |h.free| == NBUCKETS && (nextf[b] == 0 <==> h.free[b] == [])
  {
    assert Chain(mem, nextf[b], h.free[b]);
  }

  lemma PopEmpty(h: Heap, b: nat)
    requires b < |h.free| && h.free[b] == []
    ensures Pop(h, b) == Allocation(0, h)
  {
  }

  lemma ModestStep(h: Heap, nbytes: nat, base: nat, limit: nat)
    requires Sound(h, base, limit) && nbytes <= LARGEST && limit + 0x4000_1000 < WORD
    ensures |h.free| == NBUCKETS && Shiftable(h, nbytes)
    ensures MallocAsWritten(h, nbytes, limit) == Malloc(h, nbytes, limit)
    ensures Sound(Malloc(h, nbytes, limit).heap, base, limit)
  {
    MallocModest(h, nbytes, base, limit);
    MallocCorrect(h, nbytes, base, limit);
  }

  /** What cutting a new stretch gives, even when the break wraps round. */
  lemma NewStretch(h: Heap, base: nat, limit: nat, b: nat)
    requires Sound(h, base, limit) && limit < WORD && b <= LASTSHIFT && h.free[b] == []
    ensures |h.free| == NBUCKETS && 0 < h.brk < WORD
    ensures var sz := ShiftedOne(b + 3);
            var n := if sz < L4_PAGESIZE then L4_PAGESIZE / Power(b + 3) else 1;
            var s, r := Cut(h.brk, sz, n), GrowAsWritten(h, b, limit);
            && sz > 0 && n >= 1
            && (r == h || (Filed(r) && r.free == h.free[b := s] && r.live == h.live))
            && (forall i, j :: 0 <= i < j < |s| ==> s[i] < s[j])
            && (forall i :: 0 <= i < |s| ==> s[i] !in h.all)
  {
    hide Placed, Cut, Size, Power, ShiftedOne, Distinct;
    var sz := ShiftedOne(b + 3);
    ShiftIsSize(b);
    PageShift(b);
    PiecesFill(b);
    SmallBuckets(b);
    BreakAbove(h, base);
    var n := if sz < L4_PAGESIZE then L4_PAGESIZE / Power(b + 3) else 1;
    var s := Cut(h.brk, sz, n);
    StretchIsNew(h, base, sz, n, s);
    if (h.brk + (if sz < L4_PAGESIZE then L4_PAGESIZE else (sz + L4_PAGESIZE) % WORD)) % WORD <= limit {
      GrowFiled(h, b, s, GrowAsWritten(h, b, limit).brk);
    }
  }

  lemma BreakAbove(h: Heap, base: nat)
    requires Placed(h.all, base, h.brk)
    ensures h.brk > 0
  {
  }

  lemma StretchIsNew(h: Heap, base: nat, sz: nat, n: nat, s: seq<nat>)
    requires Placed(h.all, base, h.brk) && sz > 0 && s == Cut(h.brk, sz, n)
    ensures forall i, j :: 0 <= i < j < |s| ==> s[i] < s[j]
    ensures forall i :: 0 <= i < |s| ==> s[i] !in h.all
    ensures Distinct(s)
  {
    forall i, j | 0 <= i < j < n ensures s[i] < s[j] {
      CutAt(h.brk, sz, n, i);
      CutAt(h.brk, sz, n, j);
      StepsApart(i, j, sz);
    }
    forall i | 0 <= i < n ensures s[i] !in h.all {
      CutAt(h.brk, sz, n, i);
      assert s[i] >= h.brk;
    }
  }

  lemma FirstOfCut(start: nat, sz: nat, n: nat)
    requires n >= 1
    ensures Cut(start, sz, n)[0] == start
  {
  }

  lemma CutNext(start: nat, sz: nat, n: nat, i: nat)
    requires i + 1 < n
    ensures Cut(start, sz, n)[i + 1] == Cut(start, sz, n)[i] + sz
  {
    CutAt(start, sz, n, i);
    CutAt(start, sz, n, i + 1);
    assert (i + 1) * sz == i * sz + sz;
  }

  /** The loop of morecore. */
  method LinkUp(memory: map<nat, Overhead>, start: nat, sz: nat, n: nat, ghost s: seq<nat>)
    returns (mem: map<nat, Overhead>)
    requires n >= 1 && start > 0 && s == Cut(start, sz, n)
    requires forall i, j :: 0 <= i < j < |s| ==> s[i] < s[j]
    ensures Linked(mem, s)
    ensures forall a :: a in memory && a !in s ==> a in mem && mem[a] == memory[a]
  {
    mem := memory;
    var op, nblks := start, n;
    ghost var i := 0;
    CutAt(start, sz, n, 0);
    hide Cut;
    while nblks > 1
      invariant 1 <= nblks == n - i && op == s[i]
      invariant forall k :: 0 <= k < i ==> s[k] in mem && mem[s[k]] == Next(s[k + 1])
      invariant forall a :: a in memory && a !in s ==> a in mem && mem[a] == memory[a]
    {
      CutNext(start, sz, n, i);
      var next := op + sz;
      mem := mem[op := Next(next)];
      op, nblks, i := next, nblks - 1, i + 1;
    }
    mem := mem[op := Next(0)];
    assert forall k :: 0 <= k < n ==> s[0] <= s[k];
  }
}

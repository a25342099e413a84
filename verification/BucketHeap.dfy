/** The kernel's own heap in kernel/src/mm.c as it is meant, on numbers of any size. */
module BucketHeap {
  import opened Machine
  import opened Sequences

  const NBUCKETS: nat := 80
  const PAGEBUCKET: nat := 9
  const OVERHEAD: nat := 8

  /** The bytes that the blocks of a bucket are meant to have. */
  function Size(b: nat): (s: nat)
    ensures s >= 8
  {
    SizeAtLeastEight(b);
    Power(b + 3)
  }

  lemma SizeAtLeastEight(b: nat)
    ensures Power(b + 3) >= 8
  {
    SmallPowers();
    PowerMonotone(3, b + 3);
  }

  /** The bytes of a block: morecore takes a page more for the sizes from a page on. */
  function BlockSize(b: nat): nat {
    if Size(b) < L4_PAGESIZE then Size(b) else Size(b) + L4_PAGESIZE
  }

  lemma SizeTable()
    ensures Size(0) == 8 && Size(1) == 16 && Size(2) == 32 && Size(3) == 64 && Size(4) == 128
    ensures Size(5) == 256 && Size(6) == 512 && Size(7) == 1024 && Size(8) == 2048 && Size(9) == 4096
  {
    SmallPowers();
  }

  lemma SizeMonotone(a: nat, b: nat)
    requires a <= b
    ensures Size(a) <= Size(b)
  {
    PowerMonotone(a + 3, b + 3);
  }

  /** The sizes below a page are those of the buckets below PAGEBUCKET. */
  lemma SmallBuckets(b: nat)
    ensures Size(b) < L4_PAGESIZE <==> b < PAGEBUCKET
  {
    SizeTable();
    if b < PAGEBUCKET {
      SizeMonotone(b, 8);
    } else {
      SizeMonotone(9, b);
    }
  }

  lemma BlockSizeMonotone(a: nat, b: nat)
    requires a <= b
    ensures BlockSize(a) <= BlockSize(b)
  {
    SizeMonotone(a, b);
  }

  /** The last bucket: doubling 1 << 63 once more gives 0. */
  const LASTBUCKET: nat := 60

  /** The first bucket from b on whose blocks have room for the header and the bytes. */
  function FirstFit(nbytes: nat, b: nat): (r: nat)
    requires b <= LASTBUCKET + 1
    ensures b <= r <= LASTBUCKET + 1
    ensures r <= LASTBUCKET ==> BlockSize(r) >= nbytes + OVERHEAD
    ensures forall k :: b <= k < r ==> BlockSize(k) < nbytes + OVERHEAD
    decreases LASTBUCKET + 1 - b
  {
    if b == LASTBUCKET + 1 || BlockSize(b) >= nbytes + OVERHEAD then b else FirstFit(nbytes, b + 1)
  }

  // ---------------------------------------------------------------- blocks

  /** `all` are the blocks ever cut, with their buckets; `free` the free lists and `live` the blocks
      handed out. */
  datatype Heap = Heap(free: seq<seq<nat>>, live: map<nat, nat>, all: map<nat, nat>, brk: nat)

  ghost predicate Apart(a: nat, b: nat, a': nat, b': nat) {
    a + BlockSize(b) <= a' || a' + BlockSize(b') <= a
  }

  /** The blocks lie between the start of the heap and the break, and share no byte. */
  ghost predicate Placed(all: map<nat, nat>, base: nat, brk: nat) {
    && 0 < base <= brk
    && (forall a :: a in all ==> base <= a && all[a] < NBUCKETS && a + BlockSize(all[a]) <= brk)
    && (forall a, a' :: a in all && a' in all && a != a' ==> Apart(a, all[a], a', all[a']))
  }

  /** Every block is either live or on the list of its bucket, once. */
  ghost predicate Filed(h: Heap) {
    && |h.free| == NBUCKETS
    && (forall a :: a in h.live ==> a in h.all && h.all[a] == h.live[a])
    && (forall b :: 0 <= b < NBUCKETS ==> Distinct(h.free[b]))
    && (forall b, i :: 0 <= b < NBUCKETS && 0 <= i < |h.free[b]| ==>
          h.free[b][i] in h.all && h.all[h.free[b][i]] == b && h.free[b][i] !in h.live)
    && (forall a :: a in h.all && a !in h.live ==> h.all[a] < NBUCKETS && a in h.free[h.all[a]])
  }

  ghost predicate Sound(h: Heap, base: nat, limit: nat) {
    Placed(h.all, base, h.brk) && Filed(h) && h.brk <= limit
  }

  /** The addresses that morecore cuts a new stretch into. */
  function Cut(a: nat, sz: nat, n: nat): (s: seq<nat>)
    ensures |s| == n
    decreases n
  {
    if n == 0 then [] else [a] + Cut(a + sz, sz, n - 1)
  }

  function Pieces(b: nat): nat {
    if Size(b) < L4_PAGESIZE then L4_PAGESIZE / Size(b) else 1
  }

  function Amount(b: nat): nat {
    if Size(b) < L4_PAGESIZE then L4_PAGESIZE else Size(b) + L4_PAGESIZE
  }

  function NewBlocks(s: seq<nat>, b: nat): (m: map<nat, nat>)
    ensures forall a :: a in m <==> a in s
    ensures forall a :: a in m ==> m[a] == b
  {
    map a | a in s :: b
  }

  /** morecore as it is meant, for a bucket whose list is empty; nothing happens when there is no more
      room. */
  function Grow(h: Heap, b: nat, limit: nat): Heap
    requires b < |h.free|
  {
    if h.brk + Amount(b) > limit then h
    else
      var s := Cut(h.brk, Size(b), Pieces(b));
      Heap(h.free[b := s], h.live, h.all + NewBlocks(s, b), h.brk + Amount(b))
  }

  datatype Allocation = Allocation(ptr: nat, heap: Heap)

  /** Take the first block off the list of a bucket. */
  function Pop(h: Heap, b: nat): Allocation
    requires b < |h.free|
  {
    if h.free[b] == [] then Allocation(0, h)
    else
      var a := h.free[b][0];
      Allocation(a + OVERHEAD, h.(free := h.free[b := h.free[b][1..]], live := h.live[a := b]))
  }

  /** _kmalloc as it is meant; 0 is failure, otherwise the pointer is just behind the header of the block. */
  function Malloc(h: Heap, nbytes: nat, limit: nat): Allocation
    requires |h.free| == NBUCKETS
  {
    var b := FirstFit(nbytes, 0);
    if b > LASTBUCKET then Allocation(0, h)
    else if h.free[b] == [] then Pop(Grow(h, b, limit), b)
    else Pop(h, b)
  }

  /** _kfree */
  function Free(h: Heap, ptr: nat): (r: Heap)
    requires |h.free| == NBUCKETS
    ensures |r.free| == NBUCKETS
  {
    var a := ptr - OVERHEAD;
    if a in h.live && h.live[a] < NBUCKETS then
      h.(free := h.free[h.live[a] := [a] + h.free[h.live[a]]], live := h.live - {a})
    else h
  }

  // ---------------------------------------------------------------- growing

  /** Pieces follow each other without a gap. */
  lemma {:induction false} CutAt(a: nat, sz: nat, n: nat, i: nat)
    requires i < n
    ensures Cut(a, sz, n)[i] == a + i * sz
    decreases i
  {
    if i > 0 {
      CutAt(a + sz, sz, n - 1, i - 1);
      assert i * sz == sz + (i - 1) * sz;
    }
  }

  /** The pieces of a new stretch lie in it, one after the other. */
  lemma CutApart(brk: nat, b: nat, s: seq<nat>)
    requires s == Cut(brk, Size(b), Pieces(b))
    ensures forall i :: 0 <= i < |s| ==> brk <= s[i] && s[i] + BlockSize(b) <= brk + Amount(b)
    ensures forall i, j :: 0 <= i < j < |s| ==> s[i] + BlockSize(b) <= s[j]
  {
    var sz, n := Size(b), Pieces(b);
    PiecesFill(b);
    forall i | 0 <= i < n ensures brk <= s[i] && s[i] + BlockSize(b) <= brk + Amount(b) {
      CutAt(brk, sz, n, i);
      StepsApart(i, n, sz);
    }
    forall i, j | 0 <= i < j < n ensures s[i] + BlockSize(b) <= s[j] {
      CutAt(brk, sz, n, i);
      CutAt(brk, sz, n, j);
      StepsApart(i, j, sz);
    }
  }

  /** The pieces of a size below a page fill the page. */
  lemma PiecesFill(b: nat)
    ensures Pieces(b) >= 1
    ensures Size(b) < L4_PAGESIZE ==> Pieces(b) * Size(b) == L4_PAGESIZE
  {
    SmallBuckets(b);
    SizeTable();
    if b < PAGEBUCKET {
      assert b == 0 || b == 1 || b == 2 || b == 3 || b == 4 || b == 5 || b == 6 || b == 7 || b == 8;
    }
  }

  lemma BlocksHoldBytes()
    ensures forall b :: BlockSize(b) >= 8
  {
  }

  lemma GrowPlaced(all: map<nat, nat>, base: nat, brk: nat, b: nat, s: seq<nat>)
    requires Placed(all, base, brk) && b < NBUCKETS && s == Cut(brk, Size(b), Pieces(b))
    ensures Placed(all + NewBlocks(s, b), base, brk + Amount(b)) && Distinct(s)
    ensures forall i :: 0 <= i < |s| ==> s[i] !in all
  {
    hide Cut, Pieces, Size, BlockSize, Amount;
    var m := all + NewBlocks(s, b);
    CutApart(brk, b, s);
    assert forall a :: a in s ==> brk <= a && a + BlockSize(b) <= brk + Amount(b);
    BlocksHoldBytes();
    forall i | 0 <= i < |s| ensures s[i] !in all {
      assert s[i] >= brk;
    }
    forall a, a' | a in m && a' in m && a != a' ensures Apart(a, m[a], a', m[a']) {
      if a in s && a' in s {
        TwoPieces(s, BlockSize(b), a, a');
      } else if a in s {
        assert a' in all && a' + BlockSize(all[a']) <= brk <= a;
      } else if a' in s {
        assert a in all && a + BlockSize(all[a]) <= brk <= a';
      } else {
        assert Apart(a, all[a], a', all[a']);
      }
    }
  }

  lemma TwoPieces(s: seq<nat>, size: nat, a: nat, a': nat)
    requires forall i, j :: 0 <= i < j < |s| ==> s[i] + size <= s[j]
    requires a in s && a' in s && a != a'
    ensures a + size <= a' || a' + size <= a
  {
  }

  /** morecore files the new blocks on the empty list they were cut for. */
  lemma GrowSound(h: Heap, base: nat, limit: nat, b: nat)
    requires Sound(h, base, limit) && b < NBUCKETS && h.free[b] == []
    ensures Sound(Grow(h, b, limit), base, limit)
    ensures var r := Grow(h, b, limit);
            && r.live == h.live && (r.free[b] == [] <==> h.brk + Amount(b) > limit)
            && (r.free[b] == [] ==> r == h)
  {
    hide Cut, Pieces, Amount, Size, Placed, Distinct;
    if h.brk + Amount(b) <= limit {
      var s := Cut(h.brk, Size(b), Pieces(b));
      GrowPlaced(h.all, base, h.brk, b, s);
      PiecesFill(b);
      GrowFiled(h, b, s, h.brk + Amount(b));
    }
  }

  lemma GrowFiled(h: Heap, b: nat, s: seq<nat>, brk: nat)
    requires Filed(h) && b < NBUCKETS && h.free[b] == [] && Distinct(s)
    requires forall i :: 0 <= i < |s| ==> s[i] !in h.all
    ensures Filed(Heap(h.free[b := s], h.live, h.all + NewBlocks(s, b), brk))
  {
    var r := Heap(h.free[b := s], h.live, h.all + NewBlocks(s, b), brk);
    forall c, i | 0 <= c < NBUCKETS && 0 <= i < |r.free[c]|
      ensures r.free[c][i] in r.all && r.all[r.free[c][i]] == c && r.free[c][i] !in r.live
    {
      if c != b {
        assert h.free[c][i] in h.all && h.all[h.free[c][i]] == c;
        assert h.free[c][i] !in s;
      }
    }
    forall a | a in r.all && a !in r.live ensures r.all[a] < NBUCKETS && a in r.free[r.all[a]] {
      if a !in s {
        assert a in h.free[h.all[a]];
      }
    }
  }

  // ---------------------------------------------------------------- in numbers

  /** The bytes that morecore asks for: a page for the sizes below one, a page more than the size for others. */
  function Stretch(b: nat): nat {
    if b < 9 then 4096 else Power(b + 3) + 4096
  }

  /** The blocks that it cuts them into fill the page, or are one. */
  ghost predicate Fills(n: nat, b: nat) {
    if b < 9 then n * Power(b + 3) == 4096 else n == 1
  }

  /** Blocks have 8 << b bytes below bucket 9, and a page more than that from there on. */
  lemma InNumbers(b: nat)
    ensures BlockSize(b) == if b < 9 then Power(b + 3) else Power(b + 3) + 4096
    ensures Amount(b) == Stretch(b) && Fills(Pieces(b), b) && Pieces(b) >= 1 && Size(b) == Power(b + 3)
  {
    hide Power;
    SmallBuckets(b);
    PiecesFill(b);
  }

  /** The blocks on a list that was empty: one after the other from the old break on. */
  ghost predicate CutFrom(s: seq<nat>, brk: nat, b: nat) {
    Fills(|s|, b) && forall i :: 0 <= i < |s| ==> s[i] == brk + i * Power(b + 3)
  }

  lemma CutStarts(s: seq<nat>, brk: nat, b: nat)
    requires CutFrom(s, brk, b)
    ensures s != [] && s[0] == brk
  {
    hide Power;
  }

  /** What morecore does: nothing when the break would pass the limit, otherwise the break moves and the blocks
      of the new stretch are on the list and known; no other list and no live block changes. */
  lemma GrowMeans(h: Heap, b: nat, limit: nat)
    requires b < |h.free|
    ensures var r := Grow(h, b, limit);
            if h.brk + Stretch(b) > limit then r == h
            else
              && r.brk == h.brk + Stretch(b) && r.live == h.live && CutFrom(r.free[b], h.brk, b)
              && r.free == h.free[b := r.free[b]]
              && (forall a :: a in r.all <==> a in h.all || a in r.free[b])
              && (forall a :: a in r.all ==> r.all[a] == if a in r.free[b] then b else h.all[a])
  {
    hide Stretch, Amount, Size, Pieces, Cut, Fills, Power;
    InNumbers(b);
    var s := Cut(h.brk, Size(b), Pieces(b));
    forall i | 0 <= i < |s| ensures s[i] == h.brk + i * Power(b + 3) {
      CutAt(h.brk, Size(b), Pieces(b), i);
    }
  }

  // ---------------------------------------------------------------- allocation and release

  lemma FreeLists(h: Heap, base: nat, limit: nat)
    requires Sound(h, base, limit)
    ensures |h.free| == NBUCKETS
  {
  }

  lemma PopFiled(h: Heap, b: nat)
    requires Filed(h) && b < NBUCKETS && h.free[b] != []
    ensures Filed(Pop(h, b).heap)
    ensures var a := h.free[b][0]; a in h.all && h.all[a] == b && a !in h.live
  {
    var r, a, l := Pop(h, b).heap, h.free[b][0], h.free[b];
    assert forall i :: 0 < i < |l| ==> l[i] != a;
    forall c, i | 0 <= c < NBUCKETS && 0 <= i < |r.free[c]|
      ensures r.free[c][i] in r.all && r.all[r.free[c][i]] == c && r.free[c][i] !in r.live
    {
      var k := if c == b then i + 1 else i;
      assert r.free[c][i] == h.free[c][k];
      assert h.all[h.free[c][k]] == c;
    }
    forall x | x in r.all && x !in r.live ensures r.all[x] < NBUCKETS && x in r.free[r.all[x]] {
      assert x in h.free[h.all[x]];
      if h.all[x] == b {
        var i :| 0 <= i < |l| && l[i] == x;
        assert l[1..][i - 1] == x;
      }
    }
  }

  /** _kmalloc succeeds exactly when the request is not too large to be a block, and a block of the
      right bucket is free or can be cut. It then hands out a free block with room for the header
      and the bytes, from the first bucket whose blocks have that, which shares no byte with any
      live block and lies below the break. */
  lemma MallocCorrect(h: Heap, nbytes: nat, base: nat, limit: nat)
    requires Sound(h, base, limit)
    ensures var r, b := Malloc(h, nbytes, limit), FirstFit(nbytes, 0);
            && Sound(r.heap, base, limit)
            && (r.ptr == 0 <==> b > LASTBUCKET || (h.free[b] == [] && h.brk + Amount(b) > limit))
            && (r.ptr == 0 ==> r.heap == h)
            && (r.ptr != 0 ==>
                  r.ptr > OVERHEAD && HandedOut(h, r.heap, r.ptr - OVERHEAD, b, nbytes, base))
  {
    hide Grow, Sound, HandedOut, FirstFit, Amount;
    FreeLists(h, base, limit);
    var b := FirstFit(nbytes, 0);
    if b <= LASTBUCKET {
      if h.free[b] == [] {
        GrowSound(h, base, limit, b);
        FreeLists(Grow(h, b, limit), base, limit);
        if Grow(h, b, limit).free[b] != [] {
          PopCorrect(h, Grow(h, b, limit), b, nbytes, base, limit);
        }
      } else {
        PopCorrect(h, h, b, nbytes, base, limit);
      }
    }
  }

  /** Which block it is, and what happens to the lists: the first one of its list; or, when that is empty, the
      first one of a new stretch, if there is room for that, and otherwise none. */
  lemma MallocTakes(h: Heap, nbytes: nat, base: nat, limit: nat)
    requires Sound(h, base, limit) && FirstFit(nbytes, 0) <= LASTBUCKET
    ensures var r, b := Malloc(h, nbytes, limit), FirstFit(nbytes, 0);
            if h.free[b] != [] then
              && r.ptr == h.free[b][0] + 8 && r.heap.free == h.free[b := h.free[b][1..]]
              && r.heap.brk == h.brk && r.heap.all == h.all
            else if h.brk + Stretch(b) > limit then r == Allocation(0, h)
            else
              && r.ptr == h.brk + 8 && r.heap.brk == h.brk + Stretch(b)
              && CutFrom([h.brk] + r.heap.free[b], h.brk, b) && r.heap.free == h.free[b := r.heap.free[b]]
  {
    hide FirstFit, Grow, Stretch, Placed, Fills, Power;
    FreeLists(h, base, limit);
    var b := FirstFit(nbytes, 0);
    GrowMeans(h, b, limit);
    InNumbers(b);
    var g := Grow(h, b, limit);
    if h.free[b] == [] && h.brk + Stretch(b) <= limit {
      CutStarts(g.free[b], h.brk, b);
      assert g.free[b][0] == h.brk;
      assert [h.brk] + g.free[b][1..] == g.free[b];
    }
  }

  lemma PopCorrect(h: Heap, g: Heap, b: nat, nbytes: nat, base: nat, limit: nat)
    requires Sound(g, base, limit) && g.live == h.live && b <= LASTBUCKET && g.free[b] != [] && b == FirstFit(nbytes, 0)
    ensures var r := Pop(g, b);
            Sound(r.heap, base, limit) && r.ptr > OVERHEAD && HandedOut(h, r.heap, r.ptr - OVERHEAD, b, nbytes, base)
  {
    PopFiled(g, b);
    hide FirstFit, BlockSize, Distinct;
  }

  ghost predicate HandedOut(h: Heap, r: Heap, a: nat, b: nat, nbytes: nat, base: nat) {
    && a !in h.live && r.live == h.live[a := b]
    && BlockSize(b) >= nbytes + OVERHEAD && (forall k :: 0 <= k < b ==> BlockSize(k) < nbytes + OVERHEAD)
    && base <= a && a + BlockSize(b) <= r.brk
    && (forall x :: x in h.live ==> Apart(a, b, x, h.live[x]))
  }

  /** _kfree puts a live block back, and touches nothing else. */
  lemma FreeCorrect(h: Heap, ptr: nat, base: nat, limit: nat)
    requires Sound(h, base, limit) && ptr >= OVERHEAD && ptr - OVERHEAD in h.live
    ensures var r, a := Free(h, ptr), ptr - OVERHEAD;
            && r.live == h.live - {a} && r.brk == h.brk
            && h.live[a] < NBUCKETS && r.free[h.live[a]] == [a] + h.free[h.live[a]]
            && Sound(r, base, limit)
  {
    assert h.all[ptr - OVERHEAD] == h.live[ptr - OVERHEAD];
    FreeFiled(h, ptr);
  }

  lemma FreeFiled(h: Heap, ptr: nat)
    requires Filed(h) && ptr >= OVERHEAD && ptr - OVERHEAD in h.live && h.live[ptr - OVERHEAD] < NBUCKETS
    ensures Filed(Free(h, ptr))
  {
    var r, a := Free(h, ptr), ptr - OVERHEAD;
    var b := h.live[a];
    assert h.all[a] == b;
    var l := h.free[b];
    forall i | 0 <= i < |l| ensures l[i] != a {
      assert l[i] !in h.live;
    }
    forall c, i | 0 <= c < NBUCKETS && 0 <= i < |r.free[c]|
      ensures r.free[c][i] in r.all && r.all[r.free[c][i]] == c && r.free[c][i] !in r.live
    {
      if c != b || i > 0 {
        assert r.free[c][i] == h.free[c][if c == b then i - 1 else i];
      }
    }
    forall x | x in r.all && x !in r.live ensures r.all[x] < NBUCKETS && x in r.free[r.all[x]] {
      if x == a {
        assert r.free[b][0] == a;
      } else {
        assert x in h.free[h.all[x]];
        var i :| 0 <= i < |h.free[h.all[x]]| && h.free[h.all[x]][i] == x;
        assert r.free[h.all[x]][if h.all[x] == b then i + 1 else i] == x;
      }
    }
  }

  /** What _kmalloc took from a list that was not empty, _kfree puts back where it was. */
  lemma MallocThenFree(h: Heap, nbytes: nat, base: nat, limit: nat)
    requires Sound(h, base, limit) && FirstFit(nbytes, 0) <= LASTBUCKET && h.free[FirstFit(nbytes, 0)] != []
    ensures Free(Malloc(h, nbytes, limit).heap, Malloc(h, nbytes, limit).ptr) == h
  {
    hide FirstFit, Placed, Grow, Distinct;
    var b := FirstFit(nbytes, 0);
    PopFiled(h, b);
    var r := Malloc(h, nbytes, limit);
    var a := h.free[b][0];
    assert [a] + h.free[b][1..] == h.free[b];
    assert r.heap.live - {a} == h.live;
    assert r.heap.free[b := h.free[b]] == h.free;
  }

  // ---------------------------------------------------------------- runs

  datatype Request = Take(nbytes: nat) | Give(ptr: nat)

  /** A new heap: nothing cut yet. */
  function New(base: nat): Heap {
    Heap(seq(NBUCKETS, _ => []), map[], map[], base)
  }

  /** A run: pointers that are given back are live. */
  ghost function After(run: seq<Request>, base: nat, limit: nat): (h: Heap)
    ensures |h.free| == NBUCKETS
  {
    if run == [] then New(base)
    else
      var h := After(run[..|run| - 1], base, limit);
      match run[|run| - 1]
      case Take(nbytes) => Malloc(h, nbytes, limit).heap
      case Give(ptr) => if ptr >= OVERHEAD && ptr - OVERHEAD in h.live then Free(h, ptr) else h
  }

  /** In every heap that a run reaches, all blocks, free or live, are disjoint and below the break,
      and every block is live or on its list. */
  lemma {:induction false} RunsSound(run: seq<Request>, base: nat, limit: nat)
    requires 0 < base <= limit
    ensures Sound(After(run, base, limit), base, limit)
  {
    if run != [] {
      var earlier := run[..|run| - 1];
      RunsSound(earlier, base, limit);
      var h := After(earlier, base, limit);
      match run[|run| - 1]
      case Take(nbytes) => MallocCorrect(h, nbytes, base, limit);
      case Give(ptr) =>
        if ptr >= OVERHEAD && ptr - OVERHEAD in h.live {
          FreeCorrect(h, ptr, base, limit);
        }
    }
  }
}

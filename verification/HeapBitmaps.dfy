/** The bitmap of a page of chunks and the list of such pages in lib/naming/hmalloc.c, in place: the
    loops over words and bits, and the relinking of descriptions. The directory comes with PageHeap. */
module HeapBitmaps {
  import opened Machine
  import opened Sequences
  import opened HeapChunks
  import opened HeapFragments

  /** struct pginfo. A word of the bitmap is 32 elements of `bits`. */
  class PgInfo {
    var next: PgInfo?
    const page: nat
    const shift: nat
    var free: nat
    var total: nat
    const bits: array<bool>

    ghost function Value(): PageInfo
      reads this`free, this`total, bits
    {
      PageInfo(shift, free, total, bits[..])
    }

    /** The description that malloc_make_chunks writes. */
    constructor (page: nat, shift: nat, junk: seq<bool>)
      requires 4 <= shift <= 11
      ensures fresh(bits) && this.page == page && this.shift == shift && next == null
      ensures Stolen(shift) <= ChunkCount(shift) && Value() == NewInfo(shift, junk)
    {
      hide Power, ChunkCount, Words, HeaderSize, Stolen;
      this.page, this.shift, next := page, shift, null;
      var n := ChunkCount(shift);
      free, total := n, n;
      bits := new bool[WORDBITS * Words(shift)](k => 0 <= k < |junk| && junk[k]);
      new;
      PageFilled(shift);
      SetAll(n);
      Steal();
      assert bits[..] == NewBits(shift, junk);
    }

    /** Set the first k bits: whole words first, then bit by bit. */
    method SetAll(k: nat)
      requires k <= bits.Length && bits.Length % WORDBITS == 0
      modifies bits
      ensures forall j :: 0 <= j < bits.Length ==> bits[j] == (j < k || old(bits[j]))
    {
      var i := 0;
      while k - i >= WORDBITS
        invariant i <= k
        invariant forall j :: 0 <= j < bits.Length ==> bits[j] == (j < i || old(bits[j]))
      {
        forall j | i <= j < i + WORDBITS {
          bits[j] := true;
        }
        i := i + WORDBITS;
      }
      while i < k
        invariant i <= k
        invariant forall j :: 0 <= j < bits.Length ==> bits[j] == (j < i || old(bits[j]))
      {
        bits[i] := true;
        i := i + 1;
      }
    }

    /** Clear the bits of the chunks that the description takes for itself. */
    method Steal()
      requires 4 <= shift <= 11 && bits.Length == WORDBITS * Words(shift) && total == free == ChunkCount(shift)
      modifies this`free, this`total, bits
      ensures Stolen(shift) <= ChunkCount(shift) && total == free == ChunkCount(shift) - Stolen(shift)
      ensures forall j :: 0 <= j < bits.Length ==> bits[j] == (j >= Stolen(shift) && old(bits[j]))
    {
      hide Power, ChunkCount, Words, HeaderSize, Stolen;
      PageFilled(shift);
      NoneStolen(shift);
      var l: int := HeaderSize(shift);
      if Power(shift) > l + l {
        return;
      }
      var i := 0;
      StolenCount(shift, 0);
      while l > 0
        invariant l == HeaderSize(shift) - i * Power(shift) && i <= Stolen(shift)
        invariant l > 0 <==> i < Stolen(shift)
        invariant total == free == ChunkCount(shift) - i
        invariant forall j :: 0 <= j < bits.Length ==> bits[j] == (j >= i && old(bits[j]))
        decreases Stolen(shift) - i
      {
        bits[i] := false;
        free, total := free - 1, total - 1;
        StolenCount(shift, i + 1);
        assert (i + 1) * Power(shift) == i * Power(shift) + Power(shift);
        l := l - Power(shift);
        i := i + 1;
      }
    }

    predicate EmptyWord(w: nat)
      requires WORDBITS * w + WORDBITS <= bits.Length
      reads bits
    {
      forall k :: WORDBITS * w <= k < WORDBITS * w + WORDBITS ==> !bits[k]
    }

    /** The search in malloc_bytes: the first word that is not empty, then its first bit. */
    method TakeFirst() returns (k: nat)
      requires Described(Value()) && free > 0
      modifies this`free, bits
      ensures k == FirstBit(old(bits[..])) && k < bits.Length && Value() == TakeChunk(old(Value()))
      ensures Stolen(shift) <= k < ChunkCount(shift) && old(bits[k]) && Described(Value())
    {
      ghost var s, n := bits[..], free;
      TakeChunkCorrect(Value());
      ghost var first := FirstBit(s);
      var lp := 0;
      while EmptyWord(lp)
        invariant bits[..] == s && free == n
        invariant WORDBITS * lp <= first && WORDBITS * lp + WORDBITS <= bits.Length
        decreases bits.Length - lp
      {
        assert bits[first];
        lp := lp + 1;
      }
      assert first < WORDBITS * lp + WORDBITS;
      k := WORDBITS * lp;
      while !bits[k]
        invariant bits[..] == s && free == n && WORDBITS * lp <= k <= first
        decreases first - k
      {
        k := k + 1;
      }
      assert k == first;
      bits[k] := false;
      free := free - 1;
    }

    /** The bitmap part of free_bytes; a chunk that is free already is left alone. */
    method Give(k: nat) returns (ok: bool)
      requires k < bits.Length
      modifies this`free, bits
      ensures ok == !old(bits[k]) && Value() == if ok then GiveChunk(old(Value()), k) else old(Value())
    {
      if bits[k] {
        return false;
      }
      bits[k] := true;
      free := free + 1;
      ok := true;
    }
  }

  lemma NoneStolen(s: nat)
    requires s <= SHIFTS
    ensures HeaderSize(s) >= 24 && (Power(s) > 2 * HeaderSize(s) ==> Stolen(s) == 0)
  {
  }

  lemma StolenCount(s: nat, i: nat)
    requires 4 <= s <= 11 && Power(s) <= 2 * HeaderSize(s) && i <= Stolen(s)
    ensures HeaderSize(s) - i * Power(s) > 0 <==> i < Stolen(s)
  {
    Table(s);
  }

  function PagesOf(nodes: seq<PgInfo>): (r: seq<nat>)
    ensures |r| == |nodes| && forall i :: 0 <= i < |nodes| ==> r[i] == nodes[i].page
  {
    seq(|nodes|, i requires 0 <= i < |nodes| => nodes[i].page)
  }

  lemma PagesInserted(nodes: seq<PgInfo>, i: nat, info: PgInfo)
    requires i <= |nodes|
    ensures PagesOf(InsertedAt(nodes, i, info)) == InsertedAt(PagesOf(nodes), i, info.page)
  {
  }

  lemma PagesRemoved(nodes: seq<PgInfo>, i: nat)
    requires i < |nodes|
    ensures PagesOf(RemovedAt(nodes, i)) == RemovedAt(PagesOf(nodes), i)
  {
  }

  ghost function Members(nodes: seq<PgInfo>): set<PgInfo> {
    set n | n in nodes
  }

  lemma MembersInserted(nodes: seq<PgInfo>, i: nat, info: PgInfo)
    requires i <= |nodes|
    ensures Members(InsertedAt(nodes, i, info)) == Members(nodes) + {info}
  {
    assert nodes == nodes[..i] + nodes[i..];
  }

  lemma MembersRemoved(nodes: seq<PgInfo>, i: nat)
    requires Distinct(nodes) && i < |nodes|
    ensures Members(RemovedAt(nodes, i)) == Members(nodes) - {nodes[i]}
  {
    assert nodes == nodes[..i] + [nodes[i]] + nodes[i + 1..];
    DistinctAt(nodes, i);
  }

  /** The list of the pages with free chunks of one size, from its head in the page directory. */
  class BucketList {
    var head: PgInfo?
    ghost var nodes: seq<PgInfo>
    ghost var pages: seq<nat>
    ghost var Repr: set<PgInfo>

    ghost predicate Chained()
      reads this, Repr`next
    {
      && (forall i :: 0 <= i < |nodes| ==> nodes[i] in Repr)
      && head == ItemOr<PgInfo?>(nodes, 0, null) && Distinct(nodes)
      && (forall i {:trigger nodes[i].next} :: 0 <= i < |nodes| ==>
            nodes[i].next == ItemOr<PgInfo?>(nodes, i + 1, null))
    }

    ghost predicate Valid()
      reads this, Repr`next
    {
      Chained() && pages == PagesOf(nodes)
    }

    constructor ()
      ensures Valid() && pages == [] && Repr == {}
    {
      head, nodes, pages, Repr := null, [], [], {};
    }

    /** The insertion of free_bytes: the place is looked for from the head on. */
    method InsertInOrder(info: PgInfo)
      requires Valid() && info !in Repr
      modifies this, Repr`next, info`next
      ensures Valid() && Repr == old(Repr) + {info}
      ensures pages == InsertedAt(old(pages), Place(old(pages), info.page, 0), info.page)
      ensures Place(old(pages), info.page, 0) <= |old(nodes)|
      ensures nodes == InsertedAt(old(nodes), Place(old(pages), info.page, 0), info)
    {
      ghost var s := pages;
      var mp, prev := head, null;
      ghost var i := 0;
      while mp != null && mp.next != null && mp.next.page < info.page
        invariant i <= |nodes| && mp == ItemOr<PgInfo?>(nodes, i, null)
        invariant prev == if i == 0 then null else nodes[i - 1]
        invariant Place(s, info.page, i) == Place(s, info.page, 0)
        decreases |nodes| - i
      {
        prev, mp, i := mp, mp.next, i + 1;
      }
      Link(info, i, mp, prev);
    }

    /** Put a page in at a place; in front for malloc_make_chunks. */
    method Link(info: PgInfo, ghost i: nat, mp: PgInfo?, prev: PgInfo?)
      requires Valid() && info !in Repr
      requires i <= |nodes| && mp == ItemOr<PgInfo?>(nodes, i, null) && prev == (if i == 0 then null else nodes[i - 1])
      modifies this, Repr`next, info`next
      ensures Valid() && Repr == old(Repr) + {info} && nodes == InsertedAt(old(nodes), i, info)
      ensures pages == InsertedAt(old(pages), i, info.page)
    {
      ghost var ns, ns' := nodes, InsertedAt(nodes, i, info);
      InsertedAtElements(ns, i, info);
      PagesInserted(ns, i, info);
      DistinctInserted(ns, i, info);
      if i > 0 {
        DistinctAt(ns, i - 1);
      }
      hide Distinct, InsertedAt, Members, PagesOf;
      info.next := mp;
      if prev == null {
        head := info;
      } else {
        prev.next := info;
      }
      nodes, pages, Repr := ns', InsertedAt(pages, i, info.page), Repr + {info};
      forall j | 0 <= j < |ns'| ensures ns'[j] in Repr && ns'[j].next == ItemOr<PgInfo?>(ns', j + 1, null) {
        assert j != i ==> ns'[j] == ns[if j < i then j else j - 1];
      }
    }

    /** The removal of free_bytes: the page is looked for from the head on. */
    method Remove(info: PgInfo)
      requires Valid() && info in nodes && forall i, j :: 0 <= i < j < |pages| ==> pages[i] != pages[j]
      modifies this, Repr`next
      ensures old(info.page in pages) && Valid() && Repr == old(Repr) - {info}
      ensures pages == RemovedAt(old(pages), Position(old(pages), info.page))
      ensures Position(old(pages), info.page) < |old(nodes)|
      ensures nodes == RemovedAt(old(nodes), Position(old(pages), info.page))
    {
      ghost var s := pages;
      var mp, prev := head, null;
      ghost var i := 0;
      ghost var k :| 0 <= k < |nodes| && nodes[k] == info;
      while mp != info
        invariant i <= k && mp == ItemOr<PgInfo?>(nodes, i, null) && prev == (if i == 0 then null else nodes[i - 1])
        decreases |nodes| - i
      {
        prev, mp, i := mp, mp.next, i + 1;
      }
      DistinctAt(nodes, k);
      PositionIs(s, info.page, i);
      Unlink(info, i, prev);
    }

    /** Take a page out; the first one for malloc_bytes. */
    method Unlink(info: PgInfo, ghost i: nat, prev: PgInfo?)
      requires Valid() && i < |nodes| && info == nodes[i] && prev == (if i == 0 then null else nodes[i - 1])
      modifies this, Repr`next
      ensures Valid() && Repr == old(Repr) - {info} && nodes == RemovedAt(old(nodes), i)
      ensures pages == RemovedAt(old(pages), i)
    {
      ghost var ns, ns' := nodes, RemovedAt(nodes, i);
      RemovedAtElements(ns, i);
      PagesRemoved(ns, i);
      DistinctRemoved(ns, i);
      if i > 0 {
        DistinctAt(ns, i - 1);
      }
      DistinctAt(ns, i);
      hide Distinct, RemovedAt, Members, PagesOf;
      if prev == null {
        head := info.next;
      } else {
        prev.next := info.next;
      }
      nodes, pages, Repr := ns', RemovedAt(pages, i), Repr - {info};
      forall j | 0 <= j < |ns'| ensures ns'[j] in Repr && ns'[j].next == ItemOr<PgInfo?>(ns', j + 1, null) {
        assert ns'[j] == ns[if j < i then j else j + 1];
      }
    }
  }

  lemma {:induction false} PositionIs(l: seq<nat>, p: nat, i: nat)
    requires i < |l| && l[i] == p && forall j, k :: 0 <= j < k < |l| ==> l[j] != l[k]
    ensures p in l && Position(l, p) == i
  {
    if i > 0 {
      PositionIs(l[1..], p, i - 1);
    }
  }
}

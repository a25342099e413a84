/** The descriptions of the pages of chunks in lib/naming/hmalloc.c together with the lists of those
    that have free chunks: each description on at most one list, and no two of them with one bitmap. */
module ChunkStores {
  import opened Machine
  import opened Sequences
  import opened HeapChunks
  import opened HeapFragments
  import opened HeapBitmaps

  function Bitmaps(infos: map<nat, PgInfo>): set<object> {
    set p | p in infos :: infos[p].bits
  }

  /** The descriptions are those of the pages, and share no bitmap. */
  ghost predicate Known(infos: map<nat, PgInfo>, descr: map<nat, PageInfo>)
    reads infos.Values`free, infos.Values`total, Bitmaps(infos)
  {
    && (forall p: nat :: p in infos <==> p in descr)
    && (forall p: nat :: p in infos ==> infos[p].page == p && infos[p].Value() == descr[p])
    && (forall p: nat, q: nat :: p in infos && q in infos && p != q ==> infos[p].bits != infos[q].bits)
  }

  /** The list chains the descriptions of these pages. */
  ghost predicate Chains(b: BucketList, infos: map<nat, PgInfo>, l: seq<nat>)
    reads b, b.Repr`next
  {
    && b.Valid() && b.pages == l && b.Repr == Members(b.nodes)
    && (forall n :: n in b.Repr ==> n.page in infos && infos[n.page] == n)
  }

  /** A page that is on no list is not chained. */
  lemma NotChained(b: BucketList, infos: map<nat, PgInfo>, l: seq<nat>, p: nat)
    requires Chains(b, infos, l) && p in infos && infos[p].page == p && p !in l
    ensures infos[p] !in b.Repr
  {
  }

  /** None of these objects is the list, and no bitmap is chained. */
  ghost predicate Elsewhere(b: object, chained: set<object>, infos: map<nat, PgInfo>) {
    && (forall o: object :: o in infos.Values ==> o != b)
    && (forall o: object :: o in Bitmaps(infos) ==> o != b && o !in chained)
  }

  lemma NoneKnown()
    ensures Known(map[], map[])
  {
  }

  lemma OneMoreKnown(infos: map<nat, PgInfo>, descr: map<nat, PageInfo>, bp: PgInfo)
    requires Known(infos, descr) && bp.page !in descr && bp.bits !in Bitmaps(infos)
    ensures bp.page !in infos
    ensures Known(infos[bp.page := bp], descr[bp.page := bp.Value()])
  {
    forall p: nat | p in infos ensures infos[p].bits != bp.bits {
      assert infos[p].bits in Bitmaps(infos);
    }
  }

  lemma OneMoreChains(b: BucketList, infos: map<nat, PgInfo>, l: seq<nat>, bp: PgInfo)
    requires Chains(b, infos, l) && bp.page !in infos
    ensures Chains(b, infos[bp.page := bp], l)
  {
  }

  lemma OneLessKnown(infos: map<nat, PgInfo>, descr: map<nat, PageInfo>, p: nat)
    requires Known(infos, descr)
    ensures Known(infos - {p}, descr - {p})
  {
  }

  lemma OneLessChains(b: BucketList, infos: map<nat, PgInfo>, l: seq<nat>, p: nat)
    requires Chains(b, infos, l) && p !in l
    ensures Chains(b, infos - {p}, l)
  {
  }

  /** Take the first free chunk of a page. */
  method TakeBitOf(bp: PgInfo, ghost infos: map<nat, PgInfo>, ghost descr: map<nat, PageInfo>, ghost p: nat)
    returns (k: nat)
    requires Known(infos, descr) && p in infos && bp == infos[p] && p in descr
    requires Described(descr[p]) && descr[p].free > 0
    modifies bp`free, bp.bits
    ensures k == FirstBit(descr[p].bits) && k < |descr[p].bits|
    ensures Known(infos, descr[p := TakeChunk(descr[p])]) && bp.free == TakeChunk(descr[p]).free
  {
    hide Described, FirstBit;
    k := bp.TakeFirst();
  }

  /** Mark a chunk of a page as free. */
  method SetBitOf(bp: PgInfo, ghost infos: map<nat, PgInfo>, ghost descr: map<nat, PageInfo>, ghost p: nat, k: nat)
    returns (ok: bool)
    requires Known(infos, descr) && p in infos && bp == infos[p] && p in descr && k < |descr[p].bits|
    modifies bp`free, bp.bits
    ensures ok == !descr[p].bits[k]
    ensures ok ==> Known(infos, descr[p := GiveChunk(descr[p], k)]) && bp.Value() == GiveChunk(descr[p], k)
    ensures !ok ==> Known(infos, descr) && bp.Value() == descr[p]
  {
    ok := bp.Give(k);
  }

  method Head(b: BucketList, ghost infos: map<nat, PgInfo>, ghost l: seq<nat>) returns (bp: PgInfo)
    requires Chains(b, infos, l) && l != []
    ensures bp.page == l[0] && bp.page in infos && bp == infos[bp.page]
  {
    bp := b.head;
  }

  /** Take the first page off a list. */
  method PopFrom(b: BucketList, ghost infos: map<nat, PgInfo>, ghost l: seq<nat>)
    requires Chains(b, infos, l) && l != []
    modifies b, b.Repr`next
    ensures Chains(b, infos, l[1..]) && b.Repr <= old(b.Repr)
  {
    MembersRemoved(b.nodes, 0);
    assert RemovedAt(l, 0) == l[1..];
    hide Members, BucketList.Chained, RemovedAt, PagesOf;
    b.Unlink(b.head, 0, null);
  }

  /** Put a page in front of a list. */
  method PushOnto(b: BucketList, bp: PgInfo, ghost infos: map<nat, PgInfo>, ghost l: seq<nat>)
    requires Chains(b, infos, l) && bp !in b.Repr && bp.page in infos && infos[bp.page] == bp
    modifies b, b.Repr`next, bp`next
    ensures Chains(b, infos, [bp.page] + l) && b.Repr == old(b.Repr) + {bp}
  {
    MembersInserted(b.nodes, 0, bp);
    assert InsertedAt(l, 0, bp.page) == [bp.page] + l;
    hide Members, BucketList.Chained, InsertedAt, PagesOf;
    b.Link(bp, 0, b.head, null);
  }

  /** Put a page where free_bytes looks for its place. */
  method PlaceOn(b: BucketList, bp: PgInfo, ghost infos: map<nat, PgInfo>, ghost l: seq<nat>)
    requires Chains(b, infos, l) && bp !in b.Repr && bp.page in infos && infos[bp.page] == bp
    modifies b, b.Repr`next, bp`next
    ensures Chains(b, infos, InsertedAt(l, Place(l, bp.page, 0), bp.page)) && b.Repr == old(b.Repr) + {bp}
  {
    ghost var i := Place(l, bp.page, 0);
    MembersInserted(b.nodes, i, bp);
    hide Members, BucketList.Chained, InsertedAt, PagesOf, Place;
    b.InsertInOrder(bp);
  }

  method TakeOff(b: BucketList, bp: PgInfo, ghost infos: map<nat, PgInfo>, ghost l: seq<nat>)
    requires Chains(b, infos, l) && Distinct(l) && bp.page in l && bp.page in infos && infos[bp.page] == bp
    modifies b, b.Repr`next
    ensures Chains(b, infos, RemovedAt(l, Position(l, bp.page))) && b.Repr <= old(b.Repr)
  {
    ghost var i := Position(l, bp.page);
    assert b.nodes[i] == bp;
    MembersRemoved(b.nodes, i);
    hide Members, BucketList.Chained, RemovedAt, PagesOf;
    b.Remove(bp);
  }

  class ChunkStore {
    const buckets: seq<BucketList>
    var infos: map<nat, PgInfo>  // the entries of the page directory for such pages
    ghost var lists: seq<seq<nat>>
    ghost var descr: map<nat, PageInfo>
    ghost var Repr: set<object>

    ghost predicate Separate()
      reads this, Repr
    {
      && |buckets| == |lists| == SHIFTS && this in Repr
      && (forall p: nat :: p in infos ==> infos[p] in Repr && infos[p].bits in Repr)
      && (forall s :: 0 <= s < SHIFTS ==> buckets[s] in Repr && buckets[s].Repr <= Repr)
      && (forall s, t :: 0 <= s < t < SHIFTS ==> buckets[s] != buckets[t] && buckets[s].Repr !! buckets[t].Repr)
    }

    ghost predicate Valid()
      reads this, Repr
      ensures Valid() ==> this in Repr && |lists| == |buckets| == SHIFTS
    {
      Separate() && Known(infos, descr) && forall s :: 0 <= s < SHIFTS ==> Chains(buckets[s], infos, lists[s])
    }

    constructor ()
      ensures Valid() && fresh(Repr)
      ensures lists == seq(SHIFTS, _ => []) && descr == map[]
    {
      hide Chains, Known;
      var b := NewLists();
      buckets, infos, lists, descr := b, map[], seq(SHIFTS, _ => []), map[];
      new;
      Repr := set x: BucketList | x in b;
      Repr := Repr + {this};
      NoneKnown();
    }

    method IsEmpty(j: nat) returns (none: bool)
      requires Valid() && j < SHIFTS
      ensures none <==> lists[j] == []
    {
      none := buckets[j].head == null;
      assert Chains(buckets[j], infos, lists[j]);
    }

    /** The first page of a list. */
    ghost predicate HasFirst(j: nat)
      requires Valid() && j < SHIFTS
      reads this, Repr
    {
      && lists[j] != [] && lists[j][0] in descr
      && var i := descr[lists[j][0]]; Described(i) && i.free > 0 && FirstBit(i.bits) < |i.bits|
    }

    /** malloc_bytes from a list that is not empty. */
    method Take(j: nat) returns (p: nat, k: nat)
      requires Valid() && j < SHIFTS && HasFirst(j)
      modifies Repr
      ensures Valid() && Repr == old(Repr)
      ensures p == old(lists[j][0]) && k == FirstBit(old(descr[lists[j][0]].bits))
      ensures old(HasFirst(j))
      ensures var i := TakeChunk(old(descr[lists[j][0]]));
              && descr == old(descr)[p := i]
              && lists == if i.free == 0 then old(lists)[j := old(lists[j])[1..]] else old(lists)
    {
      hide Chains, Known, Described, FirstBit, TakeChunk;
      var bp := Head(buckets[j], infos, lists[j]);
      p := bp.page;
      k := TakeBit(bp, p);
      if bp.free == 0 {
        PopFront(j);
      }
    }

    method TakeBit(bp: PgInfo, ghost p: nat) returns (k: nat)
      requires Valid() && p in infos && bp == infos[p] && p in descr && Described(descr[p]) && descr[p].free > 0
      modifies this`descr, bp`free, bp.bits
      ensures Valid() && k == FirstBit(old(descr[p].bits)) && k < |old(descr[p].bits)|
      ensures descr == old(descr)[p := TakeChunk(old(descr[p]))] && bp.free == descr[p].free
    {
      hide Known, Chains, Described, FirstBit, TakeChunk;
      assert Elsewhere(this, {}, infos);
      k := TakeBitOf(bp, infos, descr, p);
      descr := descr[p := TakeChunk(descr[p])];
    }

    method PopFront(j: nat)
      requires Valid() && j < SHIFTS && lists[j] != []
      modifies this`lists, buckets[j], buckets[j].Repr`next
      ensures Valid() && lists == old(lists)[j := old(lists[j])[1..]]
    {
      hide Chains, Known;
      assert Elsewhere(buckets[j], buckets[j].Repr, infos);
      PopFrom(buckets[j], infos, lists[j]);
      lists := lists[j := lists[j][1..]];
    }

    /** malloc_make_chunks, when the page has been allocated. */
    method Add(p: nat, s: nat, junk: seq<bool>)
      requires Valid() && 4 <= s <= 11 && p !in descr && forall t :: 0 <= t < SHIFTS ==> p !in lists[t]
      modifies Repr
      ensures Valid() && fresh(Repr - old(Repr))
      ensures Stolen(s) <= ChunkCount(s) && descr == old(descr)[p := NewInfo(s, junk)]
      ensures lists == old(lists)[s := [p] + old(lists[s])]
    {
      var bp := Describe(p, s, junk);
      NowhereChained(bp);
      PushFront(s, bp);
    }

    /** A new description goes into the directory. */
    method Describe(p: nat, s: nat, junk: seq<bool>) returns (bp: PgInfo)
      requires Valid() && 4 <= s <= 11 && p !in descr
      modifies this
      ensures Valid() && fresh(Repr - old(Repr)) && lists == old(lists)
      ensures p in infos && bp == infos[p] && bp.page == p && bp.shift == s
      ensures Stolen(s) <= ChunkCount(s) && descr == old(descr)[p := NewInfo(s, junk)]
    {
      bp := new PgInfo(p, s, junk);
      Enter(bp);
    }

    method Enter(bp: PgInfo)
      requires Valid() && bp.page !in descr && bp.bits !in Bitmaps(infos)
      modifies this
      ensures Valid() && Repr == old(Repr) + {bp, bp.bits} && lists == old(lists)
      ensures infos == old(infos)[bp.page := bp] && descr == old(descr)[bp.page := bp.Value()]
    {
      hide Chains, Known;
      OneMoreKnown(infos, descr, bp);
      forall t | 0 <= t < SHIFTS ensures Chains(buckets[t], infos[bp.page := bp], lists[t]) {
        OneMoreChains(buckets[t], infos, lists[t], bp);
      }
      assert Elsewhere(this, {}, infos[bp.page := bp]);
      infos, descr, Repr := infos[bp.page := bp], descr[bp.page := bp.Value()], Repr + {bp, bp.bits};
      assert Separate() && Known(infos, descr);
    }

    lemma NowhereChained(bp: PgInfo)
      requires Valid() && bp.page in infos && bp == infos[bp.page]
      requires forall t :: 0 <= t < SHIFTS ==> bp.page !in lists[t]
      ensures forall t :: 0 <= t < SHIFTS ==> bp !in buckets[t].Repr
    {
      forall t | 0 <= t < SHIFTS ensures bp !in buckets[t].Repr {
        NotChained(buckets[t], infos, lists[t], bp.page);
      }
    }

    method PushFront(j: nat, bp: PgInfo)
      requires Valid() && j < SHIFTS && bp.page in infos && bp == infos[bp.page] && bp.shift == j
      requires forall t :: 0 <= t < SHIFTS ==> bp !in buckets[t].Repr
      modifies this`lists, buckets[j], buckets[j].Repr`next, bp`next
      ensures Valid() && lists == old(lists)[j := [bp.page] + old(lists[j])]
    {
      hide Chains, Known, Members;
      assert Elsewhere(buckets[j], buckets[j].Repr + {bp}, infos);
      PushOnto(buckets[j], bp, infos, lists[j]);
      lists := lists[j := [bp.page] + lists[j]];
    }

    /** The page is on the list of its size if it has free chunks, and on no other. */
    ghost predicate FiledPage(p: nat)
      requires Valid() && p in descr
      reads this, Repr
    {
      && descr[p].shift < SHIFTS
      && forall t :: 0 <= t < SHIFTS ==>
           Distinct(lists[t]) && (p in lists[t] <==> t == descr[p].shift && descr[p].free > 0)
    }

    /** free_bytes: the chunk becomes free, if it is not. When it was the only one in use the page is
        taken off its list and its description is dropped. */
    method Give(p: nat, k: nat) returns (ok: bool, gone: bool)
      requires Valid() && p in descr && k < |descr[p].bits| && FiledPage(p)
      modifies Repr
      ensures Valid() && Repr == old(Repr)
      ensures ok == !old(descr[p].bits[k])
      ensures !ok ==> lists == old(lists) && descr == old(descr) && !gone
      ensures ok ==> Given(old(lists), old(descr), p, k, lists, descr, gone)
    {
      hide Valid, InsertedAt, RemovedAt, Place, Position, Distinct;
      var bp := Info(p);
      gone := false;
      ghost var d, i := descr, GiveChunk(descr[p], k);
      ok := SetBit(bp, p, k);
      if ok {
        assert bp.shift == i.shift && bp.free == i.free && bp.total == i.total;
        assert descr - {p} == d - {p};
        if bp.free == 1 {
          FileAgain(bp, p);
        } else if bp.free == bp.total {
          DropPage(bp, p);
          gone := true;
        }
      }
    }

    method FileAgain(bp: PgInfo, p: nat)
      requires Valid() && p in infos && bp == infos[p] && bp.page == p && bp.shift < SHIFTS
      requires forall t :: 0 <= t < SHIFTS ==> p !in lists[t]
      modifies Repr
      ensures Valid() && Repr == old(Repr) && descr == old(descr)
      ensures var l := old(lists[bp.shift]); lists == old(lists)[bp.shift := InsertedAt(l, Place(l, p, 0), p)]
    {
      hide Chains, Known, InsertedAt, Place;
      NowhereChained(bp);
      InsertOrdered(bp.shift, bp);
    }

    method DropPage(bp: PgInfo, p: nat)
      requires Valid() && p in infos && bp == infos[p] && bp.page == p && bp.shift < SHIFTS
      requires Distinct(lists[bp.shift]) && forall t :: 0 <= t < SHIFTS ==> (p in lists[t] <==> t == bp.shift)
      modifies Repr
      ensures Valid() && Repr == old(Repr) && descr == old(descr) - {p}
      ensures var l := old(lists[bp.shift]); p in l && lists == old(lists)[bp.shift := RemovedAt(l, Position(l, p))]
    {
      hide Chains, Known, RemovedAt, Position, Distinct;
      TakenOff(lists[bp.shift], p);
      RemoveFrom(bp.shift, bp);
      Forget(p);
    }

    method ChunkSize(p: nat) returns (size: nat)
      requires Valid() && p in descr
      ensures size == Power(descr[p].shift)
    {
      size := Power(infos[p].shift);
      assert infos[p].Value() == descr[p];
    }

    method Info(p: nat) returns (bp: PgInfo)
      requires Valid() && p in descr
      ensures p in infos && bp == infos[p] && bp.page == p && bp.Value() == descr[p]
      ensures {this, bp, bp.bits} <= Repr
    {
      bp := infos[p];
    }

    method SetBit(bp: PgInfo, p: nat, k: nat) returns (ok: bool)
      requires Valid() && p in infos && bp == infos[p] && p in descr && k < |descr[p].bits|
      modifies this`descr, bp`free, bp.bits
      ensures Valid() && ok == !old(descr[p].bits[k])
      ensures descr == if ok then old(descr)[p := GiveChunk(old(descr[p]), k)] else old(descr)
      ensures p in descr && bp.Value() == descr[p]
    {
      hide Known, Chains, GiveChunk;
      assert Elsewhere(this, {}, infos);
      ok := SetBitOf(bp, infos, descr, p, k);
      if ok {
        descr := descr[p := GiveChunk(descr[p], k)];
      }
    }

    method InsertOrdered(j: nat, bp: PgInfo)
      requires Valid() && j < SHIFTS && bp.page in infos && bp == infos[bp.page]
      requires forall t :: 0 <= t < SHIFTS ==> bp !in buckets[t].Repr
      modifies this`lists, buckets[j], buckets[j].Repr`next, bp`next
      ensures Valid() && lists == old(lists)[j := InsertedAt(old(lists[j]), Place(old(lists[j]), bp.page, 0), bp.page)]
    {
      hide Chains, Known, Members, InsertedAt, Place;
      assert Elsewhere(buckets[j], buckets[j].Repr + {bp}, infos);
      PlaceOn(buckets[j], bp, infos, lists[j]);
      lists := lists[j := InsertedAt(lists[j], Place(lists[j], bp.page, 0), bp.page)];
    }

    method RemoveFrom(j: nat, bp: PgInfo)
      requires Valid() && j < SHIFTS && bp.page in infos && bp == infos[bp.page]
      requires Distinct(lists[j]) && bp.page in lists[j]
      modifies this`lists, buckets[j], buckets[j].Repr`next
      ensures Valid() && lists == old(lists)[j := RemovedAt(old(lists[j]), Position(old(lists[j]), bp.page))]
    {
      hide Chains, Known, RemovedAt, Position, Distinct;
      assert Elsewhere(buckets[j], buckets[j].Repr, infos);
      TakeOff(buckets[j], bp, infos, lists[j]);
      lists := lists[j := RemovedAt(lists[j], Position(lists[j], bp.page))];
    }

    method Forget(p: nat)
      requires Valid() && p in infos && forall t :: 0 <= t < SHIFTS ==> p !in lists[t]
      modifies this
      ensures Valid() && Repr == old(Repr) && lists == old(lists)
      ensures infos == old(infos) - {p} && descr == old(descr) - {p}
    {
      hide Known, Chains;
      OneLessKnown(infos, descr, p);
      forall t | 0 <= t < SHIFTS ensures Chains(buckets[t], infos - {p}, lists[t]) {
        OneLessChains(buckets[t], infos, lists[t], p);
      }
      assert Elsewhere(this, {}, infos - {p});
      infos, descr := infos - {p}, descr - {p};
    }
  }

  lemma TakenOff(l: seq<nat>, p: nat)
    requires Distinct(l) && p in l
    ensures p !in RemovedAt(l, Position(l, p))
  {
    DistinctAt(l, Position(l, p));
  }

  /** What freeing chunk k of page p does to the lists and the descriptions. */
  ghost predicate Given(l: seq<seq<nat>>, d: map<nat, PageInfo>, p: nat, k: nat, l': seq<seq<nat>>,
                        d': map<nat, PageInfo>, gone: bool) {
    && p in d && k < |d[p].bits| && d[p].shift < |l|
    && var i := GiveChunk(d[p], k);
       var s := i.shift;
       && (gone <==> i.free != 1 && i.free == i.total)
       && d' == (if gone then d - {p} else d[p := i])
       && (i.free == 1 ==> l' == l[s := InsertedAt(l[s], Place(l[s], p, 0), p)])
       && (gone ==> p in l[s] && l' == l[s := RemovedAt(l[s], Position(l[s], p))])
       && (i.free != 1 && !gone ==> l' == l)
  }

  method NewLists() returns (b: seq<BucketList>)
    ensures |b| == SHIFTS && Distinct(b) && fresh(set x: BucketList | x in b)
    ensures forall s :: 0 <= s < SHIFTS ==> Chains(b[s], map[], []) && b[s].Repr == {}
  {
    hide Chains;
    b := [];
    while |b| < SHIFTS
      invariant |b| <= SHIFTS && Distinct(b) && fresh(set x: BucketList | x in b)
      invariant forall s :: 0 <= s < |b| ==> Chains(b[s], map[], []) && b[s].Repr == {}
    {
      var l := NewList();
      b := b + [l];
    }
  }

  method NewList() returns (b: BucketList)
    ensures fresh(b) && Chains(b, map[], []) && b.Repr == {}
  {
    b := new BucketList();
  }
}

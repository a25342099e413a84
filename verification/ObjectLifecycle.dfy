/** Object creation and deletion, over every run. */
module ObjectLifecycle {
  import opened Machine
  import opened Extents
  import opened IndexInsert
  import opened ObjectIndex
  import opened FreeList

  datatype World = World(index: Index, free: seq<Chunk>)

  function Live(w: World): seq<Extent> {
    Objects(w.index)
  }

  /** The whole pages that an object occupies. */
  function Footprint(e: Extent): Chunk {
    Chunk(e.base, if e.base <= e.end then PageRoundUp(e.end - e.base) else 0)
  }

  /** The address lies in a page of one of the objects. */
  ghost predicate Held(c: seq<Extent>, x: nat) {
    exists i :: 0 <= i < |c| && Within(Footprint(c[i]), x)
  }

  /** A non-empty object that starts at a page. */
  ghost predicate Placed(e: Extent) {
    e.base > 0 && e.base % L4_PAGESIZE == 0 && e.base < e.end
  }

  ghost predicate AllPlaced(c: seq<Extent>) {
    forall i :: 0 <= i < |c| ==> Placed(c[i])
  }

  /** Every address of the region is either free or in a page of an object, not both, and nothing
      outside the region is. */
  ghost predicate Shares(free: seq<Chunk>, c: seq<Extent>, region: Chunk) {
    && (forall x :: Within(region, x) <==> IsFree(free, x) || Held(c, x))
    && (forall x :: IsFree(free, x) ==> !Held(c, x))
  }

  /** The pages of the live objects and the free chunks partition the region. */
  ghost predicate Accounted(w: World, region: Chunk) {
    && Sound(w.index) && Tidy(w.free)
    && AllPlaced(Live(w))
    && Shares(w.free, Live(w), region)
  }

  datatype Creation = Creation(obj: seq<Extent>, world: World)

  /** The object that object_create makes of what kmalloc_obj hands out. */
  function Granted(w: World, length: nat, mem: nat): Extent {
    Extent(Alloc(w.free, length).addr, Alloc(w.free, length).addr + length, mem)
  }

  /** object_add. The object's id is where its descriptor is allocated, 0 when that fails. */
  ghost function Add(w: World, e: Extent): Creation
    requires Sound(w.index)
  {
    if e.id != 0 && Insert(w.index, e).status == BT_OK then Creation([e], World(Insert(w.index, e).index, w.free))
    else Creation([], w)
  }

  /** object_create */
  ghost function Create(w: World, length: nat, mem: nat): Creation
    requires Sound(w.index)
  {
    var a := Alloc(w.free, length);
    if a.addr == 0 then Creation([], w)
    else
      var r := Add(World(w.index, a.left), Granted(w, length, mem));
      if r.obj != [] then r else Creation([], World(w.index, Free(a.left, a.addr, length)))
  }

  datatype Destruction = Destruction(ok: bool, world: World)

  /** object_delete */
  ghost function Destroy(w: World, addr: nat): Destruction
    requires Sound(w.index)
  {
    var r := Delete(w.index, addr);
    if r.status == BT_OK && |r.found| == 1 && r.found[0].base <= r.found[0].end then
      var e := r.found[0];
      Destruction(true, World(r.index, Free(w.free, e.base, e.end - e.base)))
    else Destruction(false, w)
  }

  // ---------------------------------------------------------------- pages of objects

  lemma RoundedEnd(e: Extent)
    requires Placed(e)
    ensures Pages(Footprint(e)) && End(Footprint(e)) == PageRoundUp(e.end)
    ensures e.end <= End(Footprint(e))
  {
  }

  /** Objects that do not overlap do not share a page either. */
  lemma PagesApart(c: seq<Extent>, i: nat, j: nat)
    requires Ordered(c) && AllPlaced(c) && i < j < |c|
    ensures End(Footprint(c[i])) <= c[j].base
  {
    RoundedEnd(c[i]);
    assert Placed(c[j]);
    assert c[i].end <= c[j].base;
  }

  lemma PagesDisjoint(c: seq<Extent>, i: nat, j: nat, x: nat)
    requires Ordered(c) && AllPlaced(c) && i < |c| && j < |c|
    requires Within(Footprint(c[i]), x) && Within(Footprint(c[j]), x)
    ensures i == j
  {
    if i < j {
      PagesApart(c, i, j);
    } else if j < i {
      PagesApart(c, j, i);
    }
  }

  ghost predicate HeldByMember(c: seq<Extent>, x: nat) {
    exists e :: e in c && Within(Footprint(e), x)
  }

  lemma HeldMembers(c: seq<Extent>, x: nat)
    ensures Held(c, x) <==> HeldByMember(c, x)
  {
    if Held(c, x) {
      var i :| 0 <= i < |c| && Within(Footprint(c[i]), x);
      assert c[i] in c;
    }
    if HeldByMember(c, x) {
      var e :| e in c && Within(Footprint(e), x);
      var i :| 0 <= i < |c| && c[i] == e;
    }
  }

  /** A new object holds its own pages and no others. */
  lemma HeldAfterInsert(c: seq<Extent>, e: Extent, x: nat)
    ensures Held(InsertSorted(c, e), x) <==> Held(c, x) || Within(Footprint(e), x)
  {
    InsertSortedMembers(c, e);
    HeldMembers(c, x);
    HeldMembers(InsertSorted(c, e), x);
    var r := InsertSorted(c, e);
    if HeldByMember(c, x) {
      var y :| y in c && Within(Footprint(y), x);
      assert y in r;
    }
    if Within(Footprint(e), x) {
      assert e in r;
    }
  }

  lemma OtherBase(c: seq<Extent>, i: nat, j: nat)
    requires Ordered(c) && i < |c| && j < |c| && i != j
    ensures c[i].base != c[j].base
  {
  }

  /** An object that goes gives up its own pages and no others. */
  lemma HeldAfterWithout(c: seq<Extent>, i: nat, x: nat)
    requires Ordered(c) && AllPlaced(c) && i < |c|
    ensures Held(Without(c, c[i].base), x) <==> Held(c, x) && !Within(Footprint(c[i]), x)
  {
    var r := Without(c, c[i].base);
    WithoutMembers(c, c[i].base);
    HeldMembers(r, x);
    if HeldByMember(r, x) {
      var y :| y in r && Within(Footprint(y), x);
      var j :| 0 <= j < |c| && c[j] == y;
      if Within(Footprint(c[i]), x) {
        PagesDisjoint(c, i, j, x);
      }
    }
    if Held(c, x) && !Within(Footprint(c[i]), x) {
      var j :| 0 <= j < |c| && Within(Footprint(c[j]), x);
      OtherBase(c, i, j);
      assert c[j] in c;
    }
  }

  /** An object on free pages meets no live object, so BTIns has nothing to refuse. */
  lemma FreePagesMeetNothing(w: World, region: Chunk, e: Extent)
    requires Accounted(w, region) && Placed(e)
    requires forall x :: Within(Footprint(e), x) ==> IsFree(w.free, x)
    ensures !Meets(e, Live(w))
  {
    var c := Live(w);
    RoundedEnd(e);
    forall y | y in c ensures !Overlaps(e, y) {
      var i :| 0 <= i < |c| && c[i] == y;
      RoundedEnd(y);
      var x := if e.base <= y.base then y.base else e.base;
      if Overlaps(e, y) {
        assert Within(Footprint(c[i]), x);
        assert Held(c, x);
        assert Within(Footprint(e), x);
      }
    }
  }

  // ---------------------------------------------------------------- one call

  /** object_create succeeds exactly when there is memory for the descriptor and a free chunk that
      is big enough; the object index never refuses. On success exactly one object is added, which
      is as long as asked; on failure nothing at all has changed. Either way the region stays
      partitioned. */
  lemma CreateCorrect(w: World, region: Chunk, length: nat, mem: nat)
    requires Accounted(w, region)
    ensures var r := Create(w, length, mem);
            && Accounted(r.world, region)
            && (r.obj == [] <==> mem == 0 || length == 0 || forall i :: 0 <= i < |w.free| ==>
                w.free[i].size < PageRoundUp(length))
            && (r.obj == [] ==> r.world == w)
            && (r.obj != [] ==>
                  && |r.obj| == 1 && r.obj[0].id == mem && r.obj[0].end == r.obj[0].base + length
                  && Live(r.world) == InsertSorted(Live(w), r.obj[0])
                  && r.obj[0] !in Live(w))
  {
    if Alloc(w.free, length).addr == 0 {
      AllocCorrect(w.free, length);
    } else {
      GrantedCorrect(w, region, length, mem);
      var e, left := Granted(w, length, mem), Alloc(w.free, length).left;
      assert !Meets(e, Live(w)) by {
        FreePagesMeetNothing(w, region, e);
      }
      hide Footprint, IsFree, Alloc, Held, Tidy, Meets;
      InsertCorrect(w.index, e);
      AddedIsNew(w, e);
      if mem != 0 {
        AddedShares(w, region, e, left);
      }
    }
  }

  /** The new object is at the front of the first free chunk that is big enough. */
  lemma CreatedAtFirstFit(w: World, region: Chunk, length: nat, mem: nat)
    requires Accounted(w, region) && Create(w, length, mem).obj != []
    ensures var r := Create(w, length, mem);
            |r.obj| == 1 &&
            exists i :: FrontOfFirst(w.free, PageRoundUp(length), i, Allocation(r.obj[0].base, r.world.free))
  {
    hide Sound, Insert, Tidy, Shares, AllPlaced, PageRoundUp;
    CreateCorrect(w, region, length, mem);
    AllocTakesFirst(w.free, length);
  }

  lemma AddedIsNew(w: World, e: Extent)
    requires e.base < e.end && !Meets(e, Live(w))
    ensures e !in Live(w)
  {
    assert Overlaps(e, e);
  }

  /** What kmalloc_obj hands out are free pages, enough of them, and they stop being free. */
  lemma GrantedCorrect(w: World, region: Chunk, length: nat, mem: nat)
    requires Accounted(w, region) && Alloc(w.free, length).addr != 0
    ensures var e, left := Granted(w, length, mem), Alloc(w.free, length).left;
            && Placed(e) && Tidy(left) && Free(left, e.base, length) == w.free
            && (forall x :: Within(Footprint(e), x) ==> IsFree(w.free, x))
            && (forall x :: IsFree(left, x) <==> IsFree(w.free, x) && !Within(Footprint(e), x))
    ensures length != 0 && exists i :: 0 <= i < |w.free| && w.free[i].size >= PageRoundUp(length)
  {
    AllocCorrect(w.free, length);
    AllocThenFree(w.free, length);
    var e := Granted(w, length, mem);
    assert Footprint(e) == Chunk(e.base, PageRoundUp(length));
  }

  lemma AddedShares(w: World, region: Chunk, e: Extent, left: seq<Chunk>)
    requires Accounted(w, region) && Placed(e)
    requires forall x :: Within(Footprint(e), x) ==> IsFree(w.free, x)
    requires forall x :: IsFree(left, x) <==> IsFree(w.free, x) && !Within(Footprint(e), x)
    ensures Shares(left, InsertSorted(Live(w), e), region) && AllPlaced(InsertSorted(Live(w), e))
  {
    var c, c' := Live(w), InsertSorted(Live(w), e);
    forall x ensures Held(c', x) <==> Held(c, x) || Within(Footprint(e), x) {
      HeldAfterInsert(c, e, x);
    }
    InsertSortedMembers(c, e);
    forall i | 0 <= i < |c'| ensures Placed(c'[i]) {
      assert c'[i] in c';
    }
  }

  /** object_delete succeeds exactly when a live object starts at the address, and removes that
      object only; otherwise nothing changes. The region stays partitioned. */
  lemma DestroyCorrect(w: World, region: Chunk, addr: nat)
    requires Accounted(w, region)
    ensures var r := Destroy(w, addr);
            && Accounted(r.world, region)
            && (r.ok <==> exists i :: 0 <= i < |Live(w)| && Live(w)[i].base == addr)
            && (!r.ok ==> r.world == w)
            && Live(r.world) == Without(Live(w), addr)
  {
    hide Delete, Sound, Without, Tidy;
    DeleteCorrect(w.index, addr);
    var r, c := Delete(w.index, addr), Live(w);
    if r.status == BT_OK {
      var i :| 0 <= i < |c| && c[i] == r.found[0];
      assert Placed(c[i]);
      RemovedShares(w, region, i);
    } else {
      assert forall i :: 0 <= i < |c| && c[i].base == addr ==> c[i] in c;
    }
  }

  /** The pages of a deleted object become free, and no others. */
  lemma DestroyFrees(w: World, region: Chunk, i: nat)
    requires Accounted(w, region) && i < |Live(w)|
    ensures var r := Destroy(w, Live(w)[i].base);
            r.ok && forall x :: IsFree(r.world.free, x) <==> IsFree(w.free, x) || Within(Footprint(Live(w)[i]), x)
  {
    hide Delete, Sound, Without, Tidy, IsFree, Held, Free;
    var c := Live(w);
    var addr := c[i].base;
    DeleteCorrect(w.index, addr);
    var r := Delete(w.index, addr);
    assert c[i] in c;
    var j :| 0 <= j < |c| && c[j] == r.found[0];
    SameBase(w, i, j);
    RemovedShares(w, region, i);
  }

  lemma SameBase(w: World, i: nat, j: nat)
    requires Sound(w.index) && AllPlaced(Live(w)) && i < |Live(w)| && j < |Live(w)| &&
             Live(w)[i].base == Live(w)[j].base
    ensures i == j
  {
    var c := Live(w);
    LiveOrdered(w);
    if i != j {
      OtherBase(c, i, j);
    }
  }

  lemma LiveOrdered(w: World)
    requires Sound(w.index)
    ensures Ordered(Live(w))
  {
    if w.index.Empty? {
      assert Live(w) == [];
    }
  }

  lemma RemovedShares(w: World, region: Chunk, i: nat)
    requires Accounted(w, region) && i < |Live(w)|
    ensures var e := Live(w)[i];
            var free, c := Free(w.free, e.base, e.end - e.base), Without(Live(w), e.base);
            && Tidy(free) && Shares(free, c, region) && AllPlaced(c)
            && (forall x :: IsFree(free, x) <==> IsFree(w.free, x) || Within(Footprint(e), x))
  {
    var c := Live(w);
    var e, c' := c[i], Without(c, c[i].base);
    LiveOrdered(w);
    RoundedEnd(e);
    forall x | Within(Footprint(e), x) ensures !IsFree(w.free, x) {
      assert Held(c, x);
    }
    ReleaseCorrect(w.free, Footprint(e));
    forall x ensures Held(c', x) <==> Held(c, x) && !Within(Footprint(e), x) {
      HeldAfterWithout(c, i, x);
    }
    WithoutMembers(c, e.base);
    forall j | 0 <= j < |c'| ensures Placed(c'[j]) {
      assert c'[j] in c';
    }
  }

  /** What the steps of object_delete rely on: what the index gives up is nowhere free. */
  ghost predicate Destroyable(w: World, addr: nat) {
    && Sound(w.index) && Tidy(w.free)
    && var r := Delete(w.index, addr);
      (r.status == BT_OK ==>
         && |r.found| == 1 && r.found[0].base < r.found[0].end
         && Releasable(w.free, Chunk(r.found[0].base, PageRoundUp(r.found[0].end - r.found[0].base))))
  }

  lemma DestroySteps(w: World, region: Chunk, addr: nat)
    requires Accounted(w, region)
    ensures Destroyable(w, addr)
  {
    hide Delete, Sound, Without, Tidy, IsFree;
    DeleteCorrect(w.index, addr);
    var r, c := Delete(w.index, addr), Live(w);
    if r.status == BT_OK {
      var i :| 0 <= i < |c| && c[i] == r.found[0];
      RoundedEnd(c[i]);
      forall x | Within(Footprint(c[i]), x) ensures !IsFree(w.free, x) {
        assert Held(c, x);
      }
    }
  }

  /** What the steps of object_create rely on: what was allocated can be released again. */
  ghost predicate Creatable(w: World, length: nat, mem: nat) {
    var a := Alloc(w.free, length);
    && Sound(w.index)
    && (a.addr == 0 ==> a.left == w.free)
    && (a.addr != 0 ==>
          length > 0 && Tidy(a.left) && Releasable(a.left, Chunk(a.addr, PageRoundUp(length))))
  }

  lemma CreateSteps(w: World, region: Chunk, length: nat, mem: nat)
    requires Accounted(w, region)
    ensures Creatable(w, length, mem)
  {
    AllocCorrect(w.free, length);
    if length > 0 {
      InsertCorrect(w.index, Granted(w, length, mem));
    }
  }

  lemma GrantedEnds(w: World, length: nat, mem: nat)
    ensures Alloc(w.free, length).addr != 0 ==> Granted(w, length, mem).base < Granted(w, length, mem).end
  {
  }

  /** Creating an object and deleting it again gives back the very same free list and the same
      objects. */
  lemma CreateThenDestroy(w: World, region: Chunk, length: nat, mem: nat)
    requires Accounted(w, region) && Create(w, length, mem).obj != []
    ensures Accounted(Create(w, length, mem).world, region)
    ensures var c := Create(w, length, mem);
            var r := Destroy(c.world, c.obj[0].base);
            r.ok && r.world.free == w.free && Live(r.world) == Live(w)
  {
    hide Alloc, Free, Sound, Insert, Delete, Tidy, Shares, AllPlaced, InsertSorted, Objects;
    CreateCorrect(w, region, length, mem);
    GrantedEnds(w, length, mem);
    InsertThenDelete(w.index, Granted(w, length, mem));
    AllocThenFree(w.free, length);
  }

  /** object_find for an address: the object that contains it, found by a scan of all live ones,
      and never anything for an address that is free or outside the region. */
  lemma FindAnswers(w: World, region: Chunk, x: nat)
    requires Accounted(w, region)
    ensures Lookup(w.index, x) == Scan(Live(w), x)
    ensures Lookup(w.index, x) != [] ==> Within(region, x) && !IsFree(w.free, x)
  {
    LookupIsScan(w.index, x);
    var r, c := Scan(Live(w), x), Live(w);
    if r != [] {
      var i :| 0 <= i < |c| && c[i] == r[0];
      RoundedEnd(c[i]);
      assert Within(Footprint(c[i]), x);
      assert Held(c, x);
    }
  }

  // ---------------------------------------------------------------- runs

  datatype Request = New(length: nat, mem: nat) | Drop(addr: nat)

  ghost function After(region: Chunk, run: seq<Request>): (w: World)
    ensures Sound(w.index)
  {
    if run == [] then World(Empty, [region])
    else
      var w := After(region, run[..|run| - 1]);
      match run[|run| - 1]
      case New(length, mem) =>
        CreateSound(w, length, mem);
        Create(w, length, mem).world
      case Drop(addr) =>
        DeleteCorrect(w.index, addr);
        Destroy(w, addr).world
  }

  lemma CreateSound(w: World, length: nat, mem: nat)
    requires Sound(w.index)
    ensures Sound(Create(w, length, mem).world.index)
  {
    if length != 0 {
      InsertCorrect(w.index, Granted(w, length, mem));
    }
  }

  /** Before the first object all of the region is free. */
  lemma EmptyAccounted(w: World, region: Chunk)
    requires Pages(region) && Sound(w.index) && Live(w) == [] && w.free == [region]
    ensures Accounted(w, region)
  {
    assert [region][0] == region;
    assert forall x :: IsFree([region], x) <==> Within(region, x);
  }

  /** Over every run of object_create and object_delete on a region of whole pages, the pages of
      the live objects and the free chunks partition the region. */
  lemma {:induction false} RunsPartition(region: Chunk, run: seq<Request>)
    requires Pages(region)
    ensures Accounted(After(region, run), region)
  {
    if run == [] {
      EmptyAccounted(World(Empty, [region]), region);
    } else {
      var earlier := run[..|run| - 1];
      RunsPartition(region, earlier);
      match run[|run| - 1]
      case New(length, mem) => CreateCorrect(After(region, earlier), region, length, mem);
      case Drop(addr) => DestroyCorrect(After(region, earlier), region, addr);
    }
  }

  /** Hence BTIns inside object_create never fails, in no run. */
  lemma CreateNeverOverlaps(region: Chunk, run: seq<Request>, length: nat, mem: nat)
    requires Pages(region)
    ensures var w := After(region, run);
            Alloc(w.free, length).addr != 0 ==> Insert(w.index, Granted(w, length, mem)).status == BT_OK
  {
    RunsPartition(region, run);
    var w := After(region, run);
    if Alloc(w.free, length).addr != 0 {
      GrantedCorrect(w, region, length, mem);
      FreePagesMeetNothing(w, region, Granted(w, length, mem));
      InsertCorrect(w.index, Granted(w, length, mem));
    }
  }
}

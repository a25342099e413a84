/** The object table of kernel/src/objects.c: the B+ tree and the free list together. */
module ObjectTables {
  import opened Machine
  import opened Extents
  import opened IndexInsert
  import opened ObjectIndex
  import opened FreeList
  import opened FreeListHeap
  import opened BTrees
  import opened ObjectLifecycle

  class ObjectTable {
    const objtable: BTree
    const space: ObjectSpace
    ghost const region: Chunk

    /** The pages of the tree and the entries of the free list. */
    ghost function Repr(): set<object>
      reads objtable, space
    {
      objtable.Repr + {space} + space.Repr
    }

    ghost predicate Apart()
      reads objtable, space, Repr()
    {
      && this !in Repr() && objtable.Valid() && space.Valid()
      && objtable.Repr !! {space} + space.Repr
    }

    ghost function World(): World
      reads objtable, space, Repr()
      requires Apart()
    {
      ObjectLifecycle.World.World(objtable.Value(), space.chunks)
    }

    ghost predicate Valid()
      reads objtable, space, Repr()
    {
      Apart() && Accounted(World(), region)
    }

    /** An empty object table over a region of whole pages. */
    constructor (address: nat, size: nat)
      requires Pages(Chunk(address, size))
      ensures Valid() && fresh(Repr()) && Live(World()) == [] && region == Chunk(address, size)
    {
      objtable := new BTree();
      space := new ObjectSpace(address, size);
      region := Chunk(address, size);
      new;
      EmptyAccounted(World(), region);
    }

    /** object_find */
    method object_find(addr: nat) returns (obj: seq<Extent>)
      requires Valid()
      ensures obj == Scan(Live(World()), addr)
      ensures obj != [] ==> Within(region, addr) && !IsFree(space.chunks, addr)
    {
      FindAnswers(World(), region, addr);
      var status;
      ghost var pages;
      status, obj, pages := objtable.BTSearch(addr);
      if status != BT_OK {
        obj := [];
      }
    }

    /** object_add */
    method object_add(addr: nat, length: nat, mem: nat) returns (obj: seq<Extent>)
      requires Apart() && length > 0
      modifies objtable.Repr
      ensures Apart() && fresh(objtable.Repr - old(objtable.Repr))
      ensures old(Apart()) && obj == Add(old(World()), Extent(addr, addr + length, mem)).obj
      ensures World() == Add(old(World()), Extent(addr, addr + length, mem)).world
    {
      hide Insert, Sound, BTree.Valid, BTree.Value, ObjectSpace.Valid, Meets, InsertSorted, Adjacent;
      obj := [];
      if mem != 0 {
        var e := Extent(addr, addr + length, mem);
        InsertCorrect(objtable.Value(), e);
        var status, ngb := objtable.BTIns(e);
        if status == BT_OK {
          obj := [e];
        }
      }
      assert Apart();
    }

    /** object_create */
    method object_create(length: nat, mem: nat) returns (obj: seq<Extent>)
      requires Valid() && length <= WORD - L4_PAGESIZE
      modifies Repr()
      ensures Valid() && fresh(Repr() - old(Repr()))
      ensures obj == Create(old(World()), length, mem).obj
      ensures World() == Create(old(World()), length, mem).world
    {
      CreateCorrect(World(), region, length, mem);
      CreateSteps(World(), region, length, mem);
      hide Accounted, Create;
      obj := Make(length, mem);
    }

    /** The steps of object_create. */
    method Make(length: nat, mem: nat) returns (obj: seq<Extent>)
      requires Apart() && Creatable(World(), length, mem) && length <= WORD - L4_PAGESIZE
      modifies Repr()
      ensures Apart() && fresh(Repr() - old(Repr()))
      ensures old(Apart()) && obj == Create(old(World()), length, mem).obj
      ensures World() == Create(old(World()), length, mem).world
    {
      hide Insert, Sound, Tidy, Releasable, Alloc, Free, BTree.Valid, BTree.Value, ObjectSpace.Valid;
      var base := space.kmalloc_obj(length);
      if base == 0 {
        return [];
      }
      obj := object_add(base, length, mem);
      if obj == [] {
        space.kfree_obj(base, length);
      }
      assert Apart();
    }

    /** object_delete */
    method object_delete(addr: nat) returns (ok: bool)
      requires Valid()
      modifies Repr()
      ensures Valid() && fresh(Repr() - old(Repr()))
      ensures ok == Destroy(old(World()), addr).ok
      ensures World() == Destroy(old(World()), addr).world
    {
      DestroyCorrect(World(), region, addr);
      DestroySteps(World(), region, addr);
      hide Accounted, Destroy;
      ok := Drop(addr);
    }

    /** The steps of object_delete. */
    method Drop(addr: nat) returns (ok: bool)
      requires Apart() && Destroyable(World(), addr)
      modifies Repr()
      ensures Apart() && fresh(Repr() - old(Repr()))
      ensures old(Apart()) && ok == Destroy(old(World()), addr).ok
      ensures World() == Destroy(old(World()), addr).world
    {
      hide Delete, Sound, Tidy, Releasable, Free, BTree.Valid, BTree.Value, ObjectSpace.Valid;
      var status, obj := objtable.BTDel(addr);
      ok := status == BT_OK;
      if ok {
        space.kfree_obj(obj[0].base, obj[0].end - obj[0].base);
      }
      assert Apart();
    }
  }
}

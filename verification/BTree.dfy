/** The B+ tree of kernel/lib/klibc/btree.c as its callers see it. */
module BTrees {
  import opened Extents
  import opened IndexTree
  import opened IndexInsert
  import opened IndexDelete
  import opened ObjectIndex
  import opened BTreePages
  import opened BTreeFamilies
  import opened BTreeInsert
  import opened BTreeDelete

  class BTree {
    var depth: nat
    var root: Page?
    ghost var Repr: set<object>

    ghost predicate Valid()
      reads this, Repr
      ensures Valid() ==> this in Repr
    {
      && this in Repr
      && (root == null ==> depth == 0)
      && (root != null ==>
            && root in Repr && root.Repr <= Repr && this !in root.Repr
            && root.Valid() && WellFormed(depth, root.tree))
    }

    /** The index that the pages represent. */
    ghost function Value(): (x: Index)
      requires Valid()
      reads this, Repr
      ensures Sound(x)
    {
      if root == null then Empty else Rooted(depth, root.tree)
    }

    /** The stored objects in key order. */
    ghost function Stored(): seq<Extent>
      requires Valid()
      reads this, Repr
    {
      Objects(Value())
    }

    /** An empty tree, as objtable_init sets it up. */
    constructor ()
      ensures Valid() && fresh(Repr) && Stored() == []
    {
      depth, root, Repr := 0, null, {this};
    }

    /** BTSearch. It visits as many pages as the tree is deep, and finds what a scan of all stored
        objects finds. */
    method BTSearch(key: Key) returns (status: Status, obj: seq<Extent>, ghost pages: nat)
      requires Valid()
      ensures status == BT_OK <==> exists e :: e in Stored() && Matches(e, key)
      ensures status == BT_OK || status == BT_NOT_FOUND
      ensures status == BT_OK ==> obj == Scan(Stored(), key)
      ensures pages == depth
    {
      if root == null {
        return BT_NOT_FOUND, [], 0;
      }
      var e;
      e, pages := FindLeaf(root, key, depth);
      CandidateIsOnlyMatch(depth, root.tree, key);
      SearchAgreesWithScan(depth, root.tree, key);
      return if Matches(e, key) then BT_OK else BT_NOT_FOUND, [e], pages;
    }

    /** BTIns. An object is refused exactly when it meets a stored one, and then no page changes.
        Otherwise it is added in key order and nothing else changes; `ngb` is next to it. */
    method BTIns(obj: Extent) returns (status: Status, ngb: seq<Extent>)
      requires Valid() && obj.base < obj.end
      modifies Repr
      ensures Valid() && fresh(Repr - old(Repr))
      ensures Value() == Insert(old(Value()), obj).index
      ensures status == Insert(old(Value()), obj).status
      ensures status == BT_OK <==> !Meets(obj, old(Stored()))
      ensures status == BT_OK ==> Stored() == InsertSorted(old(Stored()), obj)
      ensures status != BT_OK ==> unchanged(old(Repr)) && Stored() == old(Stored())
      ensures status == BT_OK ==>
                if old(Stored()) == [] then ngb == [] else |ngb| == 1 && Adjacent(Stored(), obj, ngb[0])
    {
      InsertCorrect(Value(), obj);
      status, ngb := Put(obj);
    }

    /** The steps of BTIns. */
    method Put(obj: Extent) returns (status: Status, ngb: seq<Extent>)
      requires Valid() && Sound(Insert(Value(), obj).index)
      modifies Repr
      ensures old(Valid()) && Valid() && fresh(Repr - old(Repr))
      ensures Value() == Insert(old(Value()), obj).index
      ensures status == Insert(old(Value()), obj).status
      ensures status == BT_OK ==> ngb == Insert(old(Value()), obj).ngb
      ensures status != BT_OK ==> unchanged(old(Repr))
    {
      if root == null {
        var newroot := NewLeaf(obj);
        SetRoot(newroot, 1);
        status, ngb := BT_OK, [];
      } else {
        status, ngb := PutBelow(obj);
      }
    }

    /** The same when there is a root page. */
    method PutBelow(obj: Extent) returns (status: Status, ngb: seq<Extent>)
      requires Valid() && root != null && Sound(Insert(Value(), obj).index)
      modifies Repr
      ensures old(Valid()) && Valid() && fresh(Repr - old(Repr))
      ensures Value() == Insert(old(Value()), obj).index
      ensures status == Insert(old(Value()), obj).status
      ensures status == BT_OK ==> ngb == Insert(old(Value()), obj).ngb
      ensures status != BT_OK ==> unchanged(old(Repr))
    {
      hide Insert, Sound, WellFormed, Page.Valid;
      var newroot, grown;
      status, ngb, newroot, grown := InsertAtRoot(root, obj, depth);
      if status == BT_OK {
        SetRoot(newroot, if grown then depth + 1 else depth);
      }
    }

    /** BTDel. It finds an object exactly when one starts at the key, removes that one only and
        returns it; when there is none, no page changes. */
    method BTDel(key: Key) returns (status: Status, obj: seq<Extent>)
      requires Valid()
      modifies Repr
      ensures Valid() && fresh(Repr - old(Repr))
      ensures Value() == Delete(old(Value()), key).index
      ensures status == Delete(old(Value()), key).status
      ensures status == BT_OK ==> obj == Delete(old(Value()), key).found
      ensures status == BT_OK <==> exists e :: e in old(Stored()) && e.base == key
      ensures status == BT_OK ==> |obj| == 1 && obj[0] in old(Stored()) && obj[0].base == key
      ensures status != BT_OK ==> status == BT_NOT_FOUND && unchanged(old(Repr))
      ensures Stored() == Without(old(Stored()), key)
    {
      DeleteCorrect(Value(), key);
      status, obj := Take(key);
    }

    /** The steps of BTDel. */
    method Take(key: Key) returns (status: Status, obj: seq<Extent>)
      requires Valid() && Sound(Delete(Value(), key).index)
      modifies Repr
      ensures old(Valid()) && Valid() && fresh(Repr - old(Repr))
      ensures Value() == Delete(old(Value()), key).index
      ensures status == Delete(old(Value()), key).status
      ensures status == BT_OK ==> obj == Delete(old(Value()), key).found
      ensures status != BT_OK ==> unchanged(old(Repr))
    {
      if root == null {
        status, obj := BT_NOT_FOUND, [];
      } else {
        hide Delete, Sound, WellFormed, Page.Valid;
        var newroot, newdepth;
        status, obj, newroot, newdepth := DeleteAtRoot(root, key, depth);
        if status == BT_OK {
          if newroot == null {
            root, depth, Repr := null, 0, {this};
          } else {
            SetRoot(newroot, newdepth);
          }
        }
      }
    }

    /** Make a page the root of the tree. */
    method SetRoot(newroot: Page, d: nat)
      requires newroot.Valid() && Sound(Rooted(d, newroot.tree)) && this !in newroot.Repr
      modifies this
      ensures Valid() && Value() == Rooted(d, newroot.tree) && Repr == {this} + newroot.Repr
    {
      root, depth, Repr := newroot, d, {this} + newroot.Repr;
    }
  }

  /** BTInsert on the root, and the new root when that one split. */
  method InsertAtRoot(root: Page, e: Extent, ghost d: nat)
    returns (status: Status, ngb: seq<Extent>, newroot: Page, grown: bool)
    requires root.Valid() && WellFormed(d, root.tree)
    modifies root.Repr
    ensures newroot.Valid() && fresh(newroot.Repr - old(root.Repr))
    ensures WellFormed(d, old(root.tree))
    ensures RootAnswers(Insert(Rooted(d, old(root.tree)), e), d, old(root.tree), status, ngb, newroot.tree, grown)
    ensures status != BT_OK ==> unchanged(old(root.Repr))
  {
    ghost var t := root.tree;
    StatusIsError(d, t, e);
    hide Shape, Ordered, Contents, InsertInto;
    newroot, grown := root, false;
    var kprom, pprom;
    status, kprom, pprom, ngb := BTInsert(root, e, d);
    if status == BT_PROMOTION {
      newroot := NewRootPage(root, kprom, pprom.p);
      grown, status := true, BT_OK;
    }
  }

  /** The return values say what an insertion at the root says. */
  ghost predicate RootAnswers(o: Outcome, d: nat, before: Tree, status: Status, ngb: seq<Extent>, after: Tree,
      grown: bool) {
    && status == o.status
    && if status == BT_OK then ngb == o.ngb && o.index == Rooted(if grown then d + 1 else d, after)
       else o.index == Rooted(d, before)
  }

  /** BTDelete on the root, and the new root when that one is left without keys. */
  method DeleteAtRoot(root: Page, k: Key, d: nat)
    returns (status: Status, obj: seq<Extent>, newroot: Page?, newdepth: nat)
    requires root.Valid() && WellFormed(d, root.tree)
    modifies root.Repr
    ensures newroot != null ==> newroot.Valid() && newroot.Repr <= old(root.Repr)
    ensures WellFormed(d, old(root.tree))
    ensures var r := Delete(Rooted(d, old(root.tree)), k);
            && status == r.status
            && (status == BT_OK ==>
                  && obj == r.found
                  && r.index == if newroot == null then Empty else Rooted(newdepth, newroot.tree))
    ensures status != BT_OK ==> unchanged(old(root.Repr))
  {
    ghost var t := root.tree;
    DeleteHolds(d, t, k);
    LeafIsBottom(root, d);
    status, obj := BTDelete(root, k, d);
    newroot, newdepth := root, d;
    Unpack(root);
    if status == BT_LESS_THAN_MIN {
      if root.isleaf {
        if root.count < 0 {
          newroot, newdepth := null, 0;
        }
      } else {
        if root.count == 0 {
          ChildFits(root, 0);
          newroot, newdepth := root.child[0].p, d - 1;
        }
      }
      status := BT_OK;
    }
  }

  /** A page with d levels below which a search can go on. */
  ghost predicate Searchable(p: Page, d: nat)
    reads p, p.Repr
  {
    p.Valid() && d > 0 && Shape(d, p.tree) && Ordered(Contents(p.tree))
  }

  /** The descent of BTSearch. */
  method FindLeaf(root: Page, key: Key, ghost depth: nat) returns (e: Extent, ghost pages: nat)
    requires Searchable(root, depth)
    ensures e == Candidate(depth, root.tree, key) && pages == depth
  {
    hide Ordered, Contents, Page.Valid, Candidate;
    var current := root;
    ghost var d := depth;
    pages := 0;
    while true
      invariant Searchable(current, d) && pages + d == depth
      invariant Candidate(d, current.tree, key) == Candidate(depth, root.tree, key)
      decreases d
    {
      var hi := SearchPage(current, key, d);
      pages := pages + 1;
      if current.isleaf {
        return current.child[hi].e, pages;
      }
      current, d := current.child[hi].p, d - 1;
    }
  }

  /** The first page of a tree: a leaf with one object. */
  method NewLeaf(e: Extent) returns (p: Page)
    ensures p.Valid() && fresh(p.Repr) && p.tree == Page([], [Obj(e)])
  {
    p := new Page(true);
    p.count := 0;
    p.child[0] := Object(e);
    assert p.Slots() == [Object(e)];
    Seat(p, [], [Obj(e)], {});
  }

  /** The new root above a root that split. */
  method NewRootPage(l: Page, k: Key, r: Page) returns (p: Page)
    requires l.Valid() && r.Valid() && l.Repr !! r.Repr
    ensures p.Valid() && fresh(p) && fresh(p.Repr - l.Repr - r.Repr) && p.tree == Page([k], [l.tree, r.tree])
  {
    p := new Page(false);
    p.count := 1;
    p.child[0], p.child[1] := Sub(l), Sub(r);
    p.key[0] := k;
    assert p.Slots() == [Sub(l), Sub(r)] && p.Keys() == [k];
    FamilyOne(false, Sub(l), l.tree, l.Repr);
    FamilyOne(false, Sub(r), r.tree, r.Repr);
    FamilyJoin(false, [Sub(l)], [l.tree], l.Repr, [Sub(r)], [r.tree], r.Repr);
    assert [Sub(l)] + [Sub(r)] == [Sub(l), Sub(r)] && [l.tree] + [r.tree] == [l.tree, r.tree];
    Seat(p, [k], [l.tree, r.tree], l.Repr + r.Repr);
  }

  /** One round of the search loop: the child that the key routes to. */
  method SearchPage(p: Page, key: Key, ghost d: nat) returns (hi: nat)
    requires Searchable(p, d)
    ensures p.InRange() && hi <= p.count && (p.isleaf <==> d == 1)
    ensures p.tree.Page? && hi == Rank(p.tree.keys, key) && |p.tree.kids| == p.count + 1
    ensures p.isleaf ==> p.child[hi].Object? && p.child[hi].e == Candidate(d, p.tree, key)
    ensures !p.isleaf ==>
              && p.child[hi].Sub? && Searchable(p.child[hi].p, d - 1)
              && Candidate(d, p.tree, key) == Candidate(d - 1, p.child[hi].p.tree, key)
  {
    Unpack(p);
    LeafIsBottom(p, d);
    SeparatorsAscend(d - 1, p.tree.keys, p.tree.kids);
    Route(d - 1, p.tree.keys, p.tree.kids, key);
    var found;
    hi, found := p.Locate(key);
    ChildFits(p, hi);
  }
}

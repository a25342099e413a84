/** The whole object index as a value, over one call and over every run of calls. */
module ObjectIndex {
  import opened Extents
  import opened IndexTree
  import opened IndexInsert
  import opened IndexDelete

  datatype Index = Empty | Rooted(depth: nat, top: Tree)

  ghost predicate Sound(x: Index) {
    x.Rooted? ==> WellFormed(x.depth, x.top)
  }

  function Objects(x: Index): seq<Extent> {
    if x.Empty? then [] else Contents(x.top)
  }

  datatype Outcome = Outcome(status: Status, ngb: seq<Extent>, index: Index)

  /** BTIns: the first object makes a leaf root; a split of the root makes a new one above it. */
  ghost function Insert(x: Index, e: Extent): Outcome
    requires Sound(x)
  {
    if x.Empty? then Outcome(BT_OK, [], Rooted(1, Page([], [Obj(e)])))
    else
      match InsertInto(x.depth, x.top, e)
      case Rejected(why) => Outcome(why, [], x)
      case Inserted(t, ngb) => Outcome(BT_OK, [ngb], Rooted(x.depth, t))
      case Promoted(l, k, r, ngb) => Outcome(BT_OK, [ngb], Rooted(x.depth + 1, Page([k], [l, r])))
  }

  datatype Deletion = Deletion(status: Status, found: seq<Extent>, index: Index)

  /** The root after a deletion: an emptied leaf disappears, an inner root without keys gives way
      to its only child. */
  function NewRoot(d: nat, t: Tree): Index
    requires t.Page?
  {
    if t.kids == [] then Empty
    else if d > 1 && t.keys == [] then Rooted(d - 1, t.kids[0])
    else Rooted(d, t)
  }

  /** BTDel. */
  ghost function Delete(x: Index, k: Key): Deletion
    requires Sound(x)
  {
    if x.Empty? then Deletion(BT_NOT_FOUND, [], x)
    else
      DeleteHolds(x.depth, x.top, k);
      match DeleteFrom(x.depth, x.top, k)
      case Missing => Deletion(BT_NOT_FOUND, [], x)
      case Removed(t, e) => Deletion(BT_OK, [e], NewRoot(x.depth, t))
  }

  /** BTSearch. */
  ghost function Lookup(x: Index, k: Key): seq<Extent>
    requires Sound(x)
  {
    if x.Rooted? && Matches(Candidate(x.depth, x.top, k), k) then [Candidate(x.depth, x.top, k)] else []
  }

  lemma LookupIsScan(x: Index, k: Key)
    requires Sound(x)
    ensures Lookup(x, k) == Scan(Objects(x), k)
  {
    if x.Rooted? {
      SearchAgreesWithScan(x.depth, x.top, k);
    }
  }

  lemma TwoChildRoot(d: nat, l: Tree, k: Key, r: Tree)
    requires Shape(d, l) && Shape(d, r) && Full(l) && Full(r) && k == Least(r)
    ensures Shape(d + 1, Page([k], [l, r])) && Contents(Page([k], [l, r])) == Contents(l) + Contents(r)
  {
    assert [l, r][1..] == [r];
    assert AllContents([r]) == Contents(r);
  }

  lemma InsertShape(x: Index, e: Extent)
    requires Sound(x) && Insert(x, e).status == BT_OK && x.Rooted?
    ensures var x' := Insert(x, e).index;
            && x'.Rooted? && x'.depth > 0 && Shape(x'.depth, x'.top) &&
                Contents(x'.top) == InsertSorted(Contents(x.top), e)
            && (x'.depth > 1 ==> |x'.top.keys| >= 1)
            && Insert(x, e).ngb != [] && Adjacent(InsertSorted(Contents(x.top), e), e, Insert(x, e).ngb[0])
  {
    StatusIsError(x.depth, x.top, e);
    InsertHolds(x.depth, x.top, e);
    InsertedIsNoSmaller(x.depth, x.top, e);
    var r := InsertInto(x.depth, x.top, e);
    hide InsertSorted, Ordered, Adjacent;
    if r.Promoted? {
      TwoChildRoot(x.depth, r.left, r.key, r.right);
    }
  }

  /** BTIns accepts an extent exactly when it meets no stored one. Then the index is well formed
      again and holds the old objects and the new one, in order, and the neighbour it reports is
      next to the new one. Otherwise nothing changes. */
  lemma InsertCorrect(x: Index, e: Extent)
    requires Sound(x) && e.base < e.end
    ensures var o := Insert(x, e);
            && (o.status == BT_OK <==> !Meets(e, Objects(x)))
            && (o.status != BT_OK ==> o.index == x && o.ngb == [])
            && (o.status == BT_OK ==>
                  && Sound(o.index)
                  && Objects(o.index) == InsertSorted(Objects(x), e)
                  && (o.ngb == [] <==> x.Empty?)
                  && (o.ngb != [] ==> Adjacent(Objects(o.index), e, o.ngb[0])))
  {
    if x.Rooted? {
      InsertRejects(x.depth, x.top, e);
      StatusIsError(x.depth, x.top, e);
      hide Shape, InsertInto;
      if Insert(x, e).status == BT_OK {
        InsertShape(x, e);
        InsertSortedOrdered(Contents(x.top), e);
      }
    } else {
      assert AllContents([Obj(e)]) == [e];
    }
  }

  /** BTDel finds an object exactly when one starts at the key, and removes that one only. */
  lemma DeleteCorrect(x: Index, k: Key)
    requires Sound(x)
    ensures var r := Delete(x, k);
            && (r.status == BT_OK <==> exists e :: e in Objects(x) && e.base == k)
            && (r.status == BT_OK ==> |r.found| == 1 && r.found[0] in Objects(x) && r.found[0].base == k)
            && (r.status != BT_OK ==> r.status == BT_NOT_FOUND && r.found == [] && r.index == x)
            && Sound(r.index)
            && Objects(r.index) == Without(Objects(x), k)
  {
    if x.Rooted? {
      DeleteHolds(x.depth, x.top, k);
      WithoutOrdered(Contents(x.top), k);
      if DeleteFrom(x.depth, x.top, k).Missing? {
        WithoutNone(Contents(x.top), k);
      } else {
        RootShrinks(x.depth, x.top, DeleteFrom(x.depth, x.top, k).t);
      }
    }
  }

  lemma RootShrinks(d: nat, t: Tree, t': Tree)
    requires d > 0 && Shape(d, t) && (d > 1 ==> |t.keys| >= 1) && Shrunk(d, t, t') && Ordered(Contents(t'))
    ensures Sound(NewRoot(d, t')) && Objects(NewRoot(d, t')) == Contents(t')
  {
    if t'.kids != [] && d > 1 && t'.keys == [] {
      var c := t'.kids[0];
      assert AllContents(t'.kids[1..]) == [];
      assert Contents(t') == Contents(c);
      assert Shape(d - 1, c) && Full(c);
    }
  }

  // ---------------------------------------------------------------- runs

  datatype Call = Ins(e: Extent) | Del(k: Key)

  /** The calls hand in non-empty objects only. */
  predicate Proper(calls: seq<Call>) {
    forall i :: 0 <= i < |calls| ==> calls[i].Ins? ==> calls[i].e.base < calls[i].e.end
  }

  ghost function After(calls: seq<Call>): (x: Index)
    requires Proper(calls)
    ensures Sound(x)
  {
    if calls == [] then Empty
    else
      var before := After(calls[..|calls| - 1]);
      match calls[|calls| - 1]
      case Ins(e) => InsertCorrect(before, e); Insert(before, e).index
      case Del(k) => DeleteCorrect(before, k); Delete(before, k).index
  }

  /** The same calls on a plain ordered list: an insertion that meets a stored object is refused. */
  ghost function ListAfter(calls: seq<Call>): seq<Extent>
  {
    if calls == [] then []
    else
      var before := ListAfter(calls[..|calls| - 1]);
      match calls[|calls| - 1]
      case Ins(e) => if Meets(e, before) then before else InsertSorted(before, e)
      case Del(k) => Without(before, k)
  }

  /** Over every run the tree refines the list, and what it stores is ordered and disjoint. */
  lemma {:induction false} RunsRefineList(calls: seq<Call>)
    requires Proper(calls)
    ensures Objects(After(calls)) == ListAfter(calls) && Ordered(ListAfter(calls))
  {
    if calls != [] {
      var earlier := calls[..|calls| - 1];
      RunsRefineList(earlier);
      match calls[|calls| - 1]
      case Ins(e) => InsertCorrect(After(earlier), e);
      case Del(k) => DeleteCorrect(After(earlier), k);
    }
    if After(calls).Empty? {
      assert Ordered([]);
    }
  }

  /** An accepted insertion is undone by deleting the base it added. */
  lemma InsertThenDelete(x: Index, e: Extent)
    requires Sound(x) && e.base < e.end && Insert(x, e).status == BT_OK
    ensures Sound(Insert(x, e).index)
    ensures var r := Delete(Insert(x, e).index, e.base);
            r.status == BT_OK && r.found == [e] && Objects(r.index) == Objects(x)
  {
    InsertCorrect(x, e);
    var x', c := Insert(x, e).index, Objects(x);
    DeleteCorrect(x', e.base);
    InsertSortedMembers(c, e);
    forall y | y in c ensures y.base != e.base {
      assert y.base < y.end;
      assert !Overlaps(e, y);
    }
    InsertThenWithout(c, e);
  }
}

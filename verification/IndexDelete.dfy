/** Deletion on the index as a value. */
module IndexDelete {
  import opened Extents
  import opened Sequences
  import opened IndexTree

  datatype DeleteResult = Missing | Removed(t: Tree, e: Extent)

  /** BTDeletePage: drop key idx and the child to its right, or the first key and child when
      idx < 0. A page without keys loses its only child. */
  function WithoutEntry(keys: seq<Key>, kids: seq<Tree>, idx: int): (p: Tree)
    requires |kids| == |keys| + 1 && -1 <= idx && (keys == [] ==> idx == -1) && (keys != [] ==> idx < |keys|)
    ensures p.Page? && |p.kids| == |keys| && |p.keys| == if keys == [] then 0 else |keys| - 1
  {
    if keys == [] then Page([], [])
    else
      Page(RemovedAt(keys, if idx < 0 then 0 else idx), RemovedAt(kids, idx + 1))
  }

  /** BTCollapse: two neighbours with the separator between them, as one page. */
  function Join(l: Tree, r: Tree): (p: Tree)
    requires l.Page? && r.Page?
    ensures p.Page? && |p.keys| == |l.keys| + 1 + |r.keys| && |p.kids| == |l.kids| + |r.kids|
  {
    Page(Laid(l.keys, Least(r), r.keys), Paired(l.kids, r.kids))
  }

  /** The number of keys that BTRedistribute leaves on the left. */
  function Half(l: Tree, r: Tree): nat
    requires l.Page? && r.Page?
  {
    (|l.keys| + |r.keys|) / 2
  }

  /** The fattest neighbour of child hi, the right one on a tie. */
  function Sibling(kids: seq<Tree>, hi: nat): (s: nat)
    requires |kids| >= 2 && hi < |kids| && forall i :: 0 <= i < |kids| ==> kids[i].Page?
    ensures s < |kids| && (s == hi + 1 || s == hi - 1)
  {
    if hi == 0 then 1
    else if hi == |kids| - 1 then hi - 1
    else if |kids[hi - 1].keys| > |kids[hi + 1].keys| then hi - 1
    else hi + 1
  }

  ghost predicate Paged(t: Tree) {
    t.Page? && |t.kids| == |t.keys| + 1
  }

  ghost predicate AllPages(kids: seq<Tree>) {
    forall i :: 0 <= i < |kids| ==> Paged(kids[i])
  }

  lemma PagesBelow(d: nat, t: Tree)
    requires Shape(d, t) && d > 1
    ensures AllPages(t.kids) && forall i :: 0 <= i < |t.kids| ==> |t.kids[i].keys| >= 1
  {
  }

  /** The page after child hi has been served: untouched when the child is full enough, otherwise
      keys are moved over from the sibling or the two are collapsed. */
  function Rebalance(keys: seq<Key>, kids: seq<Tree>, hi: nat): (p: Tree)
    requires |kids| == |keys| + 1 && |keys| >= 1 && hi <= |keys| && AllPages(kids)
    ensures Paged(p)
  {
    if |kids[hi].keys| >= BT_MINKEY then Page(keys, kids)
    else
      var s := Sibling(kids, hi);
      var a := if s < hi then s else hi;
      if |kids[s].keys| > BT_MINKEY then Balanced(keys, kids, a)
      else Collapsed(keys, kids, a)
  }

  function Balanced(keys: seq<Key>, kids: seq<Tree>, a: nat): (p: Tree)
    requires |kids| == |keys| + 1 && a < |keys| && AllPages(kids)
    ensures Paged(p)
  {
    var j, half := Join(kids[a], kids[a + 1]), Half(kids[a], kids[a + 1]);
    Page(keys[a := j.keys[half]], kids[a := TakeKeys(j, half)][a + 1 := DropKeys(j, half)])
  }

  function Collapsed(keys: seq<Key>, kids: seq<Tree>, a: nat): (p: Tree)
    requires |kids| == |keys| + 1 && a < |keys| && AllPages(kids)
    ensures Paged(p)
  {
    WithoutEntry(keys, kids[a := Join(kids[a], kids[a + 1])], a)
  }

  /** A separator that was the deleted key becomes the new least key of the child. */
  function Refreshed(keys: seq<Key>, hi: nat, k: Key, t: Tree): (r: seq<Key>)
    requires hi <= |keys|
    ensures |r| == |keys|
  {
    if hi > 0 && keys[hi - 1] == k then keys[hi - 1 := Least(t)] else keys
  }

  /** The pages on the way down all have a sibling to turn to. */
  ghost predicate Deletable(d: nat, t: Tree) {
    d > 0 && Shape(d, t) && (d > 1 ==> |t.keys| >= 1)
  }

  /** What is left of a page after a deletion: it is well shaped with at most one key less, except
      that a leaf with one object is emptied. */
  ghost predicate Shrunk(d: nat, t: Tree, t': Tree) {
    if d == 1 && t.Page? && t.keys == [] then t' == Page([], [])
    else t.Page? && t'.Page? && Shape(d, t') && |t'.keys| >= |t.keys| - 1
  }

  /** BTDelete. */
  ghost function DeleteFrom(d: nat, t: Tree, k: Key): (r: DeleteResult)
    requires Deletable(d, t)
    ensures r.Removed? && |t.keys| >= 1 ==> Paged(r.t)
    decreases d
  {
    var hi := Rank(t.keys, k);
    if d == 1 then
      if t.kids[hi].e.base != k then Missing
      else Removed(WithoutEntry(t.keys, t.kids, hi - 1), t.kids[hi].e)
    else
      PagesBelow(d, t);
      match DeleteFrom(d - 1, t.kids[hi], k)
      case Missing => Missing
      case Removed(t', e) =>
        Removed(Rebalance(Refreshed(t.keys, hi, k, t'), t.kids[hi := t'], hi), e)
  }

  lemma RowWithoutEntry(d: nat, keys: seq<Key>, kids: seq<Tree>, idx: int)
    requires Row(d, keys, kids) && |keys| >= 1 && -1 <= idx < |keys|
    ensures var p := WithoutEntry(keys, kids, idx);
            && Row(d, p.keys, p.kids)
            && Contents(p) == AllContents(kids[..idx + 1]) + AllContents(kids[idx + 2..])
  {
    var p := WithoutEntry(keys, kids, idx);
    AllContentsConcat(kids[..idx + 1], kids[idx + 2..]);
    forall i | 0 <= i < |p.keys| ensures p.keys[i] == Least(p.kids[i + 1]) {
      if idx < 0 || i >= idx {
        assert p.keys[i] == keys[i + 1] && p.kids[i + 1] == kids[i + 2];
      } else {
        assert p.keys[i] == keys[i] && p.kids[i + 1] == kids[i + 1];
      }
    }
  }

  lemma LeafShrinks(t: Tree, idx: int)
    requires Shape(1, t) && -1 <= idx && (t.keys == [] ==> idx == -1) && (t.keys != [] ==> idx < |t.keys|)
    ensures Shrunk(1, t, WithoutEntry(t.keys, t.kids, idx))
  {
    if t.keys != [] {
      RowWithoutEntry(0, t.keys, t.kids, idx);
    }
  }

  lemma JoinHolds(d: nat, l: Tree, r: Tree)
    requires l.Page? && r.Page? && Row(d, l.keys, l.kids) && Row(d, r.keys, r.kids)
    ensures var j := Join(l, r);
            && Row(d, j.keys, j.kids)
            && Contents(j) == Contents(l) + Contents(r)
            && Least(j) == Least(l)
  {
    var j := Join(l, r);
    AllContentsConcat(l.kids, r.kids);
    forall i | 0 <= i < |j.keys| ensures j.keys[i] == Least(j.kids[i + 1]) {
      if i < |l.keys| {
        assert j.kids[i + 1] == l.kids[i + 1];
      } else if i == |l.keys| {
        assert j.kids[i + 1] == r.kids[0];
      } else {
        var n := i - |l.keys| - 1;
        assert j.keys[i] == r.keys[n] && j.kids[i + 1] == r.kids[n + 1];
      }
    }
  }

  /** Replacing two neighbouring children and the separator between them. */
  lemma RowReplaceTwo(d: nat, keys: seq<Key>, kids: seq<Tree>, a: nat, l: Tree, k: Key, r: Tree)
    requires Row(d, keys, kids) && a < |keys| && Shape(d, l) && Shape(d, r)
    requires k == Least(r) && Least(l) == Least(kids[a])
    requires Contents(l) + Contents(r) == Contents(kids[a]) + Contents(kids[a + 1])
    ensures Row(d, keys[a := k], kids[a := l][a + 1 := r])
    ensures AllContents(kids[a := l][a + 1 := r]) == AllContents(kids)
  {
    hide Contents, AllContents, Least;
    TwoReplaced(kids, a, l, r);
    var keys', kids' := keys[a := k], kids[a := l][a + 1 := r];
    forall i | 0 <= i < |keys'| ensures keys'[i] == Least(kids'[i + 1]) {
      assert keys[i] == Least(kids[i + 1]);
    }
  }

  lemma TwoReplaced(kids: seq<Tree>, a: nat, l: Tree, r: Tree)
    requires a + 1 < |kids| && Contents(l) + Contents(r) == Contents(kids[a]) + Contents(kids[a + 1])
    ensures AllContents(kids[a := l][a + 1 := r]) == AllContents(kids)
  {
    var kids' := kids[a := l][a + 1 := r];
    TwoContents(kids, a);
    TwoContents(kids', a);
    assert kids'[..a] == kids[..a] && kids'[a + 2..] == kids[a + 2..];
  }

  lemma TwoContents(kids: seq<Tree>, a: nat)
    requires a + 1 < |kids|
    ensures AllContents(kids) ==
            AllContents(kids[..a]) + (Contents(kids[a]) + Contents(kids[a + 1])) + AllContents(kids[a + 2..])
  {
    AllContentsAt(kids, a);
    assert kids[a + 1..][1..] == kids[a + 2..];
    Regroup(AllContents(kids[..a]), Contents(kids[a]), Contents(kids[a + 1]), AllContents(kids[a + 2..]));
  }

  /** Every child of a row except possibly one is at least half full. */
  ghost predicate FullBut(kids: seq<Tree>, a: int) {
    forall i :: 0 <= i < |kids| && i != a ==> Full(kids[i])
  }

  ghost predicate FullButTwo(kids: seq<Tree>, a: nat) {
    forall i :: 0 <= i < |kids| && i != a && i != a + 1 ==> Full(kids[i])
  }

  lemma JoinedRow(d: nat, l: Tree, r: Tree)
    requires d > 0 && Shape(d, l) && Shape(d, r)
    ensures var j := Join(l, r);
            && Row(d - 1, j.keys, j.kids)
            && Contents(j) == Contents(l) + Contents(r)
            && Least(j) == Least(l)
            && forall i :: 0 <= i < |j.kids| ==> Full(j.kids[i])
  {
    JoinHolds(d - 1, l, r);
  }

  /** BTRedistribute: two pages with enough keys for both come out shaped and at least half full. */
  lemma CutJoinHolds(d: nat, l: Tree, r: Tree)
    requires d > 0 && Shape(d, l) && Shape(d, r) && |l.keys| + |r.keys| >= 2 * BT_MINKEY
    ensures var j, half := Join(l, r), Half(l, r);
            && Shape(d, TakeKeys(j, half)) && Shape(d, DropKeys(j, half))
            && Full(TakeKeys(j, half)) && Full(DropKeys(j, half))
            && j.keys[half] == Least(DropKeys(j, half)) && Least(TakeKeys(j, half)) == Least(l)
            && Contents(TakeKeys(j, half)) + Contents(DropKeys(j, half)) == Contents(l) + Contents(r)
  {
    JoinedRow(d, l, r);
    CutRow(d - 1, Join(l, r), Half(l, r));
  }

  lemma BalancedHolds(d: nat, keys: seq<Key>, kids: seq<Tree>, a: nat)
    requires d > 0 && Row(d, keys, kids) && |keys| <= BT_MAXKEY && a < |keys| && AllPages(kids)
    requires FullButTwo(kids, a) && |kids[a].keys| + |kids[a + 1].keys| >= 2 * BT_MINKEY
    ensures var p := Balanced(keys, kids, a);
            Shape(d + 1, p) && Contents(p) == AllContents(kids) && |p.keys| == |keys|
  {
    var l, r := kids[a], kids[a + 1];
    var j, half := Join(l, r), Half(l, r);
    CutJoinHolds(d, l, r);
    RowReplaceTwo(d, keys, kids, a, TakeKeys(j, half), j.keys[half], DropKeys(j, half));
  }

  lemma CollapsedHolds(d: nat, keys: seq<Key>, kids: seq<Tree>, a: nat)
    requires d > 0 && Row(d, keys, kids) && |keys| <= BT_MAXKEY && a < |keys| && AllPages(kids)
    requires FullButTwo(kids, a) && BT_MINKEY <= |kids[a].keys| + |kids[a + 1].keys| + 1 <= BT_MAXKEY
    ensures var p := Collapsed(keys, kids, a);
            Shape(d + 1, p) && Contents(p) == AllContents(kids) && |p.keys| == |keys| - 1
  {
    hide Contents, AllContents, Least;
    var j := Join(kids[a], kids[a + 1]);
    JoinedRow(d, kids[a], kids[a + 1]);
    assert Shape(d, j);
    var kids' := kids[a := j];
    assert a > 0 ==> keys[a - 1] == Least(kids[a - 1 + 1]);
    RowReplace(d, keys, kids, a, j);
    RowWithoutEntry(d, keys, kids', a);
    CollapsedContents(kids, a, j);
  }

  lemma NoContents()
    ensures AllContents([]) == []
  {
  }

  lemma CollapsedContents(kids: seq<Tree>, a: nat, j: Tree)
    requires a + 1 < |kids| && Contents(j) == Contents(kids[a]) + Contents(kids[a + 1])
    ensures var kids' := kids[a := j];
            AllContents(kids'[..a + 1]) + AllContents(kids'[a + 2..]) == AllContents(kids)
  {
    hide Contents, AllContents;
    TwoContents(kids, a);
    var kids' := kids[a := j];
    NoContents();
    AllContentsAt(kids'[..a + 1], a);
    assert kids'[..a + 1][..a] == kids[..a] && kids'[..a + 1][a + 1..] == [] && kids'[a + 2..] == kids[a + 2..];
  }

  /** Whatever the rebalancing does, the page is shaped again, holds the same objects and has lost
      at most one key. */
  lemma RebalanceHolds(d: nat, keys: seq<Key>, kids: seq<Tree>, hi: nat)
    requires d > 0 && Row(d, keys, kids) && 1 <= |keys| <= BT_MAXKEY && hi <= |keys| && AllPages(kids)
    requires FullBut(kids, hi) && |kids[hi].keys| >= BT_MINKEY - 1
    ensures var p := Rebalance(keys, kids, hi);
            Shape(d + 1, p) && Contents(p) == AllContents(kids) && |p.keys| >= |keys| - 1
  {
    hide Contents, AllContents, Least, Balanced, Collapsed;
    if |kids[hi].keys| < BT_MINKEY {
      var s := Sibling(kids, hi);
      var a := if s < hi then s else hi;
      assert Full(kids[s]) && Shape(d, kids[s]);
      if |kids[s].keys| > BT_MINKEY {
        BalancedHolds(d, keys, kids, a);
      } else {
        CollapsedHolds(d, keys, kids, a);
      }
    } else {
      assert forall i :: 0 <= i < |kids| ==> Full(kids[i]);
      assert |kids| == |keys| + 1;
      RowIsShape(d, keys, kids);
    }
  }

  /** The sibling is never the poorer one of two neighbours, and on a tie it is the right one. */
  lemma SiblingIsFattest(kids: seq<Tree>, hi: nat)
    requires |kids| >= 2 && hi < |kids| && forall i :: 0 <= i < |kids| ==> kids[i].Page?
    ensures var s := Sibling(kids, hi);
            && (0 < hi < |kids| - 1 ==>
                  |kids[s].keys| >= |kids[hi - 1].keys| && |kids[s].keys| >= |kids[hi + 1].keys| &&
                      (|kids[hi - 1].keys| == |kids[hi + 1].keys| ==> s == hi + 1))
  {
  }

  /** What a page that got short does with its sibling, in numbers of keys: if the sibling has keys to spare, both
      have half of the keys afterwards, the right one the odd one; otherwise there is one page less, with the keys
      of both and the separator between them. */
  lemma RebalanceShares(keys: seq<Key>, kids: seq<Tree>, hi: nat)
    requires |kids| == |keys| + 1 && |keys| >= 1 && hi <= |keys| && AllPages(kids) && |kids[hi].keys| < BT_MINKEY
    ensures var s, p := Sibling(kids, hi), Rebalance(keys, kids, hi);
            var a := if s < hi then s else hi;
            var n := |kids[a].keys| + |kids[a + 1].keys|;
            if |kids[s].keys| > BT_MINKEY then
              && |p.keys| == |keys| && p.kids[a].Page? && p.kids[a + 1].Page?
              && |p.kids[a].keys| == n / 2 && |p.kids[a + 1].keys| == n - n / 2
              && (forall i :: 0 <= i < |kids| && i != a && i != a + 1 ==> p.kids[i] == kids[i])
            else
              && |p.keys| == |keys| - 1 && p.kids[a].Page? && |p.kids[a].keys| == n + 1
              && (forall i :: 0 <= i < a ==> p.kids[i] == kids[i])
              && (forall i :: a < i < |kids| - 1 ==> p.kids[i] == kids[i + 1])
  {
    hide Least;
    var s := Sibling(kids, hi);
    var a := if s < hi then s else hi;
    if |kids[s].keys| <= BT_MINKEY {
      RemovedAtElements(kids[a := Join(kids[a], kids[a + 1])], a + 1);
    }
  }

  lemma RowIsShape(d: nat, keys: seq<Key>, kids: seq<Tree>)
    requires Row(d, keys, kids) && |keys| <= BT_MAXKEY && forall i :: 0 <= i < |kids| ==> Full(kids[i])
    ensures Shape(d + 1, Page(keys, kids)) && Contents(Page(keys, kids)) == AllContents(kids)
  {
  }

  lemma WithoutFirst(c: seq<Extent>, k: Key)
    requires c != [] && c[0].base != k
    ensures Without(c, k) != [] && Without(c, k)[0] == c[0]
  {
  }

  /** The separator left of the child stays exact when the child lost the object with base k. */
  lemma RefreshedIsLeast(d: nat, keys: seq<Key>, kids: seq<Tree>, k: Key, t: Tree)
    requires Row(d, keys, kids) && Shape(d, t) && Contents(t) == Without(Contents(kids[Rank(keys, k)]), k)
    ensures var hi := Rank(keys, k);
            hi > 0 ==> Refreshed(keys, hi, k, t)[hi - 1] == Least(t)
  {
    var hi := Rank(keys, k);
    if hi > 0 && keys[hi - 1] != k {
      assert keys[hi - 1] == Least(kids[hi - 1 + 1]);
      LeastIsFirst(d, kids[hi]);
      LeastIsFirst(d, t);
      WithoutFirst(Contents(kids[hi]), k);
    }
  }

  /** Deleting in the routed-to child deletes in the whole. */
  lemma RoutedDelete(d: nat, keys: seq<Key>, kids: seq<Tree>, k: Key)
    requires Row(d, keys, kids) && Ordered(AllContents(kids))
    ensures var hi := Rank(keys, k);
            && Without(AllContents(kids), k) == Around(kids, hi, Without(Contents(kids[hi]), k))
            && Ordered(Contents(kids[hi]))
            && forall x :: x in AllContents(kids) && x.base == k ==> x in Contents(kids[hi])
  {
    var hi := Rank(keys, k);
    Route(d, keys, kids, k);
    WithoutRoute(AllContents(kids[..hi]), Contents(kids[hi]), AllContents(kids[hi + 1..]), k);
  }

  lemma RowRefreshed(d: nat, keys: seq<Key>, kids: seq<Tree>, hi: nat, k: Key, t: Tree)
    requires Row(d, keys, kids) && Shape(d, t) && hi <= |keys|
    requires hi > 0 ==> Refreshed(keys, hi, k, t)[hi - 1] == Least(t)
    ensures Row(d, Refreshed(keys, hi, k, t), kids[hi := t])
    ensures AllContents(kids[hi := t]) == Around(kids, hi, Contents(t))
  {
    hide Contents, AllContents, Least;
    AllContentsAt(kids[hi := t], hi);
    assert kids[hi := t][..hi] == kids[..hi] && kids[hi := t][hi + 1..] == kids[hi + 1..];
    var keys' := Refreshed(keys, hi, k, t);
    forall i | 0 <= i < |keys'| ensures keys'[i] == Least(kids[hi := t][i + 1]) {
      assert keys[i] == Least(kids[i + 1]);
    }
  }

  /** What a deletion that found its object leaves behind. */
  ghost predicate Done(d: nat, t: Tree, k: Key, r: DeleteResult) {
    r.Removed? ==>
      && r.e in Contents(t) && r.e.base == k
      && Contents(r.t) == Without(Contents(t), k)
      && Shrunk(d, t, r.t)
  }

  lemma LeafDelete(t: Tree, k: Key)
    requires Shape(1, t) && Ordered(Contents(t))
    ensures DeleteFrom(1, t, k).Missing? <==> forall x :: x in Contents(t) ==> x.base != k
    ensures Done(1, t, k, DeleteFrom(1, t, k))
  {
    var hi := Rank(t.keys, k);
    RoutedDelete(0, t.keys, t.kids, k);
    LeafObject(t, hi);
    var o := t.kids[hi].e;
    if o.base == k {
      hide Ordered, AllContents;
      LeafShrinks(t, hi as int - 1);
      LeafWithout(t, hi);
      assert Without([o], k) == [];
    }
  }

  lemma LeafObject(t: Tree, hi: nat)
    requires Shape(1, t) && hi < |t.kids|
    ensures t.kids[hi].Obj? && Contents(t.kids[hi]) == [t.kids[hi].e] && t.kids[hi].e in Contents(t)
  {
    AllContentsAt(t.kids, hi);
  }

  lemma LeafWithout(t: Tree, hi: nat)
    requires Shape(1, t) && hi < |t.kids|
    ensures Contents(WithoutEntry(t.keys, t.kids, hi - 1)) == Around(t.kids, hi, [])
  {
    if t.keys != [] {
      RowWithoutEntry(0, t.keys, t.kids, hi - 1);
    } else {
      assert t.kids[..0] == [] && t.kids[1..] == [];
    }
  }

  lemma InnerDelete(d: nat, t: Tree, k: Key, r: DeleteResult)
    requires d > 1 && Shape(d, t) && |t.keys| >= 1 && Ordered(Contents(t)) && r.Removed?
    requires AllPages(t.kids) && |t.kids[Rank(t.keys, k)].keys| >= 1
    requires Done(d - 1, t.kids[Rank(t.keys, k)], k, r)
    ensures var hi := Rank(t.keys, k);
            && AllPages(t.kids[hi := r.t])
            && Done(d, t, k, Removed(Rebalance(Refreshed(t.keys, hi, k, r.t), t.kids[hi := r.t], hi), r.e))
  {
    var hi := Rank(t.keys, k);
    ShapeIsRow(d, t);
    RoutedDelete(d - 1, t.keys, t.kids, k);
    ChildWithin(t, hi);
    RefreshedIsLeast(d - 1, t.keys, t.kids, k, r.t);
    RowRefreshed(d - 1, t.keys, t.kids, hi, k, r.t);
    var keys', kids' := Refreshed(t.keys, hi, k, r.t), t.kids[hi := r.t];
    assert AllPages(kids') && FullBut(kids', hi) && |kids'[hi].keys| >= BT_MINKEY - 1;
    hide Ordered, Contents, AllContents, Least, Rebalance, Refreshed, Around, Without, Rank, Row;
    RebalanceHolds(d - 1, keys', kids', hi);
  }

  /** BTDelete finds an object if and only if one has exactly the given base; it returns that one,
      removes nothing else, and repairs separators, page fill and depth on the way up. */
  lemma {:induction false} DeleteHolds(d: nat, t: Tree, k: Key)
    requires Deletable(d, t) && Ordered(Contents(t))
    ensures DeleteFrom(d, t, k).Missing? <==> forall x :: x in Contents(t) ==> x.base != k
    ensures Done(d, t, k, DeleteFrom(d, t, k))
    decreases d
  {
    if d == 1 {
      LeafDelete(t, k);
    } else {
      var hi := Rank(t.keys, k);
      PagesBelow(d, t);
      RoutedDelete(d - 1, t.keys, t.kids, k);
      ChildWithin(t, hi);
      hide Ordered, Contents, AllContents, Least, Rebalance, Refreshed;
      DeleteHolds(d - 1, t.kids[hi], k);
      var r := DeleteFrom(d - 1, t.kids[hi], k);
      if r.Removed? {
        InnerDelete(d, t, k, r);
      }
    }
  }

  lemma ChildWithin(t: Tree, i: nat)
    requires t.Page? && i < |t.kids|
    ensures forall x :: x in Contents(t.kids[i]) ==> x in Contents(t)
  {
    AllContentsAt(t.kids, i);
  }

  /** The page above the child that a deletion went to, before any rebalancing. */
  function Repaired(t: Tree, hi: nat, k: Key, c: Tree): (r: Tree)
    requires t.Page? && |t.kids| == |t.keys| + 1 && hi <= |t.keys|
    ensures r.Page? && |r.keys| == |t.keys| && |r.kids| == |t.kids|
  {
    Page(Refreshed(t.keys, hi, k, c), t.kids[hi := c])
  }

  /** That page is a row of well-shaped pages, all at least half full except possibly that child. */
  lemma RepairedRow(d: nat, t: Tree, k: Key)
    requires d > 1 && Deletable(d, t) && Ordered(Contents(t))
    ensures Rank(t.keys, k) < |t.kids| && Deletable(d - 1, t.kids[Rank(t.keys, k)])
    ensures Ordered(Contents(t.kids[Rank(t.keys, k)])) && |t.kids[Rank(t.keys, k)].keys| >= BT_MINKEY
    ensures AllPages(t.kids)
    ensures var hi := Rank(t.keys, k);
            var r := DeleteFrom(d - 1, t.kids[hi], k);
            r.Removed? ==>
              && Paged(r.t) && Shape(d - 1, r.t) && |r.t.keys| >= BT_MINKEY - 1
              && AllPages(t.kids[hi := r.t])
              && DeleteFrom(d, t, k) ==
                 Removed(Rebalance(Refreshed(t.keys, hi, k, r.t), t.kids[hi := r.t], hi), r.e)
  {
    var hi := Rank(t.keys, k);
    ShapeIsRow(d, t);
    PagesBelow(d, t);
    RoutedDelete(d - 1, t.keys, t.kids, k);
    DeleteHolds(d - 1, t.kids[hi], k);
  }
}

/** A run of insertions that makes BTInsert of kernel/lib/klibc/btree.c read a stray word. */
module SplitReached {
  import opened Machine
  import opened Extents
  import opened Sequences
  import opened IndexTree
  import opened IndexInsert
  import opened ObjectIndex
  import opened InsertAsWritten
  import opened SearchAsWritten

  // ---------------------------------------------------------------- one insertion

  /** A leaf with room gains a key; a full one splits evenly. */
  lemma LeafStep(t: Tree, e: Extent)
    requires Accepts(1, t, e)
    ensures t.Page? && |t.keys| <= BT_MAXKEY
    ensures var r := InsertInto(1, t, e);
            if |t.keys| < BT_MAXKEY then r.Inserted? && r.t.Page? && |r.t.keys| == |t.keys| + 1
            else
              && r.Promoted? && r.left.Page? && |r.left.keys| == BT_MINKEY
              && r.right.Page? && |r.right.keys| == BT_MINKEY
  {
    hide Ordered, Contents;
  }

  /** What a page above leaves becomes: one leaf with a key more, or two in its place. */
  ghost predicate LeafGrows(t: Tree, hi: nat, t': Tree) {
    && t.Page? && t'.Page? && hi < |t.kids| == |t.keys| + 1 && t.kids[hi].Page?
    && (|t.kids[hi].keys| < BT_MAXKEY ==>
          && t'.keys == t.keys && |t'.kids| == |t.kids| && t'.kids[hi].Page?
          && |t'.kids[hi].keys| == |t.kids[hi].keys| + 1
          && forall i :: 0 <= i < |t.kids| && i != hi ==> t'.kids[i] == t.kids[i])
    && (|t.kids[hi].keys| == BT_MAXKEY ==>
          && |t'.keys| == |t.keys| + 1 && |t'.kids| == |t.kids| + 1
          && t'.kids[hi].Page? && |t'.kids[hi].keys| == BT_MINKEY
          && t'.kids[hi + 1].Page? && |t'.kids[hi + 1].keys| == BT_MINKEY
          && forall i :: 0 <= i < hi ==> t'.kids[i] == t.kids[i])
  }

  lemma RootStep(t: Tree, e: Extent)
    requires Accepts(2, t, e) && t.Page? && (|t.keys| < BT_MAXKEY || LeafHasRoom(t, e))
    ensures InsertInto(2, t, e).Inserted? && LeafGrows(t, Rank(t.keys, e.base), InsertInto(2, t, e).t)
  {
    hide Ordered, Contents, InsertInto;
    Down(2, t, e);
    var hi := Rank(t.keys, e.base);
    LeafStep(t.kids[hi], e);
    var r := InsertInto(1, t.kids[hi], e);
    if r.Promoted? {
      InsertedAtElements(t.kids[hi := r.left], hi + 1, r.right);
    }
  }

  ghost predicate LeafHasRoom(t: Tree, e: Extent) {
    && Accepts(2, t, e) && t.Page? && Rank(t.keys, e.base) < |t.kids|
    && t.kids[Rank(t.keys, e.base)].Page? && |t.kids[Rank(t.keys, e.base)].keys| < BT_MAXKEY
  }

  /** The insertion does not stray, whatever it would read. */
  ghost predicate NeverStrays(x: Index, e: Extent)
    requires Sound(x)
  {
    forall w: StrayWords :: !Strays(x, e, w)
  }

  /** The same for a whole index of two levels. */
  lemma IndexStep(x: Index, e: Extent)
    requires Sound(x) && x.Rooted? && x.depth == 2 && e.base < e.end && !Meets(e, Objects(x))
    requires x.top.Page? && (|x.top.keys| < BT_MAXKEY || LeafHasRoom(x.top, e))
    ensures var x' := Insert(x, e).index;
            && Sound(x') && x'.Rooted? && x'.depth == 2 && Objects(x') == InsertSorted(Objects(x), e)
            && LeafGrows(x.top, Rank(x.top.keys, e.base), x'.top)
    ensures NeverStrays(x, e)
  {
    hide Ordered, Contents, InsertInto, LeafGrows, Meets, InsertSorted;
    InsertCorrect(x, e);
    InsertRejects(2, x.top, e);
    RootStep(x.top, e);
  }

  // ---------------------------------------------------------------- insertions in ascending order

  /** Objects of one byte, far enough apart. */
  const GAP: nat := BT_MINKEY + 3

  function Item(n: nat): Extent {
    Extent(GAP * (n + 1), GAP * (n + 1) + 1, n + 1)
  }

  lemma ItemsApart(i: nat, j: nat)
    requires i < j
    ensures Item(i).base + GAP <= Item(j).base && Item(i).end == Item(i).base + 1
    ensures j == i + 1 ==> Item(i).base + GAP == Item(j).base
  {
    Monotone(i + 2, j + 1, GAP);
    assert GAP * (i + 2) == GAP * (i + 1) + GAP;
  }

  function Items(n: nat): (s: seq<Extent>)
    ensures |s| == n && forall i :: 0 <= i < n ==> s[i] == Item(i)
  {
    seq(n, i requires 0 <= i < n => Item(i))
  }

  function Upward(n: nat): (s: seq<Call>)
    ensures |s| == n && Proper(s) && forall i :: 0 <= i < n ==> s[i] == Ins(Item(i))
  {
    seq(n, i requires 0 <= i < n => Ins(Item(i)))
  }

  lemma NextItem(n: nat)
    ensures !Meets(Item(n), Items(n)) && InsertSorted(Items(n), Item(n)) == Items(n + 1)
    ensures forall x :: x in Items(n) ==> x.base < Item(n).base
    ensures Upward(n + 1)[..n] == Upward(n)
  {
    forall x | x in Items(n) ensures x.base < Item(n).base && !Overlaps(Item(n), x) {
      var i :| 0 <= i < n && Items(n)[i] == x;
      ItemsApart(i, n);
    }
    InsertSortedRoute(Items(n), [], [], Item(n));
    assert Items(n) + [] + [] == Items(n);
    assert Items(n) + [Item(n)] + [] == Items(n + 1);
  }

  /** The separators of a page are bases of objects below it. */
  lemma KeysAreBases(d: nat, t: Tree, i: nat)
    requires d > 0 && Shape(d, t) && i < |t.keys|
    ensures exists x :: x in Contents(t) && x.base == t.keys[i]
  {
    hide Contents, AllContents, Least;
    ShapeIsRow(d, t);
    LeastIsFirst(d - 1, t.kids[i + 1]);
    var x := Contents(t.kids[i + 1])[0];
    InSome(t.kids, x);
    ContentsOfPage(t);
    assert t.keys[i] == Least(t.kids[i + 1]);
  }

  /** A key beyond all objects routes to the last child. */
  lemma AtEnd(d: nat, t: Tree, k: Key)
    requires d > 0 && Shape(d, t) && forall x :: x in Contents(t) ==> x.base < k
    ensures Rank(t.keys, k) == |t.keys| && |t.kids| == |t.keys| + 1
  {
    hide Contents;
    if Rank(t.keys, k) < |t.keys| {
      KeysAreBases(d, t, Rank(t.keys, k));
    }
  }

  /** n objects below a root with q separators: the last leaf has j separators more than the least number,
      all others have the least number. */
  ghost predicate Built(x: Index, n: nat, q: nat, j: nat) {
    && Sound(x) && x.Rooted? && x.depth == 2 && Objects(x) == Items(n)
    && x.top.Page? && |x.top.keys| == q && |x.top.kids| == q + 1
    && (forall i :: 0 <= i < q ==> x.top.kids[i].Page? && |x.top.kids[i].keys| == BT_MINKEY)
    && x.top.kids[q].Page? && |x.top.kids[q].keys| == BT_MINKEY + j
  }

  lemma BuiltStep(x: Index, n: nat, q: nat, j: nat)
    requires Built(x, n, q, j) && q < BT_MAXKEY && j <= BT_MINKEY
    ensures var x' := Insert(x, Item(n)).index;
            if j < BT_MINKEY then Built(x', n + 1, q, j + 1) else Built(x', n + 1, q + 1, 0)
    ensures NeverStrays(x, Item(n))
  {
    hide Ordered, Contents, InsertInto, InsertSorted, Insert, Meets, Item, Shape, NeverStrays;
    NextItem(n);
    RootShape(x);
    AtEnd(2, x.top, Item(n).base);
    ItemIsProper(n);
    IndexStep(x, Item(n));
    RootShape(Insert(x, Item(n)).index);
  }

  lemma ItemIsProper(n: nat)
    ensures Item(n).base < Item(n).end
  {
  }

  lemma RootShape(x: Index)
    requires Sound(x) && x.Rooted? && x.depth == 2
    ensures Shape(2, x.top) && |x.top.kids| == |x.top.keys| + 1 && Objects(x) == Contents(x.top)
  {
    hide Ordered, Contents;
  }

  /** n objects in a leaf that is the root. */
  ghost predicate OneLeaf(x: Index, n: nat) {
    Sound(x) && x.Rooted? && x.depth == 1 && Objects(x) == Items(n) && x.top.Page? && |x.top.keys| == n - 1
  }

  lemma OneLeafStep(x: Index, n: nat)
    requires OneLeaf(x, n)
    ensures var x' := Insert(x, Item(n)).index;
            if n <= BT_MAXKEY then OneLeaf(x', n + 1) else Built(x', n + 1, 1, 0)
    ensures NeverStrays(x, Item(n))
  {
    hide Ordered, Contents, InsertInto, InsertSorted, Meets, Item;
    NextItem(n);
    ItemIsProper(n);
    InsertCorrect(x, Item(n));
    InsertRejects(1, x.top, Item(n));
    LeafStep(x.top, Item(n));
  }

  // ---------------------------------------------------------------- runs

  /** No call of the run strays, whatever it would read. */
  ghost predicate Safe(calls: seq<Call>)
    requires Proper(calls)
  {
    forall words: seq<StrayWords> :: |words| == |calls| ==> Straight(calls, words)
  }

  lemma SafeStep(calls: seq<Call>, e: Extent)
    requires Proper(calls) && Safe(calls) && e.base < e.end
    requires NeverStrays(After(calls), e)
    ensures Proper(calls + [Ins(e)]) && Safe(calls + [Ins(e)])
    ensures After(calls + [Ins(e)]) == Insert(After(calls), e).index
  {
    hide Strays, Insert, Sound;
    var longer, n := calls + [Ins(e)], |calls|;
    assert longer[..n] == calls;
    forall words: seq<StrayWords> | |words| == n + 1 ensures Straight(longer, words) {
      assert Straight(calls, words[..n]);
    }
  }

  lemma UpwardStep(n: nat)
    requires Safe(Upward(n)) && NeverStrays(After(Upward(n)), Item(n))
    ensures Safe(Upward(n + 1)) && After(Upward(n + 1)) == Insert(After(Upward(n)), Item(n)).index
  {
    hide Safe, NeverStrays, Insert, Sound, Item;
    ItemIsProper(n);
    SafeStep(Upward(n), Item(n));
    assert Upward(n + 1) == Upward(n) + [Ins(Item(n))];
  }

  lemma FirstItem()
    ensures OneLeaf(After(Upward(1)), 1) && Safe(Upward(1))
  {
    ItemIsProper(0);
    assert Upward(0) == [] && Safe(Upward(0));
    UpwardStep(0);
    InsertCorrect(Empty, Item(0));
    assert InsertSorted([], Item(0)) == Items(1);
  }

  lemma {:induction false} UpwardLeaf(n: nat)
    requires 1 <= n <= BT_MAXKEY + 1
    ensures OneLeaf(After(Upward(n)), n) && Safe(Upward(n))
  {
    hide OneLeaf, Safe, NeverStrays, Built;
    if n == 1 {
      FirstItem();
    } else {
      UpwardLeaf(n - 1);
      OneLeafStep(After(Upward(n - 1)), n - 1);
      UpwardStep(n - 1);
    }
  }

  /** How many objects make q separators in the root, with j to spare in the last leaf. */
  function Count(q: nat, j: nat): nat {
    (q + 1) * (BT_MINKEY + 1) + j
  }

  lemma CountStep(q: nat)
    ensures Count(q + 1, 0) == Count(q, BT_MINKEY) + 1 && Count(1, 0) == BT_MAXKEY + 2
  {
  }

  lemma {:induction false} UpwardBuilt(q: nat, j: nat)
    requires 1 <= q <= BT_MAXKEY && j <= BT_MINKEY && (q == BT_MAXKEY ==> j == 0)
    ensures Built(After(Upward(Count(q, j))), Count(q, j), q, j) && Safe(Upward(Count(q, j)))
    decreases q, j
  {
    hide OneLeaf, Safe, NeverStrays, Built, Insert, Sound;
    CountStep(q - 1);
    if q == 1 && j == 0 {
      var n := BT_MAXKEY + 1;
      UpwardLeaf(n);
      OneLeafStep(After(Upward(n)), n);
      UpwardStep(n);
    } else {
      var q', j' := if j > 0 then q else q - 1, if j > 0 then j - 1 else BT_MINKEY;
      var n := Count(q', j');
      UpwardBuilt(q', j');
      BuiltStep(After(Upward(n)), n, q', j');
      UpwardStep(n);
    }
  }

  // ---------------------------------------------------------------- filling the child in the middle

  /** An object in the gap before y. */
  function Extra(y: Key, i: nat): (e: Extent)
    requires y >= GAP && i <= BT_MINKEY
    ensures e.base < e.end <= y
  {
    Extent(y - GAP + 1 + i, y - GAP + 2 + i, 0)
  }

  /** A full root, and i objects in the gap before its middle separator y. */
  ghost predicate Filling(x: Index, y: Key, i: nat) {
    && Sound(x) && x.Rooted? && x.depth == 2
    && x.top.Page? && |x.top.keys| == BT_MAXKEY && |x.top.kids| == BT_MAXKEY + 1
    && y >= GAP && x.top.keys[BT_MINKEY] == y && x.top.keys[BT_MINKEY - 1] + GAP <= y
    && x.top.kids[BT_MINKEY].Page? && |x.top.kids[BT_MINKEY].keys| == BT_MINKEY + i
    && forall o :: o in Objects(x) ==> o.base < o.end && (o.end <= y - GAP + 1 + i || y <= o.base)
  }

  lemma ExtraRoutes(x: Index, y: Key, i: nat)
    requires Filling(x, y, i) && i <= BT_MINKEY
    ensures Rank(x.top.keys, Extra(y, i).base) == BT_MINKEY && !Meets(Extra(y, i), Objects(x))
  {
    hide Ordered, Contents;
    var keys, m: nat := x.top.keys, BT_MINKEY;
    RootShape(x);
    ContentsOfPage(x.top);
    ShapeIsRow(2, x.top);
    SeparatorsAscend(1, keys, x.top.kids);
    forall j | 0 <= j < m ensures keys[j] <= Extra(y, i).base {
      assert j < m - 1 ==> keys[j] < keys[m - 1];
    }
    RankIs(keys, Extra(y, i).base, m);
  }

  lemma FillingStep(x: Index, y: Key, i: nat)
    requires Filling(x, y, i) && i < BT_MINKEY
    ensures NeverStrays(x, Extra(y, i)) && Filling(Insert(x, Extra(y, i)).index, y, i + 1)
  {
    hide Ordered, Contents, Insert, InsertInto, InsertSorted, Rank, Shape, NeverStrays;
    var e := Extra(y, i);
    ExtraRoutes(x, y, i);
    MiddleAccepts(x, e);
    IndexStep(x, e);
    InsertSortedMembers(Objects(x), e);
    RootShape(Insert(x, e).index);
  }

  lemma MiddleAccepts(x: Index, e: Extent)
    requires Sound(x) && x.Rooted? && x.depth == 2 && !Meets(e, Objects(x)) && e.base < e.end
    ensures Accepts(2, x.top, e)
  {
    InsertRejects(2, x.top, e);
  }

  /** The run goes on with the first i of them. */
  function Fill(calls: seq<Call>, y: Key, i: nat): (r: seq<Call>)
    requires Proper(calls) && y >= GAP && i <= BT_MINKEY
    ensures Proper(r)
  {
    if i == 0 then calls else Fill(calls, y, i - 1) + [Ins(Extra(y, i - 1))]
  }

  lemma {:induction false} FillFilling(calls: seq<Call>, y: Key, i: nat)
    requires Proper(calls) && Safe(calls) && y >= GAP && Filling(After(calls), y, 0) && i <= BT_MINKEY
    ensures Safe(Fill(calls, y, i)) && Filling(After(Fill(calls, y, i)), y, i)
  {
    hide Safe, NeverStrays, Insert, Extra, Filling, After, Sound;
    if i > 0 {
      FillFilling(calls, y, i - 1);
      FillingStep(After(Fill(calls, y, i - 1)), y, i - 1);
      SafeStep(Fill(calls, y, i - 1), Extra(y, i - 1));
    }
  }

  /** After the ascending insertions the gap before the middle separator is empty. */
  lemma BuiltFilling(x: Index, n: nat)
    requires Built(x, n, BT_MAXKEY, 0)
    ensures Filling(x, x.top.keys[BT_MINKEY], 0)
  {
    hide Ordered, Contents, Item, Shape;
    var keys, m: nat := x.top.keys, BT_MINKEY;
    RootShape(x);
    KeysAreBases(2, x.top, m);
    KeysAreBases(2, x.top, m - 1);
    ContentsOfPage(x.top);
    ShapeIsRow(2, x.top);
    SeparatorsAscend(1, keys, x.top.kids);
    var a :| a in Items(n) && a.base == keys[m - 1];
    var b :| b in Items(n) && b.base == keys[m];
    var p :| 0 <= p < n && Items(n)[p] == a;
    var q :| 0 <= q < n && Items(n)[q] == b;
    assert keys[m - 1] < keys[m];
    if q <= p {
      if q < p {
        ItemsApart(q, p);
      }
    } else {
      ItemsApart(p, q);
      ItemsLeaveGap(n, q);
    }
  }

  lemma ItemsLeaveGap(n: nat, q: nat)
    requires 0 < q < n
    ensures forall o :: o in Items(n) ==> o.base < o.end && (o.end <= Item(q).base - GAP + 1 || Item(q).base <= o.base)
  {
    hide Item;
    forall o | o in Items(n) ensures o.base < o.end && (o.end <= Item(q).base - GAP + 1 || Item(q).base <= o.base) {
      var s :| 0 <= s < n && Items(n)[s] == o;
      ItemsApart(s, s + 1);
      if s < q {
        ItemsApart(s, q);
      } else if s > q {
        ItemsApart(q, s);
      }
    }
  }

  // ---------------------------------------------------------------- what happens there

  /** The run leaves a sound index whatever it reads, and the next insertion splits the root in the middle. */
  ghost predicate Reaches(calls: seq<Call>, e: Extent) {
    && Proper(calls) && Safe(calls) && e.base < e.end
    && var x := After(calls);
    && x.Rooted? && x.depth == 2 && Shape(2, x.top) && !Meets(e, Objects(x)) && Middle(2, x.top, e.base)
  }

  /** For every order there is such a run. */
  lemma MiddleIsReached()
    ensures exists calls, e :: Reaches(calls, e)
  {
    hide Safe, Insert, Meets, Built, Rank, Objects, Extra;
    var n := Count(BT_MAXKEY, 0);
    UpwardBuilt(BT_MAXKEY, 0);
    var x := After(Upward(n));
    BuiltFilling(x, n);
    var y := MiddleKey(x, n);
    FillFilling(Upward(n), y, BT_MINKEY);
    var calls, e := Fill(Upward(n), y, BT_MINKEY), Extra(y, BT_MINKEY);
    ExtraRoutes(After(calls), y, BT_MINKEY);
    RootShape(After(calls));
    assert Reaches(calls, e);
  }

  ghost function MiddleKey(x: Index, n: nat): Key
    requires Built(x, n, BT_MAXKEY, 0)
  {
    x.top.keys[BT_MINKEY]
  }

  /** After such a run the next insertion leaves a sound index only if the stray word is exactly the separator
      that belongs there, and an index in which all objects can be found only if it leads to the right
      objects. */
  lemma MiddleBreaks(calls: seq<Call>, e: Extent, w: StrayWords)
    requires Reaches(calls, e)
    ensures var x := After(calls);
            var x' := InsAsWritten(x, e, w).index;
            && (Sound(x') <==> w(2) == x.top.keys[BT_MINKEY])
            && (AllFound(x') <==> Directs(x.top, e, w(2)))
  {
    hide Safe, Insert, Meets, Sound, InsAsWritten, AllFound, Directs, Finds;
    var x := After(calls);
    InsertExactly(x, e, w);
    SearchExactly(x, e, w);
  }
}

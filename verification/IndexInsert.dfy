/** Lookup and insertion on the index as a value. */
module IndexInsert {
  import opened Extents
  import opened Sequences
  import opened IndexTree

  /** The status codes of kernel/include/mungi/btree.h; the last two stay inside the index. */
  datatype Status = BT_OK | BT_NOT_FOUND | BT_DUPLICATE | BT_OVERLAP | BT_PROMOTION | BT_LESS_THAN_MIN

  // ---------------------------------------------------------------- lookup

  /** The one object that a descent by binary search ends at. */
  ghost function Candidate(d: nat, t: Tree, k: Key): Extent
    requires Shape(d, t)
    decreases d
  {
    if d == 0 then t.e else Candidate(d - 1, t.kids[Rank(t.keys, k)], k)
  }

  /** No object other than the one the descent ends at can contain the key, and it is the only
      one that can have the key as its base. */
  lemma {:induction false} CandidateIsOnlyMatch(d: nat, t: Tree, k: Key)
    requires Shape(d, t) && Ordered(Contents(t))
    ensures Candidate(d, t, k) in Contents(t)
    ensures forall x :: x in Contents(t) && Matches(x, k) ==> x == Candidate(d, t, k)
    decreases d
  {
    if d > 0 {
      Route(d - 1, t.keys, t.kids, k);
      CandidateIsOnlyMatch(d - 1, t.kids[Rank(t.keys, k)], k);
    }
  }

  /** Descending one path finds what a scan of all objects finds. */
  lemma SearchAgreesWithScan(d: nat, t: Tree, k: Key)
    requires Shape(d, t) && Ordered(Contents(t))
    ensures Scan(Contents(t), k) ==
            if Matches(Candidate(d, t, k), k) then [Candidate(d, t, k)] else []
  {
    CandidateIsOnlyMatch(d, t, k);
  }

  /** (BT_MINKEY + 1) to the power n. */
  function Fanout(n: nat): nat {
    if n == 0 then 1 else (BT_MINKEY + 1) * Fanout(n - 1)
  }

  /** What makes it the power: the base for one level, and products for sums of levels. */
  lemma {:induction false} FanoutIsPower(m: nat, n: nat)
    ensures Fanout(0) == 1 && Fanout(1) == BT_MINKEY + 1
    ensures Fanout(m + n) == Fanout(m) * Fanout(n)
  {
    assert Fanout(1) == (BT_MINKEY + 1) * Fanout(0);
    if m > 0 {
      FanoutIsPower(m - 1, n);
      ProductGroups(BT_MINKEY + 1, Fanout(m - 1), Fanout(n));
      assert m + n - 1 == (m - 1) + n;
    }
  }

  lemma ProductGroups(a: nat, b: nat, c: nat)
    ensures a * (b * c) == (a * b) * c
  {
  }

  lemma {:induction false} FullTreeSize(d: nat, t: Tree)
    requires Shape(d, t) && Full(t)
    ensures |Contents(t)| >= Fanout(d)
    decreases d, 0
  {
    if d > 0 {
      FullRowSize(d - 1, t.kids);
      ProductAtLeast(|t.kids|, BT_MINKEY + 1, Fanout(d - 1));
    }
  }

  lemma ProductAtLeast(a: nat, b: nat, c: nat)
    requires a >= b
    ensures a * c >= b * c
  {
  }

  lemma {:induction false} FullRowSize(d: nat, kids: seq<Tree>)
    requires forall i :: 0 <= i < |kids| ==> Shape(d, kids[i]) && Full(kids[i])
    ensures |AllContents(kids)| >= |kids| * Fanout(d)
    decreases d, 1, |kids|
  {
    if kids != [] {
      FullTreeSize(d, kids[0]);
      FullRowSize(d, kids[1..]);
      assert |kids| * Fanout(d) == Fanout(d) + (|kids| - 1) * Fanout(d);
    }
  }

  /** An index of two or more levels holds at least 2 * (BT_MINKEY + 1)^(depth - 1) objects, so
      its depth, the number of pages a lookup visits, is logarithmic. */
  lemma DepthBound(d: nat, t: Tree)
    requires WellFormed(d, t) && d >= 2
    ensures |Contents(t)| >= 2 * Fanout(d - 1)
  {
    FullRowSize(d - 1, t.kids);
    ProductAtLeast(|t.kids|, 2, Fanout(d - 1));
  }

  // ---------------------------------------------------------------- insertion

  /** BTInsertPage: put child c and its separator k after child hi, or in front when hi < 0. */
  function WithEntry(keys: seq<Key>, kids: seq<Tree>, hi: int, k: Key, c: Tree): (p: Tree)
    requires |kids| == |keys| + 1 && -1 <= hi <= |keys|
    ensures p.Page? && |p.keys| == |keys| + 1 && |p.kids| == |kids| + 1
  {
    Page(if hi < 0 then InsertedAt(keys, 0, Least(kids[0])) else InsertedAt(keys, hi, k),
         InsertedAt(kids, hi + 1, c))
  }

  datatype InsertResult =
    | Rejected(why: Status)
    | Inserted(t: Tree, ngb: Extent)
    | Promoted(left: Tree, key: Key, right: Tree, ngb: Extent)

  /** Insertion of an entry in a page, splitting it around its median when it is full. */
  function AddEntry(keys: seq<Key>, kids: seq<Tree>, hi: int, k: Key, c: Tree, ngb: Extent): InsertResult
    requires |kids| == |keys| + 1 && |keys| <= BT_MAXKEY && -1 <= hi <= |keys|
  {
    var p := WithEntry(keys, kids, hi, k, c);
    if |keys| < BT_MAXKEY then Inserted(p, ngb)
    else Promoted(TakeKeys(p, BT_MINKEY), p.keys[BT_MINKEY], DropKeys(p, BT_MINKEY), ngb)
  }

  /** The position after which a leaf takes the new object, -1 for the front. */
  ghost function LeafIndex(t: Tree, e: Extent): (at: int)
    requires Shape(1, t)
    ensures -1 <= at <= |t.keys|
  {
    var hi := Rank(t.keys, e.base);
    if hi == 0 && e.base < t.kids[0].e.base then -1 else hi
  }

  /** The leaf step of BTInsert, at the object that the new key routes to. */
  ghost function InsertAtLeaf(t: Tree, e: Extent): InsertResult
    requires Shape(1, t)
  {
    var hi := Rank(t.keys, e.base);
    var o := t.kids[hi].e;
    if Matches(o, e.base) || (hi == 0 && Overlaps(e, o)) then Rejected(BT_OVERLAP)
    else AddEntry(t.keys, t.kids, LeafIndex(t, e), e.base, Obj(e), o)
  }

  /** What a page does with the report of the child that the extent was routed to. */
  function PassOn(keys: seq<Key>, kids: seq<Tree>, hi: nat, r: InsertResult): InsertResult
    requires |kids| == |keys| + 1 && |keys| <= BT_MAXKEY && hi <= |keys|
  {
    match r
    case Rejected(why) => Rejected(why)
    case Inserted(t, ngb) => Inserted(Page(keys, kids[hi := t]), ngb)
    case Promoted(left, k, right, ngb) => AddEntry(keys, kids[hi := left], hi, k, right, ngb)
  }

  /** BTInsert. */
  ghost function InsertInto(d: nat, t: Tree, e: Extent): InsertResult
    requires d > 0 && Shape(d, t)
    decreases d
  {
    var hi := Rank(t.keys, e.base);
    if e.base in t.keys then Rejected(BT_DUPLICATE)
    else if hi < |t.keys| && Matches(e, t.keys[hi]) then Rejected(BT_OVERLAP)
    else if d == 1 then InsertAtLeaf(t, e)
    else PassOn(t.keys, t.kids, hi, InsertInto(d - 1, t.kids[hi], e))
  }

  ghost predicate Adjacent(s: seq<Extent>, a: Extent, b: Extent) {
    exists i :: 0 <= i < |s| - 1 && ((s[i] == a && s[i + 1] == b) || (s[i] == b && s[i + 1] == a))
  }

  ghost predicate Meets(e: Extent, c: seq<Extent>) {
    exists x :: x in c && Overlaps(e, x)
  }

  /** What a result means for a page whose objects should become c. */
  ghost predicate Holds(d: nat, r: InsertResult, c: seq<Extent>, e: Extent) {
    match r
    case Rejected(_) => true
    case Inserted(t, ngb) => Shape(d, t) && Contents(t) == c && Adjacent(c, e, ngb)
    case Promoted(left, key, right, ngb) =>
      && Shape(d, left) && Shape(d, right) && Full(left) && Full(right)
      && Contents(left) + Contents(right) == c
      && key == Least(right)
      && Adjacent(c, e, ngb)
  }

  /** The contents of a row when a child holding c is put at position i. */
  function Between(kids: seq<Tree>, i: nat, c: seq<Extent>): seq<Extent>
    requires i <= |kids|
  {
    AllContents(kids[..i]) + c + AllContents(kids[i..])
  }

  lemma AllContentsInsert(kids: seq<Tree>, i: nat, c: Tree)
    requires i <= |kids|
    ensures AllContents(InsertedAt(kids, i, c)) == Between(kids, i, Contents(c))
  {
    AllContentsConcat(kids[..i] + [c], kids[i..]);
    AllContentsConcat(kids[..i], [c]);
    assert AllContents([c]) == Contents(c);
  }

  lemma RowWithEntry(d: nat, keys: seq<Key>, kids: seq<Tree>, hi: int, k: Key, c: Tree)
    requires Row(d, keys, kids) && Shape(d, c) && -1 <= hi <= |keys|
    requires hi >= 0 ==> k == Least(c)
    ensures var p := WithEntry(keys, kids, hi, k, c);
            && Row(d, p.keys, p.kids)
            && Contents(p) == Between(kids, hi + 1, Contents(c))
  {
    var p := WithEntry(keys, kids, hi, k, c);
    AllContentsInsert(kids, hi + 1, c);
    var at, x := if hi < 0 then 0 else hi, if hi < 0 then Least(kids[0]) else k;
    InsertedAtElements(keys, at, x);
    InsertedAtElements(kids, hi + 1, c);
    hide InsertedAt, AllContents, Contents;
    forall i | 0 <= i < |p.keys| ensures p.keys[i] == Least(p.kids[i + 1]) {
      if i < at {
        assert p.keys[i] == keys[i] && p.kids[i + 1] == kids[i + 1];
      } else if i > at {
        assert p.keys[i] == keys[i - 1] && p.kids[i + 1] == kids[i - 1 + 1];
      }
    }
    forall i | 0 <= i < |p.kids| ensures Shape(d, p.kids[i]) {
    }
  }

  lemma FullWithEntry(keys: seq<Key>, kids: seq<Tree>, hi: int, k: Key, c: Tree)
    requires |kids| == |keys| + 1 && -1 <= hi <= |keys|
    requires Full(c) && forall i :: 0 <= i < |kids| ==> Full(kids[i])
    ensures var p := WithEntry(keys, kids, hi, k, c);
            forall i :: 0 <= i < |p.kids| ==> Full(p.kids[i])
  {
  }

  /** Halving a page with one key too many gives two full pages around its median. */
  lemma SplitHolds(d: nat, p: Tree)
    requires d > 0 && p.Page? && Row(d - 1, p.keys, p.kids) && |p.keys| == BT_MAXKEY + 1
    requires forall i :: 0 <= i < |p.kids| ==> Full(p.kids[i])
    ensures var l, r := TakeKeys(p, BT_MINKEY), DropKeys(p, BT_MINKEY);
            && Shape(d, l) && Shape(d, r) && Full(l) && Full(r)
            && Contents(l) + Contents(r) == Contents(p)
            && p.keys[BT_MINKEY] == Least(r)
  {
    CutRow(d - 1, p, BT_MINKEY);
  }

  /** A child and its separator, fit to be put in a page above d levels. */
  ghost predicate Entry(d: nat, k: Key, c: Tree) {
    Shape(d, c) && Full(c) && k == Least(c)
  }

  /** Adding an entry to a well-shaped page, with or without a split. */
  lemma AddEntryHolds(d: nat, t: Tree, hi: int, k: Key, c: Tree, e: Extent, ngb: Extent, s: seq<Extent>)
    requires d > 0 && Shape(d, t) && Entry(d - 1, k, c) && -1 <= hi <= |t.keys|
    requires s == Between(t.kids, hi + 1, Contents(c)) && Adjacent(s, e, ngb)
    ensures Holds(d, AddEntry(t.keys, t.kids, hi, k, c, ngb), s, e)
  {
    ShapeIsRow(d, t);
    RowWithEntry(d - 1, t.keys, t.kids, hi, k, c);
    FullWithEntry(t.keys, t.kids, hi, k, c);
    var p := WithEntry(t.keys, t.kids, hi, k, c);
    hide WithEntry, AllContents, Contents, Adjacent, Least;
    if |t.keys| == BT_MAXKEY {
      SplitHolds(d, p);
    } else {
      assert Shape(d, p);
    }
  }

  lemma AdjacentWithin(pre: seq<Extent>, mid: seq<Extent>, post: seq<Extent>, a: Extent, b: Extent)
    requires Adjacent(mid, a, b)
    ensures Adjacent(pre + mid + post, a, b)
  {
    var i :| 0 <= i < |mid| - 1 && ((mid[i] == a && mid[i + 1] == b) || (mid[i] == b && mid[i + 1] == a));
    var s := pre + mid + post;
    assert s[|pre| + i] == mid[i] && s[|pre| + i + 1] == mid[i + 1];
  }

  /** When the new base routes to the middle, only a later neighbour can meet it from outside. */
  lemma MeetsOutside(c: seq<Extent>, pre: seq<Extent>, mid: seq<Extent>, post: seq<Extent>, e: Extent)
    requires Routed(c, pre, mid, post, e.base) && Ordered(c)
    ensures Meets(e, c) <==> Meets(e, mid) || (post != [] && Matches(e, post[0].base))
  {
    OrderedPieces(pre, mid, post);
    if post != [] {
      assert post[0] in c;
      assert Matches(e, post[0].base) ==> Overlaps(e, post[0]);
    }
  }

  /** Insertion into the routed-to part is insertion into the whole. */
  lemma InsertRouted(c: seq<Extent>, pre: seq<Extent>, mid: seq<Extent>, post: seq<Extent>, e: Extent)
    requires Routed(c, pre, mid, post, e.base)
    ensures InsertSorted(c, e) == pre + InsertSorted(mid, e) + post
  {
    assert post != [] ==> post[0] in post;
    InsertSortedRoute(pre, mid, post, e);
  }

  lemma DuplicateMeets(d: nat, keys: seq<Key>, kids: seq<Tree>, e: Extent)
    requires Row(d, keys, kids) && Ordered(AllContents(kids)) && e.base in keys
    ensures Meets(e, AllContents(kids))
  {
    var i :| 0 <= i < |keys| && keys[i] == e.base;
    AllContentsAt(kids, i + 1);
    LeastIsFirst(d, kids[i + 1]);
    var x := Contents(kids[i + 1])[0];
    assert x in AllContents(kids) && Overlaps(e, x);
  }

  /** The position that BTInsert uses in a leaf, where o is the object the key routes to. */
  lemma LeafPosition(c: seq<Extent>, pre: seq<Extent>, o: Extent, post: seq<Extent>, e: Extent)
    requires Routed(c, pre, [o], post, e.base) && e.base != o.base
    ensures e.base < o.base ==> InsertSorted(c, e) == pre + [e] + [o] + post
    ensures o.base < e.base ==> InsertSorted(c, e) == pre + [o] + [e] + post
    ensures Adjacent(InsertSorted(c, e), e, o)
  {
    InsertRouted(c, pre, [o], post, e);
    var s := InsertSorted([o], e);
    if e.base < o.base {
      assert s == [e, o];
      assert s[0] == e && s[0 + 1] == o;
    } else {
      assert s == [o, e];
      assert s[0] == o && s[0 + 1] == e;
    }
    AdjacentWithin(pre, s, post, e, o);
  }

  lemma LeafContents(t: Tree, hi: nat)
    requires Shape(1, t) && hi < |t.kids|
    ensures Contents(t.kids[hi]) == [t.kids[hi].e]
    ensures AllContents(t.kids[..hi + 1]) == AllContents(t.kids[..hi]) + [t.kids[hi].e]
    ensures hi > 0 ==> t.keys[hi - 1] == t.kids[hi].e.base
    ensures AllContents(t.kids) == AllContents(t.kids[..hi]) + [t.kids[hi].e] + AllContents(t.kids[hi + 1..])
  {
    AllContentsAt(t.kids, hi);
    AllContentsAt(t.kids[..hi + 1], hi);
    assert t.kids[..hi + 1][..hi] == t.kids[..hi] && t.kids[..hi + 1][hi + 1..] == [];
    if hi > 0 {
      assert t.keys[hi - 1] == Least(t.kids[hi - 1 + 1]);
    }
  }

  lemma LeafRejects(t: Tree, e: Extent)
    requires Shape(1, t) && Ordered(Contents(t)) && e.base !in t.keys
    requires Rank(t.keys, e.base) < |t.keys| ==> !Matches(e, t.keys[Rank(t.keys, e.base)])
    ensures InsertAtLeaf(t, e).Rejected? <==> Meets(e, Contents(t))
  {
    InnerRejects(0, t.keys, t.kids, e);
    LeafTest(t, e);
    hide *;
  }

  /** The test a leaf makes on the routed-to object is the whole overlap test for that object. */
  lemma LeafTest(t: Tree, e: Extent)
    requires Shape(1, t) && e.base !in t.keys
    ensures InsertAtLeaf(t, e).Rejected? <==> Meets(e, Contents(t.kids[Rank(t.keys, e.base)]))
    ensures Contents(t) == AllContents(t.kids)
  {
    hide Meets, AllContents, Least, WithEntry, TakeKeys, DropKeys;
    var hi := Rank(t.keys, e.base);
    LeafContents(t, hi);
    MeetsOne(e, t.kids[hi].e);
    if hi > 0 {
      assert t.keys[hi - 1] in t.keys;
    }
  }

  lemma MeetsOne(e: Extent, o: Extent)
    ensures Meets(e, [o]) <==> Overlaps(e, o)
    ensures o.base < e.base ==> (Overlaps(e, o) <==> Matches(o, e.base))
    ensures Matches(o, e.base) ==> Overlaps(e, o)
  {
    assert o in [o];
  }

  lemma LeafHolds(d: nat, t: Tree, e: Extent)
    requires d == 1 && Shape(d, t) && Ordered(Contents(t)) && e.base !in t.keys
    requires !InsertAtLeaf(t, e).Rejected?
    ensures Holds(d, InsertAtLeaf(t, e), InsertSorted(Contents(t), e), e)
  {
    hide Ordered, Contents, AllContents, Least, InsertSorted, Adjacent, Holds, AddEntry, Entry, Between;
    var o := t.kids[Rank(t.keys, e.base)].e;
    LeafSum(t, e);
    NewLeafChild(e);
    assert InsertAtLeaf(t, e) == AddEntry(t.keys, t.kids, LeafIndex(t, e), e.base, Obj(e), o);
    AddEntryHolds(d, t, LeafIndex(t, e), e.base, Obj(e), e, o, InsertSorted(Contents(t), e));
  }

  lemma NewLeafChild(e: Extent)
    ensures Entry(0, e.base, Obj(e))
  {
  }

  lemma LeafSum(t: Tree, e: Extent)
    requires Shape(1, t) && Ordered(Contents(t)) && e.base !in t.keys
    requires !Matches(t.kids[Rank(t.keys, e.base)].e, e.base)
    ensures var at := LeafIndex(t, e);
            InsertSorted(Contents(t), e) == Between(t.kids, at + 1, Contents(Obj(e)))
    ensures Adjacent(InsertSorted(Contents(t), e), e, t.kids[Rank(t.keys, e.base)].e)
  {
    var hi := Rank(t.keys, e.base);
    var o := t.kids[hi].e;
    LeafContents(t, hi);
    LeafBaseDiffers(t, hi, e);
    Route(0, t.keys, t.kids, e.base);
    var pre, post := AllContents(t.kids[..hi]), AllContents(t.kids[hi + 1..]);
    LeafPosition(Contents(t), pre, o, post, e);
    hide Ordered, Routed, InsertSorted, Adjacent, AllContents;
    if LeafIndex(t, e) < 0 {
      assert t.kids[..0] == [] && t.kids[0..] == t.kids;
      FrontSum(pre, e, o, post);
    }
  }

  lemma FrontSum(pre: seq<Extent>, e: Extent, o: Extent, post: seq<Extent>)
    ensures pre + [e] + [o] + post == pre + [e] + ([o] + post)
    ensures pre == [] ==> pre + [o] + post == [o] + post
  {
  }

  lemma LeafBaseDiffers(t: Tree, hi: nat, e: Extent)
    requires Shape(1, t) && Ordered(Contents(t)) && e.base !in t.keys && hi == Rank(t.keys, e.base)
    requires !Matches(t.kids[hi].e, e.base)
    ensures t.kids[hi].e.base != e.base
    ensures hi > 0 ==> t.kids[hi].e.base < e.base
  {
    LeafContents(t, hi);
    assert t.kids[hi].e in Contents(t);
    if hi > 0 {
      assert t.keys[hi - 1] in t.keys;
    }
  }

  lemma InsertedLeast(d: nat, t: Tree, mid: seq<Extent>, e: Extent, rest: seq<Extent>)
    requires Shape(d, t) && Contents(t) + rest == InsertSorted(mid, e)
    requires mid != [] && mid[0].base < e.base
    ensures Least(t) == mid[0].base
  {
    LeastIsFirst(d, t);
    assert Contents(t)[0] == InsertSorted(mid, e)[0];
  }

  lemma AdjacentRouted(c: seq<Extent>, pre: seq<Extent>, mid: seq<Extent>, post: seq<Extent>, e: Extent, ngb: Extent)
    requires Routed(c, pre, mid, post, e.base) && Adjacent(InsertSorted(mid, e), e, ngb)
    ensures Adjacent(InsertSorted(c, e), e, ngb)
  {
    InsertRouted(c, pre, mid, post, e);
    AdjacentWithin(pre, InsertSorted(mid, e), post, e, ngb);
  }

  /** An inner page passes on what its child reports: a replaced child, or one that split. */
  lemma InnerHolds(d: nat, t: Tree, e: Extent, r: InsertResult)
    requires d > 0 && Shape(d, t) && Ordered(Contents(t)) && e.base !in t.keys
    requires !r.Rejected? && Holds(d - 1, r, InsertSorted(Contents(t.kids[Rank(t.keys, e.base)]), e), e)
    requires r.Inserted? ==> Full(r.t)
    ensures Holds(d, PassOn(t.keys, t.kids, Rank(t.keys, e.base), r), InsertSorted(Contents(t), e), e)
  {
    hide Ordered, Contents, AllContents, InsertSorted, Adjacent, Holds, PassOn, Rank, Full, Least;
    var hi, s := Rank(t.keys, e.base), InsertSorted(Contents(t), e);
    HoldsParts(d - 1, r, InsertSorted(Contents(t.kids[hi]), e), e);
    InnerLeast(d, t, e, r);
    RoutedInsert(d, t, e, r.ngb);
    if r.Inserted? {
      ReplacedChild(d, t, hi, e, r, s);
    } else {
      SplitChild(d, t, hi, e, r, s);
    }
  }

  /** The child that takes the place of the routed-to one, and what it and a new sibling hold. */
  function First(r: InsertResult): Tree
    requires !r.Rejected?
  {
    if r.Inserted? then r.t else r.left
  }

  function ResultContents(r: InsertResult): seq<Extent>
    requires !r.Rejected?
  {
    if r.Inserted? then Contents(r.t) else Contents(r.left) + Contents(r.right)
  }

  lemma HoldsParts(d: nat, r: InsertResult, c: seq<Extent>, e: Extent)
    requires !r.Rejected? && Holds(d, r, c, e)
    ensures Adjacent(c, e, r.ngb) && ResultContents(r) == c && Shape(d, First(r))
    ensures r.Promoted? ==> Full(r.left) && Entry(d, r.key, r.right)
  {
  }

  lemma RoutedInsert(d: nat, t: Tree, e: Extent, ngb: Extent)
    requires d > 0 && Shape(d, t) && Ordered(Contents(t))
    requires Adjacent(InsertSorted(Contents(t.kids[Rank(t.keys, e.base)]), e), e, ngb)
    ensures var hi := Rank(t.keys, e.base);
            && InsertSorted(Contents(t), e) == Around(t.kids, hi, InsertSorted(Contents(t.kids[hi]), e))
            && Adjacent(InsertSorted(Contents(t), e), e, ngb)
  {
    hide Shape, Row, Ordered, AllContents, InsertSorted, Routed, Adjacent, Rank;
    ShapeIsRow(d, t);
    var hi := Rank(t.keys, e.base);
    Route(d - 1, t.keys, t.kids, e.base);
    var pre, mid, post := AllContents(t.kids[..hi]), Contents(t.kids[hi]), AllContents(t.kids[hi + 1..]);
    InsertRouted(Contents(t), pre, mid, post, e);
    AdjacentRouted(Contents(t), pre, mid, post, e, ngb);
  }

  /** A page whose child hi is replaced by a full one with the least key that the separator names. */
  lemma ReplacedShape(d: nat, t: Tree, hi: nat, c: Tree)
    requires d > 0 && Shape(d, t) && hi <= |t.keys| && Shape(d - 1, c) && Full(c)
    requires hi > 0 ==> t.keys[hi - 1] == Least(c)
    ensures Shape(d, Page(t.keys, t.kids[hi := c]))
    ensures AllContents(t.kids[hi := c]) == Around(t.kids, hi, Contents(c))
  {
    RowReplace(d - 1, t.keys, t.kids, hi, c);
  }

  lemma ReplacedChild(d: nat, t: Tree, hi: nat, e: Extent, r: InsertResult, s: seq<Extent>)
    requires d > 0 && Shape(d, t) && hi <= |t.keys|
    requires r.Inserted? && Shape(d - 1, r.t) && Full(r.t) && (hi > 0 ==> t.keys[hi - 1] == Least(r.t))
    requires s == Around(t.kids, hi, ResultContents(r)) && Adjacent(s, e, r.ngb)
    ensures Holds(d, PassOn(t.keys, t.kids, hi, r), s, e)
  {
    ReplacedShape(d, t, hi, r.t);
  }

  lemma SplitChild(d: nat, t: Tree, hi: nat, e: Extent, r: InsertResult, s: seq<Extent>)
    requires d > 0 && Shape(d, t) && hi <= |t.keys|
    requires r.Promoted? && Shape(d - 1, r.left) && Full(r.left) && (hi > 0 ==> t.keys[hi - 1] == Least(r.left))
    requires Entry(d - 1, r.key, r.right)
    requires s == Around(t.kids, hi, ResultContents(r)) && Adjacent(s, e, r.ngb)
    ensures Holds(d, PassOn(t.keys, t.kids, hi, r), s, e)
  {
    ReplacedShape(d, t, hi, r.left);
    SplitChildContents(t.kids, hi, r.left);
    var t' := Page(t.keys, t.kids[hi := r.left]);
    Regroup(AllContents(t.kids[..hi]), Contents(r.left), Contents(r.right), AllContents(t.kids[hi + 1..]));
    assert s == Between(t'.kids, hi + 1, Contents(r.right));
    assert |t'.keys| == |t.keys| && |t.keys| <= BT_MAXKEY && |t'.kids| == |t'.keys| + 1;
    assert PassOn(t.keys, t.kids, hi, r) == AddEntry(t'.keys, t'.kids, hi, r.key, r.right, r.ngb);
    hide Contents, AllContents, Shape, AddEntry, Holds, Adjacent, Between, Entry, PassOn, Around;
    AddEntryHolds(d, t', hi, r.key, r.right, e, r.ngb, s);
  }

  /** What a child keeps of its least key, when the new base routes past that. */
  lemma InnerLeast(d: nat, t: Tree, e: Extent, r: InsertResult)
    requires d > 0 && Shape(d, t) && e.base !in t.keys
    requires !r.Rejected? && Shape(d - 1, First(r))
    requires ResultContents(r) == InsertSorted(Contents(t.kids[Rank(t.keys, e.base)]), e)
    ensures Rank(t.keys, e.base) > 0 ==> t.keys[Rank(t.keys, e.base) - 1] == Least(First(r))
  {
    var hi := Rank(t.keys, e.base);
    if hi > 0 {
      LeastIsFirst(d - 1, t.kids[hi]);
      assert t.keys[hi - 1] == Least(t.kids[hi - 1 + 1]) && t.keys[hi - 1] in t.keys;
      if r.Inserted? {
        assert Contents(r.t) + [] == Contents(r.t);
      }
      InsertedLeast(d - 1, First(r), Contents(t.kids[hi]), e, if r.Inserted? then [] else Contents(r.right));
    }
  }

  lemma SplitChildContents(kids: seq<Tree>, hi: nat, l: Tree)
    requires hi < |kids|
    ensures var kids' := kids[hi := l];
            && AllContents(kids'[..hi + 1]) == AllContents(kids[..hi]) + Contents(l)
            && AllContents(kids'[hi + 1..]) == AllContents(kids[hi + 1..])
  {
    var kids' := kids[hi := l];
    AllContentsAt(kids'[..hi + 1], hi);
    assert kids'[..hi + 1][..hi] == kids[..hi] && kids'[..hi + 1][hi + 1..] == [];
    assert kids'[hi + 1..] == kids[hi + 1..];
  }

  /** BTInsert never takes keys away from a page it does not split. */
  lemma {:induction false} InsertedIsNoSmaller(d: nat, t: Tree, e: Extent)
    requires d > 0 && Shape(d, t)
    ensures var r := InsertInto(d, t, e); r.Inserted? ==> r.t.Page? && |r.t.keys| >= |t.keys|
  {
  }

  /** The interval test of an inner page rejects only what really meets a stored object, and
      leaves the rest to be decided in the child. */
  lemma InnerRejects(d: nat, keys: seq<Key>, kids: seq<Tree>, e: Extent)
    requires Row(d, keys, kids) && Ordered(AllContents(kids)) && e.base !in keys
    ensures var hi := Rank(keys, e.base);
            Meets(e, AllContents(kids)) <==>
            (hi < |keys| && Matches(e, keys[hi])) || Meets(e, Contents(kids[hi]))
  {
    var hi := Rank(keys, e.base);
    Route(d, keys, kids, e.base);
    var post := AllContents(kids[hi + 1..]);
    MeetsOutside(AllContents(kids), AllContents(kids[..hi]), Contents(kids[hi]), post, e);
    if hi < |keys| {
      LeastOfRest(d, keys, kids, hi);
    } else {
      assert kids[hi + 1..] == [];
    }
  }

  /** BTInsert rejects an extent if and only if it meets a stored one, although it looks at one
      separator per level and at one object. */
  lemma {:induction false} InsertRejects(d: nat, t: Tree, e: Extent)
    requires d > 0 && Shape(d, t) && Ordered(Contents(t))
    ensures InsertInto(d, t, e).Rejected? <==> Meets(e, Contents(t))
    decreases d
  {
    hide Ordered, AllContents, Least, Routed, Meets, Full;
    var hi := Rank(t.keys, e.base);
    if e.base in t.keys {
      DuplicateMeets(d - 1, t.keys, t.kids, e);
    } else {
      InnerRejects(d - 1, t.keys, t.kids, e);
      if hi < |t.keys| && Matches(e, t.keys[hi]) {
      } else if d == 1 {
        LeafRejects(t, e);
      } else {
        Route(d - 1, t.keys, t.kids, e.base);
        InsertRejects(d - 1, t.kids[hi], e);
      }
    }
  }

  /** An accepted insertion keeps the shape and puts the extent at its place in key order, next
      to the neighbour it reports, through any cascade of splits. */
  lemma {:induction false} InsertHolds(d: nat, t: Tree, e: Extent)
    requires d > 0 && Shape(d, t) && Ordered(Contents(t))
    requires !InsertInto(d, t, e).Rejected?
    ensures Holds(d, InsertInto(d, t, e), InsertSorted(Contents(t), e), e)
    decreases d
  {
    if d == 1 {
      LeafHolds(d, t, e);
    } else {
      Route(d - 1, t.keys, t.kids, e.base);
      hide Ordered, Holds, InsertSorted, Routed, PassOn, InsertAtLeaf;
      InsertHolds(d - 1, t.kids[Rank(t.keys, e.base)], e);
      InsertedIsNoSmaller(d - 1, t.kids[Rank(t.keys, e.base)], e);
      InnerHolds(d, t, e, InsertInto(d - 1, t.kids[Rank(t.keys, e.base)], e));
    }
  }

  /** The page above a child that split, with the left part in the child's place, is well shaped. */
  lemma PageAboveSplit(d: nat, t: Tree, e: Extent)
    requires d > 1 && Shape(d, t) && Ordered(Contents(t)) && e.base !in t.keys
    requires InsertInto(d - 1, t.kids[Rank(t.keys, e.base)], e).Promoted?
    ensures var hi := Rank(t.keys, e.base); Shape(d, Page(t.keys, t.kids[hi := InsertInto(d - 1, t.kids[hi], e).left]))
  {
    var hi := Rank(t.keys, e.base);
    var r := InsertInto(d - 1, t.kids[hi], e);
    Route(d - 1, t.keys, t.kids, e.base);
    InsertHolds(d - 1, t.kids[hi], e);
    HoldsParts(d - 1, r, InsertSorted(Contents(t.kids[hi]), e), e);
    InnerLeast(d, t, e, r);
    ReplacedShape(d, t, hi, r.left);
  }

  /** The child that a key routes to is a proper index page of its own. */
  lemma RoutedChild(d: nat, t: Tree, k: Key)
    requires d > 1 && Shape(d, t) && Ordered(Contents(t))
    ensures Rank(t.keys, k) < |t.kids|
    ensures Shape(d - 1, t.kids[Rank(t.keys, k)]) && Ordered(Contents(t.kids[Rank(t.keys, k)]))
  {
    Route(d - 1, t.keys, t.kids, k);
  }

  /** A rejection is reported as a duplicate or as an overlap. */
  lemma {:induction false} StatusIsError(d: nat, t: Tree, e: Extent)
    requires d > 0 && Shape(d, t)
    ensures InsertInto(d, t, e).Rejected? ==> InsertInto(d, t, e).why in {BT_DUPLICATE, BT_OVERLAP}
    decreases d
  {
    var hi := Rank(t.keys, e.base);
    if d > 1 {
      StatusIsError(d - 1, t.kids[hi], e);
    }
  }
}

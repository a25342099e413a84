/** GetLeastKey, BTSearch and BTInsert of kernel/lib/klibc/btree.c on heap pages. */
module BTreeInsert {
  import opened Extents
  import opened Sequences
  import opened IndexTree
  import opened IndexInsert
  import opened SplitAsWritten
  import opened BTreePages
  import opened BTreeFamilies

  lemma ChildFits(p: Page, i: nat)
    requires p.Valid() && i <= p.count
    ensures |p.tree.kids| == p.count + 1 && Fits(p.isleaf, p.child[i], p.tree.kids[i], p.Repr - p.Own())
  {
    assert Family(p.isleaf, p.Slots(), p.tree.kids, p.Repr - p.Own());
    assert p.Slots()[i] == p.child[i];
  }

  /** A page is a leaf exactly when it is one level high. */
  lemma LeafIsBottom(p: Page, d: nat)
    requires p.Valid() && d > 0 && Shape(d, p.tree)
    ensures p.count >= 0 && (p.isleaf <==> d == 1)
    ensures |p.tree.keys| == p.count
  {
    ChildFits(p, 0);
  }

  /** The first child of a page leads to the least key below the page. */
  lemma FirstChild(p: Page, d: nat)
    requires p.Valid() && d > 0 && Shape(d, p.tree)
    ensures p.count >= 0 && p.InRange()
    ensures p.isleaf ==> p.child[0].Object? && Least(p.tree) == p.child[0].e.base
    ensures !p.isleaf ==>
              && p.child[0].Sub? && p.child[0].p.Valid() && d > 1 && Shape(d - 1, p.child[0].p.tree)
              && Least(p.child[0].p.tree) == Least(p.tree)
  {
    LeafIsBottom(p, d);
    ChildFits(p, 0);
  }

  /** GetLeastKey */
  method GetLeastKey(p: Page, ghost d: nat) returns (k: Key)
    requires p.Valid() && d > 0 && Shape(d, p.tree)
    ensures k == Least(p.tree)
  {
    hide Page.Valid, Shape;
    var q := p;
    ghost var n := d;
    FirstChild(q, n);
    while !q.isleaf
      invariant q.Valid() && n > 0 && Shape(n, q.tree) && Least(q.tree) == Least(p.tree)
      invariant q.count >= 0 && q.InRange()
      decreases n
    {
      FirstChild(q, n);
      q := q.child[0].p;
      n := n - 1;
      FirstChild(q, n);
    }
    FirstChild(q, n);
    k := q.child[0].e.base;
  }

  /** BTGetObjKey on the first child of a page, as it is meant for pages of either kind. */
  method LeastOfChild(c: Slot, ghost t: Tree, ghost d: nat, ghost leaf: bool, ghost R: set<object>) returns (k: Key)
    requires Fits(leaf, c, t, R) && Shape(d, t)
    ensures k == Least(t)
  {
    match c
    case Object(e) => k := e.base;
    case Sub(q) => k := GetLeastKey(q, d);
  }

  lemma Unpack(p: Page)
    requires p.Valid()
    ensures p.Own() <= p.Repr && p.InRange() && p.tree.Page? && p.tree.keys == p.Keys()
    ensures |p.tree.kids| == p.count + 1
    ensures Family(p.isleaf, p.Slots(), p.tree.kids, p.Repr - p.Own())
  {
  }

  /** Record that the page now represents the given tree, on the footprint F of its children. */
  ghost method Seat(p: Page, keys: seq<Key>, kids: seq<Tree>, F: set<object>)
    requires p.InRange() && p.Keys() == keys && Family(p.isleaf, p.Slots(), kids, F) && F !! p.Own()
    modifies p`tree, p`Repr
    ensures p.Valid() && p.tree == Page(keys, kids) && p.Repr == p.Own() + F
  {
    p.tree, p.Repr := Page(keys, kids), p.Own() + F;
    assert p.Repr - p.Own() == F;
  }

  lemma Footprint(repr: set<object>, own: set<object>, R: set<object>)
    requires own <= repr && R !! repr
    ensures ((repr - own) + R) !! own && own + ((repr - own) + R) == repr + R && R !! (repr - own)
  {
  }

  /** The key that BTInsertPage puts in: the one it is given, or in front of all others what it reads as the key
      of the first child. */
  function KeyRead(kids: seq<Tree>, hi: int, k: Key, word: Key): Key
    requires kids != []
  {
    if hi >= 0 then k else if kids[0].Obj? then kids[0].e.base else word
  }

  lemma EntryRead(keys: seq<Key>, kids: seq<Tree>, hi: int, k: Key, c: Tree, word: Key)
    requires |kids| == |keys| + 1 && -1 <= hi <= |keys|
    ensures EntryAsWritten(keys, kids, hi, k, c, word) ==
            Page(InsertedAt(keys, if hi < 0 then 0 else hi, KeyRead(kids, hi, k, word)), InsertedAt(kids, hi + 1, c))
  {
  }

  lemma FirstKey(p: Page, kids: seq<Tree>, F: set<object>, word: Key)
    requires p.InRange() && 0 <= p.count && Family(p.isleaf, p.Slots(), kids, F)
    ensures |kids| == p.count + 1
    ensures (if p.child[0].Object? then p.child[0].e.base else word) == KeyRead(kids, -1, 0, word)
  {
    assert p.Slots()[0] == p.child[0] && Fits(p.isleaf, p.Slots()[0], kids[0], F);
    if p.child[0].Sub? {
      Unpack(p.child[0].p);
    }
  }

  /** The page movement of BTInsertPage, and what it does to the family of children. */
  method PutEntry(p: Page, hi: int, k: Key, c: Slot, word: Key,
                  ghost kids: seq<Tree>, ghost F: set<object>, ghost ct: Tree, ghost R: set<object>)
    requires p.InRange() && 0 <= p.count < BT_MAXKEY && -1 <= hi <= p.count
    requires Family(p.isleaf, p.Slots(), kids, F) && F !! p.Own()
    requires Fits(p.isleaf, c, ct, R) && R !! F && R !! p.Own()
    modifies p`count, p.key, p.child
    ensures p.InRange() && p.count == old(p.count) + 1 && kids != []
    ensures p.Keys() == InsertedAt(old(p.Keys()), if hi < 0 then 0 else hi, KeyRead(kids, hi, k, word))
    ensures Family(p.isleaf, p.Slots(), InsertedAt(kids, hi + 1, ct), F + R)
  {
    hide Family, Fits;
    FirstKey(p, kids, F, word);
    var first := if p.child[0].Object? then p.child[0].e.base else word;
    FamilyInsert(p.isleaf, p.Slots(), kids, F, hi + 1, c, ct, R);
    p.ShiftIn(hi, k, c, first);
  }

  /** BTInsertPage to the letter. `word` is what it reads as the base of an object when the first child is a
      page. */
  method BTInsertPage(p: Page, hi: int, k: Key, c: Slot, word: Key, ghost ct: Tree, ghost R: set<object>)
    requires p.Valid() && 0 <= p.count < BT_MAXKEY && -1 <= hi <= p.count
    requires Fits(p.isleaf, c, ct, R) && R !! p.Repr
    requires |p.tree.keys| == p.count && |p.tree.kids| == p.count + 1
    modifies p, p.key, p.child
    ensures p.Valid() && p.isleaf == old(p.isleaf) && p.count == old(p.count) + 1
    ensures p.tree == EntryAsWritten(old(p.tree.keys), old(p.tree.kids), hi, k, ct, word)
    ensures p.Repr == old(p.Repr) + R
  {
    hide InsertedAt, Family, Fits, Page.Valid, EntryAsWritten, KeyRead;
    Unpack(p);
    ghost var keys, kids, F := p.Keys(), p.tree.kids, p.Repr - p.Own();
    Footprint(p.Repr, p.Own(), R);
    EntryRead(keys, kids, hi, k, ct, word);
    PutEntry(p, hi, k, c, word, kids, F, ct, R);
    ghost var x := KeyRead(kids, hi, k, word);
    Seat(p, InsertedAt(keys, if hi < 0 then 0 else hi, x), InsertedAt(kids, hi + 1, ct), F + R);
  }

  /** The page movement of the split, and what it does to the family of children. */
  method MoveEntries(p: Page, kc: nat, clear: bool, ghost kids: seq<Tree>, ghost F: set<object>)
    returns (q: Page, kmed: Key, ghost A: set<object>, ghost B: set<object>)
    requires p.InRange() && p.count == BT_MAXKEY && kc < BT_MAXKEY
    requires Family(p.isleaf, p.Slots(), kids, F) && F !! p.Own()
    modifies p`count, p.key, p.child
    ensures p.InRange() && q.InRange() && p.count == kc && q.count == BT_MAXKEY - kc - 1
    ensures q.isleaf == p.isleaf && fresh(q.Own()) && A !! B && A <= F && B <= F
    ensures kmed == old(p.Keys())[kc]
    ensures p.Keys() == old(p.Keys())[..kc] && q.Keys() == old(p.Keys())[kc + 1..]
    ensures Family(p.isleaf, p.Slots(), kids[..kc + 1], A)
    ensures Family(q.isleaf, q.Slots(), kids[kc + 1..], B)
  {
    A, B := FamilySplit(p.isleaf, p.Slots(), kids, F, kc + 1);
    hide Family, Fits;
    q, kmed := p.MoveTail(kc, clear);
  }

  /** The split of a full page at key kc. */
  method SplitPage(p: Page, kc: nat, clear: bool) returns (q: Page, kmed: Key)
    requires p.Valid() && p.count == BT_MAXKEY && kc < BT_MAXKEY
    requires |p.tree.keys| == BT_MAXKEY && |p.tree.kids| == BT_MAXKEY + 1
    modifies p, p.key, p.child
    ensures p.Valid() && q.Valid() && p.isleaf == old(p.isleaf) && q.isleaf == p.isleaf
    ensures kmed == old(p.tree.keys)[kc]
    ensures p.tree == TakeKeys(old(p.tree), kc) && q.tree == DropKeys(old(p.tree), kc)
    ensures p.count == kc && q.count == BT_MAXKEY - kc - 1
    ensures p.Repr !! q.Repr && fresh(q) && fresh(q.key) && fresh(q.child) && fresh(q.Repr - old(p.Repr)) &&
            p.Repr <= old(p.Repr)
  {
    hide Family, Fits, Page.Valid;
    Unpack(p);
    ghost var keys, kids, F := p.Keys(), p.tree.kids, p.Repr - p.Own();
    ghost var A, B;
    q, kmed, A, B := MoveEntries(p, kc, clear, kids, F);
    Seat(p, keys[..kc], kids[..kc + 1], A);
    Seat(q, keys[kc + 1..], kids[kc + 1..], B);
    TwoFootprints(old(p.Repr), p.Own(), q.Own(), A, B);
  }

  lemma TwoFootprints(repr: set<object>, own: set<object>, own': set<object>, A: set<object>, B: set<object>)
    requires own <= repr && own' !! repr && A !! B && A <= repr - own && B <= repr - own
    ensures own + A !! own' + B && own' + B - repr <= own' && own + A <= repr
  {
  }

  // ---------------------------------------------------------------- the split

  /** The promoted entry goes into the original page. */
  method SplitInsertOld(p: Page, hi: int, k: Key, c: Slot, word: Key, ghost ct: Tree, ghost R: set<object>)
    returns (kprom: Key, pprom: Slot)
    requires p.Valid() && p.count == BT_MAXKEY && -1 <= hi < BT_MINKEY
    requires |p.tree.keys| == BT_MAXKEY && |p.tree.kids| == BT_MAXKEY + 1
    requires Fits(p.isleaf, c, ct, R) && R !! p.Repr
    modifies p, p.key, p.child
    ensures p.Valid() && p.isleaf == old(p.isleaf)
    ensures pprom.Sub? && pprom.p.Valid() && p.Repr !! pprom.p.Repr
    ensures fresh(p.Repr - old(p.Repr) - R) && fresh(pprom.p.Repr - old(p.Repr) - R)
    ensures var l := TakeKeys(old(p.tree), BT_MINKEY - 1);
            p.tree == EntryAsWritten(l.keys, l.kids, hi, k, ct, word)
    ensures kprom == old(p.tree.keys)[BT_MINKEY - 1] && pprom.p.tree == DropKeys(old(p.tree), BT_MINKEY - 1)
  {
    hide EntryAsWritten, Page.Valid, Fits;
    var q;
    q, kprom := SplitPage(p, BT_MINKEY as int - 1, true);
    BTInsertPage(p, hi, k, c, word, ct, R);
    pprom := Sub(q);
  }

  /** The promoted entry goes into the new page, or its key between the two. */
  method SplitInsertNew(p: Page, hi: int, k: Key, c: Slot, word: Key, ghost ct: Tree, ghost R: set<object>)
    returns (kprom: Key, pprom: Slot)
    requires p.Valid() && p.count == BT_MAXKEY && BT_MINKEY <= hi <= p.count
    requires |p.tree.keys| == BT_MAXKEY && |p.tree.kids| == BT_MAXKEY + 1
    requires Fits(p.isleaf, c, ct, R) && R !! p.Repr
    modifies p, p.key, p.child
    ensures p.Valid() && p.isleaf == old(p.isleaf)
    ensures pprom.Sub? && pprom.p.Valid() && p.Repr !! pprom.p.Repr
    ensures fresh(p.Repr - old(p.Repr) - R) && fresh(pprom.p.Repr - old(p.Repr) - R)
    ensures kprom == if hi == BT_MINKEY then k else old(p.tree.keys)[BT_MINKEY]
    ensures p.tree == TakeKeys(old(p.tree), BT_MINKEY)
    ensures var r := DropKeys(old(p.tree), BT_MINKEY);
            pprom.p.tree == EntryAsWritten(r.keys, r.kids, hi - (BT_MINKEY + 1), k, ct, word)
  {
    hide EntryAsWritten, Page.Valid, Fits;
    var q;
    q, kprom := SplitPage(p, BT_MINKEY, hi != BT_MINKEY);
    if hi == BT_MINKEY {
      kprom := k;
    }
    BTInsertPage(q, hi - (BT_MINKEY + 1), k, c, word, ct, R);
    pprom := Sub(q);
  }

  /** BTInsert on a full page, to the letter: the two pages and the key between them. */
  method SplitAndInsert(p: Page, hi: int, k: Key, c: Slot, word: Key, ghost ct: Tree, ghost R: set<object>)
    returns (kprom: Key, pprom: Slot)
    requires p.Valid() && p.count == BT_MAXKEY && -1 <= hi <= p.count
    requires |p.tree.keys| == BT_MAXKEY && |p.tree.kids| == BT_MAXKEY + 1
    requires Fits(p.isleaf, c, ct, R) && R !! p.Repr
    modifies p, p.key, p.child
    ensures p.Valid() && p.isleaf == old(p.isleaf)
    ensures pprom.Sub? && pprom.p.Valid() && p.Repr !! pprom.p.Repr
    ensures fresh(p.Repr - old(p.Repr) - R) && fresh(pprom.p.Repr - old(p.Repr) - R)
    ensures Pieces(p.tree, kprom, pprom.p.tree) == Split(old(p.tree.keys), old(p.tree.kids), hi, k, ct, word)
  {
    hide EntryAsWritten, Page.Valid, Fits;
    if hi < BT_MINKEY {
      kprom, pprom := SplitInsertOld(p, hi, k, c, word, ct, R);
    } else {
      kprom, pprom := SplitInsertNew(p, hi, k, c, word, ct, R);
    }
  }

  lemma FullPage(d: nat, t: Tree)
    requires d > 0 && Shape(d, t)
    ensures t.Page? && |t.kids| == |t.keys| + 1 && |t.keys| <= BT_MAXKEY && (d == 1 ==> t.kids[0].Obj?)
    ensures |t.keys| == BT_MAXKEY ==>
              t.keys[BT_MINKEY] == Least(t.kids[BT_MINKEY + 1]) && Shape(d - 1, t.kids[BT_MINKEY + 1])
  {
  }

  /** The return values and the page trees of BTInsert say what the result of an insertion says. */
  ghost predicate Answers(r: InsertResult, before: Tree, retval: Status, after: Tree, kprom: Key, right: Tree,
                          ngb: seq<Extent>) {
    match r
    case Rejected(why) => retval == why && why != BT_OK && why != BT_PROMOTION && after == before
    case Inserted(t, n) => retval == BT_OK && after == t && ngb == [n]
    case Promoted(l, k, r', n) => retval == BT_PROMOTION && after == l && kprom == k && right == r' && ngb == [n]
  }

  /** The same for an entry added to a page, which cannot be rejected. */
  ghost predicate Added(r: InsertResult, retval: Status, after: Tree, kprom: Key, right: Tree) {
    match r
    case Rejected(_) => false
    case Inserted(t, _) => retval == BT_OK && after == t
    case Promoted(l, k, r', _) => retval == BT_PROMOTION && after == l && kprom == k && right == r'
  }

  lemma AddedAnswers(keys: seq<Key>, kids: seq<Tree>, hi: int, k: Key, c: Tree, ngb: Extent,
                     before: Tree, retval: Status, after: Tree, kprom: Key, right: Tree)
    requires |kids| == |keys| + 1 && |keys| <= BT_MAXKEY && -1 <= hi <= |keys|
    requires Added(AddEntry(keys, kids, hi, k, c, ngb), retval, after, kprom, right)
    ensures Answers(AddEntry(keys, kids, hi, k, c, ngb), before, retval, after, kprom, right, [ngb])
  {
  }

  /** The right part of a split page, or a stand-in when there is none. */
  ghost function RightTree(retval: Status, pprom: Slot): Tree
    reads if pprom.Sub? then {pprom.p} else {}
  {
    if retval == BT_PROMOTION && pprom.Sub? then pprom.p.tree else Obj(Extent(0, 0, 0))
  }

  /** The key that the code should read when a promoted page goes into the middle of a full page. */
  method MiddleKey(p: Page, hi: int, ghost d: nat) returns (word: Key)
    requires p.Valid() && d > 0 && Shape(d, p.tree) && -1 <= hi <= p.count
    requires |p.tree.keys| == p.count && |p.tree.kids| == p.count + 1
    ensures p.count == BT_MAXKEY && hi == BT_MINKEY ==> word == p.tree.keys[BT_MINKEY]
  {
    word := 0;
    if p.count == BT_MAXKEY && hi == BT_MINKEY {
      FullPage(d, p.tree);
      ChildFits(p, BT_MINKEY + 1);
      Unpack(p);
      word := LeastOfChild(p.child[BT_MINKEY as int + 1], p.tree.kids[BT_MINKEY + 1], d - 1, p.isleaf,
          p.Repr - p.Own());
    }
  }

  /** BTInsert on a page, once the entry to add is known: put it in, or split the page when it is full. This is
      where the code is repaired: instead of a stray word it gets the key that it should read. */
  method AddToPage(p: Page, hi: int, k: Key, c: Slot, ghost ct: Tree, ghost R: set<object>, ghost d: nat,
                   ghost ngb: Extent)
    returns (retval: Status, kprom: Key, pprom: Slot)
    requires p.Valid() && d > 0 && Shape(d, p.tree) && -1 <= hi <= p.count && (hi < 0 ==> d == 1)
    requires Fits(p.isleaf, c, ct, R) && R !! p.Repr
    requires |p.tree.keys| == p.count && |p.tree.kids| == p.count + 1
    modifies p, p.key, p.child
    ensures p.Valid() && p.isleaf == old(p.isleaf) && fresh(p.Repr - old(p.Repr) - R)
    ensures retval == BT_PROMOTION ==>
              pprom.Sub? && pprom.p.Valid() && p.Repr !! pprom.p.Repr && fresh(pprom.p.Repr - old(p.Repr) - R)
    ensures retval == BT_OK || retval == BT_PROMOTION
    ensures Added(AddEntry(old(p.tree.keys), old(p.tree.kids), hi, k, ct, ngb), retval, p.tree, kprom,
                  RightTree(retval, pprom))
  {
    hide Page.Valid, Fits, Shape, AddEntry, EntryAsWritten, Split;
    FullPage(d, p.tree);
    var word := MiddleKey(p, hi, d);
    AddAgrees(p.tree.keys, p.tree.kids, hi, k, ct, ngb, word);
    kprom, pprom := k, c;
    if p.count < BT_MAXKEY {
      BTInsertPage(p, hi, k, c, word, ct, R);
      retval := BT_OK;
    } else {
      kprom, pprom := SplitAndInsert(p, hi, k, c, word, ct, R);
      retval := BT_PROMOTION;
    }
  }

  /** A child page with its own footprint, and the rest of the family. */
  lemma ChildPage(p: Page, hi: nat) returns (B: set<object>)
    requires p.Valid() && !p.isleaf && hi <= p.count
    ensures |p.tree.kids| == p.count + 1 && p.child[hi].Sub?
    ensures p.child[hi].p.Valid() && p.child[hi].p.tree == p.tree.kids[hi]
    ensures p.child[hi].p.Repr <= p.Repr - p.Own() && B <= p.Repr - p.Own() && B !! p.child[hi].p.Repr
    ensures Family(false, RemovedAt(p.Slots(), hi), RemovedAt(p.tree.kids, hi), B)
  {
    Unpack(p);
    ChildFits(p, hi);
    var A;
    A, B := FamilyOut(false, p.Slots(), p.tree.kids, p.Repr - p.Own(), hi);
  }

  /** Record in the page that its child hi now represents another tree. */
  ghost method Reseat(p: Page, hi: nat, kids: seq<Tree>, B: set<object>)
    requires p.InRange() && hi <= p.count && |kids| == p.count + 1 && !p.isleaf
    requires p.child[hi].Sub? && p.child[hi].p.Valid() && p.child[hi].p.Repr !! B
    requires B !! p.Own() && p.child[hi].p.Repr !! p.Own()
    requires Family(false, RemovedAt(p.Slots(), hi), RemovedAt(kids, hi), B)
    modifies p`tree, p`Repr
    ensures p.Valid() && p.tree == Page(p.Keys(), kids[hi := old(p.child[hi].p.tree)])
    ensures p.Repr == p.Own() + (B + old(p.child[hi].p.Repr))
  {
    var c := p.child[hi].p;
    assert p.Slots()[hi] == p.child[hi];
    FamilyIn(false, p.Slots(), kids, B, hi, c.tree, c.Repr);
    Seat(p, p.Keys(), kids[hi := c.tree], B + c.Repr);
  }

  /** The inner case without its last step: what the page holds when child hi has been served. */
  ghost function Served(t: Tree, hi: nat, r: InsertResult): InsertResult
    requires t.Page? && hi < |t.kids|
  {
    match r
    case Rejected(why) => r
    case Inserted(c, n) => Inserted(Page(t.keys, t.kids[hi := c]), n)
    case Promoted(c, k, right, n) => Promoted(Page(t.keys, t.kids[hi := c]), k, right, n)
  }

  /** BTInsert. The page, its footprint and the returned right part represent what InsertInto says;
      a rejected extent leaves every page as it was. */
  method BTInsert(p: Page, e: Extent, ghost d: nat)
    returns (retval: Status, kprom: Key, pprom: Slot, ngb: seq<Extent>)
    requires p.Valid() && d > 0 && Shape(d, p.tree) && Ordered(Contents(p.tree))
    modifies p.Repr
    ensures Shape(d, old(p.tree))
    ensures p.Valid() && p.isleaf == old(p.isleaf) && fresh(p.Repr - old(p.Repr))
    ensures retval == BT_PROMOTION ==>
              pprom.Sub? && pprom.p.Valid() && p.Repr !! pprom.p.Repr && fresh(pprom.p.Repr - old(p.Repr))
    ensures Answers(InsertInto(d, old(p.tree), e), old(p.tree), retval, p.tree, kprom, RightTree(retval, pprom), ngb)
    ensures retval != BT_OK && retval != BT_PROMOTION ==> unchanged(old(p.Repr))
    decreases d, 3
  {
    hide Family, Fits, Page.Valid, Ordered, Contents, AllContents, Least, Rank, PassOn, AddEntry;
    kprom, pprom, ngb := 0, Nil, [];
    ghost var t := p.tree;
    Unpack(p);
    LeafIsBottom(p, d);
    ContentsOfPage(t);
    SeparatorsAscend(d - 1, t.keys, t.kids);
    var hi, dup := p.Locate(e.base);
    if dup {
      retval := BT_DUPLICATE;
    } else if hi < p.count && Matches(e, p.key[hi]) {
      retval := BT_OVERLAP;
    } else {
      retval, kprom, pprom, ngb := InsertAt(p, e, hi, d);
    }
  }

  /** BTInsert once the page has been searched. */
  method InsertAt(p: Page, e: Extent, hi: nat, ghost d: nat)
    returns (retval: Status, kprom: Key, pprom: Slot, ngb: seq<Extent>)
    requires p.Valid() && d > 0 && Shape(d, p.tree) && Ordered(Contents(p.tree))
    requires hi <= p.count && hi == Rank(p.tree.keys, e.base) && e.base !in p.tree.keys
    requires hi < |p.tree.keys| ==> !Matches(e, p.tree.keys[hi])
    modifies p.Repr
    ensures Shape(d, old(p.tree))
    ensures p.Valid() && p.isleaf == old(p.isleaf) && fresh(p.Repr - old(p.Repr))
    ensures retval == BT_PROMOTION ==>
              pprom.Sub? && pprom.p.Valid() && p.Repr !! pprom.p.Repr && fresh(pprom.p.Repr - old(p.Repr))
    ensures Answers(InsertInto(d, old(p.tree), e), old(p.tree), retval, p.tree, kprom, RightTree(retval, pprom), ngb)
    ensures retval != BT_OK && retval != BT_PROMOTION ==> unchanged(old(p.Repr))
    decreases d, 2
  {
    LeafIsBottom(p, d);
    if p.isleaf {
      retval, kprom, pprom, ngb := InsertHere(p, e, hi);
    } else {
      retval, kprom, pprom, ngb := InsertBelow(p, e, hi, d);
    }
  }

  /** The leaf case of BTInsert. */
  method InsertHere(p: Page, e: Extent, hi: nat)
    returns (retval: Status, kprom: Key, pprom: Slot, ngb: seq<Extent>)
    requires p.Valid() && Shape(1, p.tree) && p.isleaf && hi <= p.count && hi == Rank(p.tree.keys, e.base)
    modifies p.Repr
    ensures Shape(1, old(p.tree))
    ensures p.Valid() && p.isleaf && fresh(p.Repr - old(p.Repr))
    ensures retval == BT_PROMOTION ==>
              pprom.Sub? && pprom.p.Valid() && p.Repr !! pprom.p.Repr && fresh(pprom.p.Repr - old(p.Repr))
    ensures Answers(InsertAtLeaf(old(p.tree), e), old(p.tree), retval, p.tree, kprom, RightTree(retval, pprom), ngb)
    ensures retval != BT_OK && retval != BT_PROMOTION ==> unchanged(old(p.Repr))
  {
    kprom, pprom, ngb := 0, Nil, [];
    ghost var t := p.tree;
    Unpack(p);
    ChildFits(p, hi);
    LeafIsBottom(p, 1);
    var o := p.child[hi].e;
    LeafForm(t, e, hi, o);
    NewLeafChild(e);
    hide WithEntry, Family, Fits, Shape, TakeKeys, DropKeys, Page.Valid, InsertAtLeaf, Rank, LeafIndex, AddEntry;
    if Matches(o, e.base) || (hi == 0 && Overlaps(e, o)) {
      retval := BT_OVERLAP;
    } else {
      var at := if hi == 0 && e.base < o.base then -1 else hi;
      ngb := [o];
      retval, kprom, pprom := AddToPage(p, at, e.base, Object(e), Obj(e), {}, 1, o);
      AddedAnswers(t.keys, t.kids, at, e.base, Obj(e), o, t, retval, p.tree, kprom, RightTree(retval, pprom));
    }
  }

  /** The leaf case in terms of the object that the key routes to. */
  lemma LeafForm(t: Tree, e: Extent, hi: nat, o: Extent)
    requires Shape(1, t) && hi == Rank(t.keys, e.base) && t.kids[hi] == Obj(o)
    ensures InsertAtLeaf(t, e) ==
            if Matches(o, e.base) || (hi == 0 && Overlaps(e, o)) then Rejected(BT_OVERLAP)
            else AddEntry(t.keys, t.kids, if hi == 0 && e.base < o.base then -1 else hi, e.base, Obj(e), o)
  {
  }

  /** The inner case of BTInsert: serve the child, and add what it promotes. */
  method InsertBelow(p: Page, e: Extent, hi: nat, ghost d: nat)
    returns (retval: Status, kprom: Key, pprom: Slot, ngb: seq<Extent>)
    requires p.Valid() && d > 1 && Shape(d, p.tree) && Ordered(Contents(p.tree)) && !p.isleaf
    requires hi <= p.count && hi == Rank(p.tree.keys, e.base) && e.base !in p.tree.keys
    modifies p.Repr
    ensures Shape(d - 1, old(p.tree.kids[hi])) && |old(p.tree.keys)| <= BT_MAXKEY
    ensures p.Valid() && p.isleaf == old(p.isleaf) && fresh(p.Repr - old(p.Repr))
    ensures retval == BT_PROMOTION ==>
              pprom.Sub? && pprom.p.Valid() && p.Repr !! pprom.p.Repr && fresh(pprom.p.Repr - old(p.Repr))
    ensures Answers(PassOn(old(p.tree.keys), old(p.tree.kids), hi, InsertInto(d - 1, old(p.tree.kids[hi]), e)),
                    old(p.tree), retval, p.tree, kprom, RightTree(retval, pprom), ngb)
    ensures retval != BT_OK && retval != BT_PROMOTION ==> unchanged(old(p.Repr))
    decreases d, 1
  {
    hide Family, Fits, Contents, Ordered, Page.Valid, InsertInto, AddEntry, Rank, Least;
    ghost var t := p.tree;
    Unpack(p);
    ghost var r := InsertInto(d - 1, t.kids[hi], e);
    retval, kprom, pprom, ngb := Descend(p, e, hi, d);
    if retval == BT_PROMOTION {
      PageAboveSplit(d, t, e);
      retval, kprom, pprom := AddPromoted(p, hi, kprom, pprom, t, r, d);
    }
  }

  /** The promoted right part of child hi becomes an entry of the page. */
  method AddPromoted(p: Page, hi: nat, k: Key, c: Slot, ghost t: Tree, ghost r: InsertResult, ghost d: nat)
    returns (retval: Status, kprom: Key, pprom: Slot)
    requires p.Valid() && d > 0 && Shape(d, p.tree) && hi <= p.count && !p.isleaf
    requires t.Page? && |t.kids| == |t.keys| + 1 == p.count + 1 && |t.keys| <= BT_MAXKEY
    requires r.Promoted? && p.tree == Page(t.keys, t.kids[hi := r.left])
    requires c.Sub? && c.p.Valid() && c.p.tree == r.right && k == r.key && c.p.Repr !! p.Repr
    modifies p, p.key, p.child
    ensures p.Valid() && p.isleaf == old(p.isleaf) && fresh(p.Repr - old(p.Repr) - old(c.p.Repr))
    ensures retval == BT_OK || retval == BT_PROMOTION
    ensures retval == BT_PROMOTION ==>
              && pprom.Sub? && pprom.p.Valid() && p.Repr !! pprom.p.Repr
              && fresh(pprom.p.Repr - old(p.Repr) - old(c.p.Repr))
    ensures Answers(PassOn(t.keys, t.kids, hi, r), t, retval, p.tree, kprom, RightTree(retval, pprom), [r.ngb])
  {
    hide Family, Shape, Page.Valid, AddEntry;
    retval, kprom, pprom := AddToPage(p, hi, k, c, r.right, c.p.Repr, d, r.ngb);
    AddedAnswers(t.keys, t.kids[hi := r.left], hi, r.key, r.right, r.ngb, t, retval, p.tree, kprom,
        RightTree(retval, pprom));
  }

  /** The recursive call of BTInsert, after which the page represents its old tree with child hi
      replaced by what that child has become. */
  method Descend(p: Page, e: Extent, hi: nat, ghost d: nat)
    returns (retval: Status, kprom: Key, pprom: Slot, ngb: seq<Extent>)
    requires p.Valid() && d > 1 && Shape(d, p.tree) && Ordered(Contents(p.tree)) && !p.isleaf
    requires hi <= p.count && hi == Rank(p.tree.keys, e.base)
    modifies p.Repr
    ensures Shape(d - 1, old(p.tree.kids[hi]))
    ensures p.Valid() && p.isleaf == old(p.isleaf) && fresh(p.Repr - old(p.Repr)) && p.count == old(p.count)
    ensures retval == BT_PROMOTION ==>
              pprom.Sub? && pprom.p.Valid() && p.Repr !! pprom.p.Repr && fresh(pprom.p.Repr - old(p.Repr))
    ensures Answers(Served(old(p.tree), hi, InsertInto(d - 1, old(p.tree.kids[hi]), e)),
                    old(p.tree), retval, p.tree, kprom, RightTree(retval, pprom), ngb)
    ensures retval != BT_OK && retval != BT_PROMOTION ==> unchanged(old(p.Repr))
    decreases d, 0
  {
    hide Family, Fits, Shape, Contents, Ordered, Page.Valid, InsertInto, RemovedAt, Rank, Least, Full;
    Unpack(p);
    RoutedChild(d, p.tree, e.base);
    ghost var kids := p.tree.kids;
    ghost var B := ChildPage(p, hi);
    var c := p.child[hi].p;
    retval, kprom, pprom, ngb := BTInsert(c, e, d - 1);
    if retval == BT_OK || retval == BT_PROMOTION {
      Reseat(p, hi, kids, B);
    }
  }
}

/** What searches find in an index that BTInsert to the letter leaves behind. */
module SearchAsWritten {
  import opened Extents
  import opened Sequences
  import opened IndexTree
  import opened IndexInsert
  import opened ObjectIndex
  import opened SplitAsWritten
  import opened InsertAsWritten

  // ---------------------------------------------------------------- searching pages

  /** BTSearch on any pages: the object that the descent ends at. */
  function Descent(t: Tree, k: Key): seq<Extent> {
    match t
    case Obj(e) => [e]
    case Page(keys, kids) => if Rank(keys, k) < |kids| then Descent(kids[Rank(keys, k)], k) else []
  }

  /** Every address of every stored object leads to that object. */
  ghost predicate Finds(t: Tree) {
    forall x, a :: x in Contents(t) && Matches(x, a) ==> Descent(t, a) == [x]
  }

  /** `d` levels of pages, whatever their separators are. */
  ghost predicate Levels(d: nat, t: Tree)
    decreases d
  {
    match t
    case Obj(_) => d == 0
    case Page(keys, kids) => d > 0 && |kids| == |keys| + 1 && forall i :: 0 <= i < |kids| ==> Levels(d - 1, kids[i])
  }

  /** Every separator lies between the objects before it and those behind it. */
  ghost predicate Separated(keys: seq<Key>, kids: seq<Tree>) {
    |kids| == |keys| + 1 &&
    forall i, j, x :: 0 <= i < |keys| && 0 <= j < |kids| && x in Contents(kids[j]) ==> Beside(x, keys[i], j <= i)
  }

  predicate Beside(x: Extent, k: Key, before: bool) {
    if before then x.end <= k else k <= x.base
  }

  /** That holds on all pages. */
  ghost predicate Guided(t: Tree) {
    t.Page? ==> Separated(t.keys, t.kids) && forall i :: 0 <= i < |t.kids| ==> Guided(t.kids[i])
  }

  lemma InSome(kids: seq<Tree>, x: Extent)
    ensures x in AllContents(kids) <==> exists j :: 0 <= j < |kids| && x in Contents(kids[j])
  {
    if kids != [] {
      InSome(kids[1..], x);
      if x in AllContents(kids[1..]) {
        var j :| 0 <= j < |kids[1..]| && x in Contents(kids[1..][j]);
        assert kids[1..][j] == kids[j + 1];
      }
      if j :| 0 <= j < |kids| && x in Contents(kids[j]) {
        assert j > 0 ==> kids[j] == kids[1..][j - 1];
      }
    }
  }

  lemma {:induction false} LevelsNotEmpty(d: nat, t: Tree)
    requires Levels(d, t)
    ensures Contents(t) != []
    decreases d
  {
    if d > 0 {
      LevelsNotEmpty(d - 1, t.kids[0]);
    }
  }

  /** The objects of a child come after those of the children before it. */
  lemma KidsOrdered(kids: seq<Tree>, i: nat, j: nat)
    requires Ordered(AllContents(kids)) && i < j < |kids|
    ensures Ordered(Contents(kids[i])) && Ordered(Contents(kids[j]))
    ensures forall x, y :: x in Contents(kids[i]) && y in Contents(kids[j]) ==> x.end <= y.base
  {
    hide Ordered, Contents, AllContents;
    AllContentsAt(kids, j);
    OrderedPieces(AllContents(kids[..j]), Contents(kids[j]), AllContents(kids[j + 1..]));
    OrderedKid(kids, i);
    forall x, y | x in Contents(kids[i]) && y in Contents(kids[j]) ensures x.end <= y.base {
      assert kids[..j][i] == kids[i];
      InSome(kids[..j], x);
      FirstIsLeast(Contents(kids[j]), y);
    }
  }

  lemma FirstIsLeast(c: seq<Extent>, y: Extent)
    requires Ordered(c) && y in c
    ensures c[0].base <= y.base && y.base < y.end
  {
  }

  lemma OrderedKid(kids: seq<Tree>, i: nat)
    requires Ordered(AllContents(kids)) && i < |kids|
    ensures Ordered(Contents(kids[i]))
  {
    hide Ordered, Contents, AllContents;
    AllContentsAt(kids, i);
    OrderedPieces(AllContents(kids[..i]), Contents(kids[i]), AllContents(kids[i + 1..]));
  }

  lemma {:induction false} RankIs(keys: seq<Key>, k: Key, n: nat)
    requires n <= |keys|
    requires forall i :: 0 <= i < n ==> keys[i] <= k
    requires n < |keys| ==> k < keys[n]
    ensures Rank(keys, k) == n
  {
    if n > 0 {
      RankIs(keys[1..], k, n - 1);
    }
  }

  lemma {:induction false} DescentWithin(d: nat, t: Tree, k: Key)
    requires Levels(d, t)
    ensures |Descent(t, k)| == 1 && Descent(t, k)[0] in Contents(t)
    decreases d
  {
    if d > 0 {
      var i := Rank(t.keys, k);
      DescentWithin(d - 1, t.kids[i], k);
      InSome(t.kids, Descent(t, k)[0]);
    }
  }

  /** On separated pages the key of an object routes to the child that stores it. */
  lemma RoutesTo(keys: seq<Key>, kids: seq<Tree>, j: nat, x: Extent, a: Key)
    requires Separated(keys, kids) && j < |kids| && x in Contents(kids[j]) && Matches(x, a)
    ensures Rank(keys, a) == j
  {
    forall i | 0 <= i < |keys| ensures Beside(x, keys[i], j <= i) {
    }
    RankIs(keys, a, j);
  }

  /** Pages all of whose objects can be found are exactly those with good separators everywhere. */
  lemma {:induction false} GuidedFinds(d: nat, t: Tree)
    requires Levels(d, t) && Ordered(Contents(t))
    ensures Guided(t) <==> Finds(t)
    decreases d
  {
    hide Ordered, Separated;
    if d > 0 {
      forall i | 0 <= i < |t.kids| ensures Guided(t.kids[i]) <==> Finds(t.kids[i]) {
        OrderedKid(t.kids, i);
        GuidedFinds(d - 1, t.kids[i]);
      }
      if Guided(t) {
        GuidedPageFinds(d, t);
      }
      if Finds(t) {
        FindsInKids(d, t);
        FindsSeparated(d, t);
      }
    }
  }

  lemma GuidedPageFinds(d: nat, t: Tree)
    requires d > 0 && t.Page? && Levels(d, t) && Separated(t.keys, t.kids)
    requires forall i :: 0 <= i < |t.kids| ==> Finds(t.kids[i])
    ensures Finds(t)
  {
    hide Separated, Levels;
    forall x, a | x in Contents(t) && Matches(x, a) ensures Descent(t, a) == [x] {
      InSome(t.kids, x);
      var j :| 0 <= j < |t.kids| && x in Contents(t.kids[j]);
      RoutesTo(t.keys, t.kids, j, x, a);
      assert Finds(t.kids[j]);
    }
  }

  /** A search that finds an object goes through the child that stores it. */
  lemma GoesThrough(d: nat, t: Tree, j: nat, x: Extent, a: Key)
    requires d > 0 && t.Page? && Levels(d, t) && Ordered(Contents(t)) && j < |t.kids| && x in Contents(t.kids[j])
    requires Descent(t, a) == [x]
    ensures Rank(t.keys, a) == j && Descent(t.kids[j], a) == [x] && x.base < x.end
  {
    hide Ordered, Contents;
    var r := Rank(t.keys, a);
    ContentsOfPage(t);
    DescentWithin(d - 1, t.kids[r], a);
    OrderedKid(t.kids, j);
    FirstIsLeast(Contents(t.kids[j]), x);
    if r < j {
      KidsOrdered(t.kids, r, j);
    } else if j < r {
      KidsOrdered(t.kids, j, r);
    }
  }

  lemma FindsInKids(d: nat, t: Tree)
    requires d > 0 && t.Page? && Levels(d, t) && Ordered(Contents(t)) && Finds(t)
    ensures forall i :: 0 <= i < |t.kids| ==> Finds(t.kids[i])
  {
    hide Ordered, Levels;
    forall j, x, a | 0 <= j < |t.kids| && x in Contents(t.kids[j]) && Matches(x, a)
      ensures Descent(t.kids[j], a) == [x]
    {
      InSome(t.kids, x);
      GoesThrough(d, t, j, x, a);
    }
  }

  lemma FindsSeparated(d: nat, t: Tree)
    requires d > 0 && t.Page? && Levels(d, t) && Ordered(Contents(t)) && Finds(t)
    ensures Separated(t.keys, t.kids)
  {
    hide Ordered, Contents, Finds;
    ContentsOfPage(t);
    forall i, j, x | 0 <= i < |t.keys| && 0 <= j < |t.kids| && x in Contents(t.kids[j])
      ensures Beside(x, t.keys[i], j <= i)
    {
      FoundBeside(d, t, j, x);
      if j < i {
        LevelsNotEmpty(d - 1, t.kids[i]);
        FoundBeside(d, t, i, Contents(t.kids[i])[0]);
        KidsOrdered(t.kids, j, i);
      }
    }
  }

  lemma FoundBeside(d: nat, t: Tree, j: nat, x: Extent)
    requires d > 0 && t.Page? && Levels(d, t) && Ordered(Contents(t)) && Finds(t)
    requires j < |t.kids| && x in Contents(t.kids[j])
    ensures forall i :: 0 <= i < j && i < |t.keys| ==> t.keys[i] <= x.base
    ensures j < |t.keys| ==> x.base < x.end <= t.keys[j]
  {
    hide Ordered, Levels, Descent;
    InSome(t.kids, x);
    OrderedKid(t.kids, j);
    FirstIsLeast(Contents(t.kids[j]), x);
    GoesThrough(d, t, j, x, x.base);
    GoesThrough(d, t, j, x, x.end - 1);
  }

  // ---------------------------------------------------------------- well-shaped pages

  /** The separators of well-shaped pages are good, so every object is found. */
  lemma {:induction false} ShapeGuided(d: nat, t: Tree)
    requires Shape(d, t) && Ordered(Contents(t))
    ensures Levels(d, t) && Guided(t)
    decreases d
  {
    hide Ordered, Separated;
    if d > 0 {
      forall i | 0 <= i < |t.kids| ensures Levels(d - 1, t.kids[i]) && Guided(t.kids[i]) {
        OrderedKid(t.kids, i);
        ShapeGuided(d - 1, t.kids[i]);
      }
      RowSeparated(d - 1, t.keys, t.kids);
    }
  }

  lemma RowSeparated(d: nat, keys: seq<Key>, kids: seq<Tree>)
    requires Row(d, keys, kids) && Ordered(AllContents(kids))
    ensures Separated(keys, kids)
  {
    hide Ordered, Contents, AllContents, Shape, Least;
    forall i, j, x | 0 <= i < |keys| && 0 <= j < |kids| && x in Contents(kids[j]) ensures Beside(x, keys[i], j <= i) {
      LeastIsFirst(d, kids[i + 1]);
      OrderedKid(kids, i + 1);
      if j <= i {
        KidsOrdered(kids, j, i + 1);
      } else if j == i + 1 {
        FirstIsLeast(Contents(kids[j]), x);
      } else {
        KidsOrdered(kids, i + 1, j);
        FirstIsLeast(Contents(kids[i + 1]), Contents(kids[i + 1])[0]);
      }
    }
  }

  // ---------------------------------------------------------------- children with the same objects

  /** The children store the same objects one by one. */
  ghost predicate Kidwise(a: seq<Tree>, b: seq<Tree>) {
    |a| == |b| && forall i :: 0 <= i < |a| ==> Contents(a[i]) == Contents(b[i])
  }

  lemma {:induction false} KidwiseContents(a: seq<Tree>, b: seq<Tree>)
    requires Kidwise(a, b)
    ensures AllContents(a) == AllContents(b)
  {
    if a != [] {
      KidwiseContents(a[1..], b[1..]);
    }
  }

  lemma KidwiseSeparated(keys: seq<Key>, a: seq<Tree>, b: seq<Tree>)
    requires Kidwise(a, b) && Separated(keys, a)
    ensures Separated(keys, b)
  {
    hide Contents, Beside;
    forall i, j, x | 0 <= i < |keys| && 0 <= j < |b| && x in Contents(b[j]) ensures Beside(x, keys[i], j <= i) {
      assert x in Contents(a[j]);
    }
  }

  /** A result to the letter stores the same objects in its pages as the one that is meant. */
  ghost predicate Alike(d: nat, m: InsertResult, l: InsertResult) {
    match l
    case Rejected(_) => false
    case Inserted(t, _) => m.Inserted? && Contents(t) == Contents(m.t) && Levels(d, t)
    case Promoted(left, k, right, _) =>
      && m.Promoted? && k == m.key && Levels(d, left) && Levels(d, right)
      && Contents(left) == Contents(m.left) && Contents(right) == Contents(m.right)
  }

  /** Its pages have good separators. */
  ghost predicate Leads(l: InsertResult) {
    match l
    case Rejected(_) => false
    case Inserted(t, _) => Guided(t)
    case Promoted(left, _, right, _) => Guided(left) && Guided(right)
  }

  ghost predicate AllGuided(kids: seq<Tree>) {
    forall i :: 0 <= i < |kids| ==> Guided(kids[i])
  }

  ghost predicate AllLevels(d: nat, kids: seq<Tree>) {
    forall i :: 0 <= i < |kids| ==> Levels(d, kids[i])
  }

  /** A page with the separators of a well-shaped one and children that store the same objects. */
  lemma LikePage(d: nat, m: Tree, l: Tree)
    requires d > 0 && Shape(d, m) && Ordered(Contents(m))
    requires l.Page? && l.keys == m.keys && Kidwise(m.kids, l.kids) && AllLevels(d - 1, l.kids)
    ensures Levels(d, l) && Contents(l) == Contents(m) && (Guided(l) <==> AllGuided(l.kids))
  {
    hide Ordered, Separated;
    ShapeIsRow(d, m);
    KidwiseContents(m.kids, l.kids);
    RowSeparated(d - 1, m.keys, m.kids);
    KidwiseSeparated(m.keys, m.kids, l.kids);
  }

  // ---------------------------------------------------------------- a word in front

  /** All the objects end before the key. */
  ghost predicate EndBefore(c: seq<Extent>, k: Key) {
    forall x :: x in c ==> x.end <= k
  }

  /** Of all words in place of the first separator of a page, those are good that lie between the objects of
      the first child and the old separator. */
  lemma WordSeparates(d: nat, keys: seq<Key>, kids: seq<Tree>, word: Key)
    requires Row(d, keys, kids) && Ordered(AllContents(kids)) && keys != []
    ensures Separated(keys[0 := word], kids) <==> EndBefore(Contents(kids[0]), word) && word <= keys[0]
  {
    hide Ordered, Contents, AllContents, Shape, Least;
    var keys' := keys[0 := word];
    RowSeparated(d, keys, kids);
    LeastIsFirst(d, kids[1]);
    var y := Contents(kids[1])[0];
    if Separated(keys', kids) {
      forall x | x in Contents(kids[0]) ensures x.end <= word {
        assert Beside(x, keys'[0], 0 <= 0);
      }
      assert y in Contents(kids[1]) && Beside(y, keys'[0], 1 <= 0);
      assert keys[0] == Least(kids[0 + 1]);
    }
    if EndBefore(Contents(kids[0]), word) && word <= keys[0] {
      forall i, j, x | 0 <= i < |keys| && 0 <= j < |kids| && x in Contents(kids[j])
        ensures Beside(x, keys'[i], j <= i)
      {
        assert Beside(x, keys[i], j <= i);
      }
    }
  }

  /** The upper part of a split child ends where the child with the new object ends. */
  lemma UpperEnds(left: seq<Extent>, right: seq<Extent>, c: seq<Extent>, e: Extent, k: Key)
    requires Ordered(left + right) && left + right == InsertSorted(c, e) && right != []
    ensures EndBefore(right, k) <==> EndBefore(c, k) && e.end <= k
  {
    InsertSortedMembers(c, e);
    TwoPieces(left, right);
    assert e in left + right;
    forall x | x in c && EndBefore(right, k) ensures x.end <= k {
      assert x in left + right;
      assert right[0].end <= k;
    }
  }

  // ---------------------------------------------------------------- one level

  /** What one page does: m is the meant report of child hi, l the report to the letter. */
  ghost predicate Reports(d: nat, t: Tree, e: Extent, m: InsertResult, l: InsertResult) {
    && d > 1 && Accepts(d, t, e) && Alike(d - 1, m, l)
    && var hi := Rank(t.keys, e.base);
    && m == InsertInto(d - 1, t.kids[hi], e)
  }

  /** The other children of the page are as they were. */
  lemma KidsOfPage(d: nat, t: Tree)
    requires d > 0 && Shape(d, t) && Ordered(Contents(t))
    ensures AllLevels(d - 1, t.kids) && AllGuided(t.kids)
  {
    hide Ordered, Contents, Guided, Levels;
    ContentsOfPage(t);
    forall i | 0 <= i < |t.kids| ensures Levels(d - 1, t.kids[i]) && Guided(t.kids[i]) {
      OrderedKid(t.kids, i);
      ShapeGuided(d - 1, t.kids[i]);
    }
  }

  lemma InsertedBelow(d: nat, t: Tree, e: Extent, m: InsertResult, l: InsertResult, word: Key)
    requires Reports(d, t, e, m, l) && l.Inserted? && Ordered(InsertSorted(Contents(t), e))
    ensures var hi := Rank(t.keys, e.base); hi < |t.kids| && |t.kids| == |t.keys| + 1 && |t.keys| <= BT_MAXKEY
    ensures var s := PassAsWritten(t.keys, t.kids, Rank(t.keys, e.base), l, word);
            Alike(d, InsertInto(d, t, e), s) && (Leads(s) <==> Leads(l))
  {
    hide Ordered, Contents, AllContents, InsertSorted, Guided, Levels, Shape, InsertInto, Adjacent;
    Down(d, t, e);
    InsertHolds(d, t, e);
    KidsOfPage(d, t);
    var hi := Rank(t.keys, e.base);
    var kids := t.kids[hi := l.t];
    assert kids[hi] == l.t;
    LikePage(d, InsertInto(d, t, e).t, Page(t.keys, kids));
  }

  /** The page with the pieces of a split child in it: the same separators as meant, and the same objects in
      its children one by one. */
  lemma Twins(d: nat, t: Tree, hi: nat, m: InsertResult, l: InsertResult)
    requires t.Page? && Alike(d, m, l) && l.Promoted? && |t.kids| == |t.keys| + 1 && hi <= |t.keys|
    requires AllLevels(d, t.kids) && AllGuided(t.kids)
    ensures var wm := WithEntry(t.keys, t.kids[hi := m.left], hi, m.key, m.right);
            var wl := WithEntry(t.keys, t.kids[hi := l.left], hi, l.key, l.right);
            && wl.keys == wm.keys && Kidwise(wm.kids, wl.kids) && AllLevels(d, wl.kids)
            && (AllGuided(wl.kids) <==> Leads(l))
  {
    hide Contents, Guided, Levels;
    var km, kl := t.kids[hi := m.left], t.kids[hi := l.left];
    InsertedAtElements(km, hi + 1, m.right);
    InsertedAtElements(kl, hi + 1, l.right);
    hide InsertedAt;
    var a, b := InsertedAt(km, hi + 1, m.right), InsertedAt(kl, hi + 1, l.right);
    assert b[hi] == l.left && b[hi + 1] == l.right;
    forall i | 0 <= i < |b| ensures Contents(a[i]) == Contents(b[i]) && Levels(d, b[i]) {
      assert i < hi ==> a[i] == b[i] == t.kids[i];
      assert i > hi + 1 ==> a[i] == b[i] == t.kids[i - 1];
    }
    forall i | 0 <= i < |b| && Leads(l) ensures Guided(b[i]) {
      assert i < hi ==> b[i] == t.kids[i];
      assert i > hi + 1 ==> b[i] == t.kids[i - 1];
    }
  }

  /** The stray word of a split in the middle leads to the right objects: it is not less than the end of any
      object that is in the middle child then, nor greater than the separator behind that. */
  ghost predicate Directs(t: Tree, e: Extent, word: Key)
    requires t.Page? && |t.keys| == BT_MAXKEY && |t.kids| == |t.keys| + 1
  {
    EndBefore(Contents(t.kids[BT_MINKEY]), word) && e.end <= word && word <= t.keys[BT_MINKEY]
  }

  /** A page cut in two after its separators were spoilt at one place. */
  lemma CutPieces(d: nat, wm: Tree, a: Tree)
    requires d > 0 && wm.Page? && |wm.keys| == BT_MAXKEY + 1 && |wm.kids| == BT_MAXKEY + 2
    requires Shape(d, TakeKeys(wm, BT_MINKEY)) && Shape(d, DropKeys(wm, BT_MINKEY))
    requires Ordered(Contents(TakeKeys(wm, BT_MINKEY)) + Contents(DropKeys(wm, BT_MINKEY)))
    requires a.Page? && Kidwise(wm.kids, a.kids) && AllLevels(d - 1, a.kids) && |a.keys| == |wm.keys|
    requires a.keys[..BT_MINKEY] == wm.keys[..BT_MINKEY]
    ensures var l, r, rm := TakeKeys(a, BT_MINKEY), DropKeys(a, BT_MINKEY), DropKeys(wm, BT_MINKEY);
            && Levels(d, l) && Levels(d, r) && Contents(r) == Contents(rm)
            && Contents(l) == Contents(TakeKeys(wm, BT_MINKEY))
            && (Guided(l) && Guided(r) <==> AllGuided(a.kids) && Separated(r.keys, rm.kids))
  {
    hide Ordered, Separated, Contents, AllContents, Shape, Beside;
    var n: nat := BT_MINKEY;
    var lm, rm, l, r := TakeKeys(wm, n), DropKeys(wm, n), TakeKeys(a, n), DropKeys(a, n);
    TwoPieces(Contents(lm), Contents(rm));
    LikePage(d, lm, l);
    ContentsOfPage(r);
    ContentsOfPage(rm);
    KidwiseContents(rm.kids, r.kids);
    if Separated(r.keys, rm.kids) {
      KidwiseSeparated(r.keys, rm.kids, r.kids);
    }
    if Separated(r.keys, r.kids) {
      KidwiseSeparated(r.keys, r.kids, rm.kids);
    }
    GuidedSides(a.kids, n + 1);
  }

  lemma GuidedSides(kids: seq<Tree>, n: nat)
    requires n <= |kids|
    ensures AllGuided(kids) <==> AllGuided(kids[..n]) && AllGuided(kids[n..])
  {
    forall i | 0 <= i < |kids| && AllGuided(kids[..n]) && AllGuided(kids[n..]) ensures Guided(kids[i]) {
      assert kids[i] == if i < n then kids[..n][i] else kids[n..][i - n];
    }
  }

  /** The separators of the right page after a split: those that are meant, or with the word in front. */
  ghost predicate RightKeys(keys: seq<Key>, hi: nat, word: Key, rm: Tree, a: Tree)
    requires |keys| == BT_MAXKEY && rm.Page? && a.Page? && |a.keys| == BT_MAXKEY + 1 && |a.kids| == BT_MAXKEY + 2
  {
    var r := DropKeys(a, BT_MINKEY);
    && rm.keys != [] && (hi == BT_MINKEY ==> rm.keys[0] == keys[BT_MINKEY])
    && r.keys == if hi == BT_MINKEY then rm.keys[0 := word] else rm.keys
  }

  lemma AlteredKeys(keys: seq<Key>, kids: seq<Tree>, hi: nat, k: Key, c: Tree, wm: Tree, word: Key)
    requires |keys| == BT_MAXKEY && |kids| == |keys| + 1 && hi <= |keys| && kids[BT_MINKEY + 1].Page?
    requires wm.Page? && wm.keys == InsertedAt(keys, hi, k) && |wm.kids| == BT_MAXKEY + 2
    ensures var a := Altered(keys, kids, hi, k, c, word);
            && a.kids == InsertedAt(kids, hi + 1, c)
            && a.keys[..BT_MINKEY] == wm.keys[..BT_MINKEY] && a.keys[BT_MINKEY] == wm.keys[BT_MINKEY]
            && RightKeys(keys, hi, word, DropKeys(wm, BT_MINKEY), a)
  {
    InsertedAtElements(keys, hi, k);
    hide InsertedAt;
    var a, n := Altered(keys, kids, hi, k, c, word), BT_MINKEY;
    assert a.keys[..n] == wm.keys[..n];
    if hi == n {
      assert a.keys[n + 1..] == wm.keys[n + 1..][0 := word];
    }
  }

  lemma ChildIsPage(d: nat, t: Tree, hi: nat, l: Tree, i: nat)
    requires d > 1 && Shape(d, t) && Levels(d - 1, l) && hi < |t.kids| && i < |t.kids|
    ensures t.kids[hi := l][i].Page?
  {
    assert Shape(d - 1, t.kids[i]);
  }

  /** The page that is cut, as it is meant and to the letter. */
  ghost predicate IsSplit(r: InsertResult, w: Tree) {
    && w.Page? && |w.keys| == BT_MAXKEY + 1 && |w.kids| == BT_MAXKEY + 2
    && r.Promoted? && r.key == w.keys[BT_MINKEY]
    && r.left == TakeKeys(w, BT_MINKEY) && r.right == DropKeys(w, BT_MINKEY)
  }

  lemma SplitForms(d: nat, t: Tree, e: Extent, m: InsertResult, l: InsertResult, word: Key)
    requires Reports(d, t, e, m, l) && l.Promoted?
    requires t.Page? && |t.keys| == BT_MAXKEY && |t.kids| == |t.keys| + 1 && Rank(t.keys, e.base) < |t.kids|
    ensures var hi := Rank(t.keys, e.base);
            var kl := t.kids[hi := l.left];
            && IsSplit(InsertInto(d, t, e), WithEntry(t.keys, t.kids[hi := m.left], hi, m.key, m.right))
            && kl[BT_MINKEY + 1].Page?
            && IsSplit(PassAsWritten(t.keys, t.kids, hi, l, word), Altered(t.keys, kl, hi, l.key, l.right, word))
  {
    hide Ordered, Contents, Shape, InsertInto, Split, Altered, WithEntry, Levels;
    Down(d, t, e);
    var hi := Rank(t.keys, e.base);
    ChildIsPage(d, t, hi, l.left, BT_MINKEY + 1);
    SplitIsCut(t.keys, t.kids[hi := l.left], hi, l.key, l.right, word);
  }

  lemma MeantPages(d: nat, t: Tree, e: Extent)
    requires Accepts(d, t, e) && InsertInto(d, t, e).Promoted?
    ensures var r := InsertInto(d, t, e);
            d > 0 && Shape(d, t) && Ordered(Contents(t)) && Shape(d, r.left) && Shape(d, r.right) &&
            Contents(r.left) + Contents(r.right) == InsertSorted(Contents(t), e)
  {
    hide Ordered, Contents, Shape, InsertInto, InsertSorted;
    InsertHolds(d, t, e);
  }

  /** A split child of a full page. */
  lemma SplitBelow(d: nat, t: Tree, e: Extent, m: InsertResult, l: InsertResult, word: Key)
    requires Reports(d, t, e, m, l) && l.Promoted? && Ordered(InsertSorted(Contents(t), e))
    requires t.Page? && |t.keys| == BT_MAXKEY && |t.kids| == |t.keys| + 1 && Rank(t.keys, e.base) < |t.kids|
    ensures var hi := Rank(t.keys, e.base);
            var s := PassAsWritten(t.keys, t.kids, hi, l, word);
            && Alike(d, InsertInto(d, t, e), s)
            && (Leads(s) <==>
                Leads(l) && (hi == BT_MINKEY ==> EndBefore(Contents(m.right), word) && word <= t.keys[BT_MINKEY]))
  {
    hide Ordered, Contents, InsertSorted, Guided, Levels, Shape, InsertInto, Separated, RightKeys, AllGuided, Rank,
         PassAsWritten, Accepts, EndBefore, AllLevels, Kidwise;
    var hi, n: nat := Rank(t.keys, e.base), BT_MINKEY;
    var kl := t.kids[hi := l.left];
    SplitForms(d, t, e, m, l, word);
    MeantPages(d, t, e);
    KidsOfPage(d, t);
    var wm := WithEntry(t.keys, t.kids[hi := m.left], hi, m.key, m.right);
    var a := Altered(t.keys, kl, hi, l.key, l.right, word);
    Twins(d - 1, t, hi, m, l);
    AlteredKeys(t.keys, kl, hi, l.key, l.right, wm, word);
    MiddleChild(t.keys, t.kids[hi := m.left], m.key, m.right);
    var rm := DropKeys(wm, n);
    TwoPieces(Contents(TakeKeys(wm, n)), Contents(rm));
    CutPieces(d, wm, a);
    SeparatedPieces(d, t.keys, hi, word, wm, a);
  }

  lemma MiddleChild(keys: seq<Key>, kids: seq<Tree>, k: Key, c: Tree)
    requires |keys| == BT_MAXKEY && |kids| == |keys| + 1
    ensures DropKeys(WithEntry(keys, kids, BT_MINKEY, k, c), BT_MINKEY).kids[0] == c
  {
  }

  lemma SeparatedPieces(d: nat, keys: seq<Key>, hi: nat, word: Key, wm: Tree, a: Tree)
    requires |keys| == BT_MAXKEY && a.Page? && |a.keys| == BT_MAXKEY + 1 && |a.kids| == BT_MAXKEY + 2
    requires wm.Page? && |wm.keys| == BT_MAXKEY + 1 && |wm.kids| == BT_MAXKEY + 2
    requires var rm := DropKeys(wm, BT_MINKEY);
             d > 0 && Shape(d, rm) && Ordered(Contents(rm)) && RightKeys(keys, hi, word, rm, a)
    ensures var rm, r := DropKeys(wm, BT_MINKEY), DropKeys(a, BT_MINKEY);
            Separated(r.keys, rm.kids) <==>
            (hi == BT_MINKEY ==> EndBefore(Contents(rm.kids[0]), word) && word <= keys[BT_MINKEY])
  {
    hide Ordered, Separated, Contents, AllContents, EndBefore;
    var rm := DropKeys(wm, BT_MINKEY);
    ShapeIsRow(d, rm);
    ContentsOfPage(rm);
    if hi == BT_MINKEY {
      WordSeparates(d - 1, rm.keys, rm.kids, word);
    } else {
      RowSeparated(d - 1, rm.keys, rm.kids);
    }
  }

  /** A split child of a page with room. */
  lemma RoomBelow(d: nat, t: Tree, e: Extent, m: InsertResult, l: InsertResult, word: Key)
    requires Reports(d, t, e, m, l) && l.Promoted? && Ordered(InsertSorted(Contents(t), e))
    requires t.Page? && |t.keys| < BT_MAXKEY && |t.kids| == |t.keys| + 1 && Rank(t.keys, e.base) < |t.kids|
    ensures var s := PassAsWritten(t.keys, t.kids, Rank(t.keys, e.base), l, word);
            Alike(d, InsertInto(d, t, e), s) && (Leads(s) <==> Leads(l))
  {
    hide Ordered, Contents, AllContents, InsertSorted, Guided, Levels, Shape, InsertInto, Adjacent, AllGuided, Kidwise;
    Down(d, t, e);
    InsertHolds(d, t, e);
    KidsOfPage(d, t);
    var hi := Rank(t.keys, e.base);
    Twins(d - 1, t, hi, m, l);
    LikePage(d, WithEntry(t.keys, t.kids[hi := m.left], hi, m.key, m.right),
        WithEntry(t.keys, t.kids[hi := l.left], hi, l.key, l.right));
  }

  // ---------------------------------------------------------------- all levels

  /** Somewhere on the way a split in the middle reads a word that does not lead to the right objects. */
  ghost predicate Misled(d: nat, t: Tree, e: Extent, words: StrayWords)
    requires d > 0 && Shape(d, t)
    decreases d
  {
    d > 1 &&
    ((Middle(d, t, e.base) && !Directs(t, e, words(d))) || Misled(d - 1, t.kids[Rank(t.keys, e.base)], e, words))
  }

  /** The upper part of the middle child ends before the word exactly when that child and the new object do. */
  lemma UpperOfMiddle(d: nat, t: Tree, e: Extent, word: Key)
    requires Accepts(d, t, e) && Ordered(InsertSorted(Contents(t), e)) && InsertInto(d, t, e).Promoted?
    ensures EndBefore(Contents(InsertInto(d, t, e).right), word) <==> EndBefore(Contents(t), word) && e.end <= word
  {
    hide Ordered, Contents, Shape, InsertInto, InsertSorted, EndBefore;
    MeantPages(d, t, e);
    var r := InsertInto(d, t, e);
    LeastIsFirst(d, r.right);
    UpperEnds(Contents(r.left), Contents(r.right), Contents(t), e, word);
  }

  /** The new contents of the child are in order when those of the page are. */
  lemma ChildInOrder(d: nat, t: Tree, e: Extent)
    requires d > 1 && Accepts(d, t, e) && Ordered(InsertSorted(Contents(t), e))
    ensures Shape(d, t)
    ensures Ordered(InsertSorted(Contents(t.kids[Rank(t.keys, e.base)]), e))
  {
    hide Ordered, Contents, AllContents, InsertInto, InsertSorted, Adjacent, Rank;
    ContentsOfPage(t);
    var hi := Rank(t.keys, e.base);
    ShapeIsRow(d, t);
    Route(d - 1, t.keys, t.kids, e.base);
    var pre, mid, post := AllContents(t.kids[..hi]), Contents(t.kids[hi]), AllContents(t.kids[hi + 1..]);
    InsertRouted(Contents(t), pre, mid, post, e);
    OrderedPieces(pre, InsertSorted(mid, e), post);
  }

  /** An accepted insertion to the letter stores what it should on every level, and its pages have good
      separators if and only if it is misled on no level. */
  lemma {:induction false} AsWrittenLeads(d: nat, t: Tree, e: Extent, words: StrayWords)
    requires Accepts(d, t, e) && Ordered(InsertSorted(Contents(t), e))
    ensures Shape(d, t) && Alike(d, InsertInto(d, t, e), AsWritten(d, t, e, words))
    ensures Leads(AsWritten(d, t, e, words)) <==> !Misled(d, t, e, words)
    decreases d
  {
    hide Ordered, Contents, InsertSorted, Guided, Levels, Shape, Leads, AddAsWritten, AddEntry, EndBefore, Accepts,
         InsertAtLeaf, LeafAsWritten, Directs;
    IsWellShaped(d, t, e);
    if d == 1 {
      LeafLeads(t, e, words(1));
    } else {
      Down(d, t, e);
      ChildInOrder(d, t, e);
      var hi := Rank(t.keys, e.base);
      AsWrittenLeads(d - 1, t.kids[hi], e, words);
      PromotesWhenFull(d - 1, t.kids[hi], e);
      StepLeads(d, t, e, AsWritten(d - 1, t.kids[hi], e, words), words(d));
    }
  }

  lemma LeafLeads(t: Tree, e: Extent, word: Key)
    requires Accepts(1, t, e) && Ordered(InsertSorted(Contents(t), e))
    ensures Shape(1, t) && !InsertInto(1, t, e).Rejected? && InsertInto(1, t, e) == LeafAsWritten(t, e, word)
    ensures Alike(1, InsertInto(1, t, e), InsertInto(1, t, e)) && Leads(InsertInto(1, t, e))
  {
    hide Ordered, Contents, InsertSorted, Guided, Levels, Adjacent, InsertAtLeaf, LeafAsWritten;
    InsertHolds(1, t, e);
    LeafAgrees(t, e, word);
    var r := InsertInto(1, t, e);
    if r.Inserted? {
      ShapeGuided(1, r.t);
    } else {
      TwoPieces(Contents(r.left), Contents(r.right));
      ShapeGuided(1, r.left);
      ShapeGuided(1, r.right);
    }
  }

  /** One level of the induction. */
  lemma StepLeads(d: nat, t: Tree, e: Extent, l: InsertResult, word: Key)
    requires d > 1 && Accepts(d, t, e) && Ordered(InsertSorted(Contents(t), e))
    requires t.Page? && |t.kids| == |t.keys| + 1 && |t.keys| <= BT_MAXKEY && Rank(t.keys, e.base) < |t.kids|
    requires Shape(d - 1, t.kids[Rank(t.keys, e.base)])
    requires Alike(d - 1, InsertInto(d - 1, t.kids[Rank(t.keys, e.base)], e), l)
    ensures var hi := Rank(t.keys, e.base);
            var s := PassAsWritten(t.keys, t.kids, hi, l, word);
            && Alike(d, InsertInto(d, t, e), s)
            && (Leads(s) <==>
                Leads(l) && (l.Promoted? && |t.keys| == BT_MAXKEY && hi == BT_MINKEY ==> Directs(t, e, word)))
  {
    hide Ordered, Contents, InsertSorted, Guided, Levels, Shape, Leads, AddAsWritten, AddEntry, EndBefore, Accepts,
         InsertInto, PassAsWritten;
    var hi := Rank(t.keys, e.base);
    var m := InsertInto(d - 1, t.kids[hi], e);
    Down(d, t, e);
    ChildInOrder(d, t, e);
    if l.Inserted? {
      InsertedBelow(d, t, e, m, l, word);
    } else if |t.keys| < BT_MAXKEY {
      RoomBelow(d, t, e, m, l, word);
    } else {
      SplitBelow(d, t, e, m, l, word);
      UpperOfMiddle(d - 1, t.kids[hi], e, word);
    }
  }

  // ---------------------------------------------------------------- the whole index

  ghost predicate AllFound(x: Index) {
    x.Rooted? ==> Finds(x.top)
  }

  ghost predicate GoesMissing(x: Index, e: Extent, words: StrayWords)
    requires Sound(x)
  {
    x.Rooted? && !Meets(e, Objects(x)) && Misled(x.depth, x.top, e, words)
  }

  /** In a sound index every address of every object leads to it. */
  lemma SoundFindsAll(x: Index)
    requires Sound(x)
    ensures AllFound(x)
  {
    hide Ordered, Guided, Finds;
    if x.Rooted? {
      ShapeGuided(x.depth, x.top);
      GuidedFinds(x.depth, x.top);
    }
  }

  /** For every sound index and every object that is accepted: whatever the code to the letter reads, it stores
      the old objects and the new one in key order. And every address of every one of them leads to it
      afterwards, if and only if the stray words lead to the right objects on every level. */
  lemma SearchExactly(x: Index, e: Extent, words: StrayWords)
    requires Sound(x) && e.base < e.end && !Meets(e, Objects(x))
    ensures var x' := InsAsWritten(x, e, words).index;
            Objects(x') == InsertSorted(Objects(x), e) && (AllFound(x') <==> !GoesMissing(x, e, words))
  {
    hide Shape, Ordered, Contents, Meets, InsertSorted, Adjacent, AsWritten, InsertInto, Finds, Misled;
    InsertCorrect(x, e);
    if x.Rooted? {
      OrderedObjects(x, e);
      InsertRejects(x.depth, x.top, e);
      AsWrittenLeads(x.depth, x.top, e, words);
      InsertHolds(x.depth, x.top, e);
      RootLeads(x.depth, InsertInto(x.depth, x.top, e), AsWritten(x.depth, x.top, e, words),
          InsertSorted(Contents(x.top), e));
    } else {
      InsertExactly(x, e, words);
      SoundFindsAll(Insert(x, e).index);
    }
  }

  lemma OrderedObjects(x: Index, e: Extent)
    requires Sound(x) && e.base < e.end && !Meets(e, Objects(x)) && x.Rooted?
    ensures Ordered(InsertSorted(Contents(x.top), e))
  {
    InsertSortedOrdered(Contents(x.top), e);
  }

  /** The root that the pieces make. */
  lemma RootLeads(d: nat, m: InsertResult, l: InsertResult, c: seq<Extent>)
    requires d > 0 && !m.Rejected? && Alike(d, m, l) && Ordered(c) && ResultContents(m) == c
    requires m.Promoted? ==> Shape(d, m.left) && Shape(d, m.right) && m.key == Least(m.right)
    ensures l.Inserted? ==> Contents(l.t) == c && (Finds(l.t) <==> Leads(l))
    ensures l.Promoted? ==>
              var root := Page([l.key], [l.left, l.right]); Contents(root) == c && (Finds(root) <==> Leads(l))
  {
    hide Ordered, Guided, Finds, Shape, Levels, Separated;
    if l.Inserted? {
      GuidedFinds(d, l.t);
    } else {
      RootGuided(d, m.left, m.right, m.key, l.left, l.right);
      GuidedFinds(d + 1, Page([l.key], [l.left, l.right]));
    }
  }

  lemma RootGuided(d: nat, ml: Tree, mr: Tree, k: Key, l: Tree, r: Tree)
    requires Shape(d, ml) && Shape(d, mr) && k == Least(mr) && Ordered(Contents(ml) + Contents(mr))
    requires Levels(d, l) && Levels(d, r) && Contents(l) == Contents(ml) && Contents(r) == Contents(mr)
    ensures var root := Page([k], [l, r]);
            && Levels(d + 1, root) && Contents(root) == Contents(l) + Contents(r)
            && (Guided(root) <==> Guided(l) && Guided(r))
  {
    hide Ordered, Shape, Separated;
    var root, kids := Page([k], [l, r]), [ml, mr];
    assert [ml, mr][1..] == [mr] && [l, r][1..] == [r];
    assert AllContents([mr]) == Contents(mr) && AllContents([r]) == Contents(r);
    RowSeparated(d, [k], kids);
    KidwiseSeparated([k], kids, root.kids);
    assert root.kids[0] == l && root.kids[1] == r;
  }
}

/** The object index as a value. */
module IndexTree {
  import opened Extents

  // The order is a parameter: BT_MINKEY is any number >= 1 and BT_MAXKEY is twice that, so that
  // BT_ORDER = BT_MAXKEY + 1 is odd.
  type PositiveNat = n: nat | 1 <= n witness 127

  const BT_MINKEY: PositiveNat
  const BT_MAXKEY: nat := 2 * BT_MINKEY

  /** A child pointer of a page is an object when the page is a leaf and a page otherwise. */
  datatype Tree = Obj(e: Extent) | Page(keys: seq<Key>, kids: seq<Tree>)

  /** The objects of a tree in key order. */
  function Contents(t: Tree): seq<Extent> {
    match t
    case Obj(e) => [e]
    case Page(_, kids) => AllContents(kids)
  }

  function AllContents(ts: seq<Tree>): seq<Extent> {
    if ts == [] then [] else Contents(ts[0]) + AllContents(ts[1..])
  }

  /** GetLeastKey: follow the first child down to an object. */
  function Least(t: Tree): Key {
    match t
    case Obj(e) => e.base
    case Page(_, kids) => if kids == [] then 0 else Least(kids[0])
  }

  ghost predicate Full(t: Tree) {
    t.Page? ==> |t.keys| >= BT_MINKEY
  }

  /** `d` levels of pages, none with more than BT_MAXKEY keys, none but the topmost with fewer
      than BT_MINKEY, and every separator equal to the least key of the child to its right. */
  ghost predicate Shape(d: nat, t: Tree)
    decreases d
  {
    match t
    case Obj(_) => d == 0
    case Page(keys, kids) =>
      && d > 0
      && |keys| <= BT_MAXKEY
      && |kids| == |keys| + 1
      && (forall i :: 0 <= i < |kids| ==> Shape(d - 1, kids[i]) && Full(kids[i]))
      && (forall i :: 0 <= i < |keys| ==> keys[i] == Least(kids[i + 1]))
  }

  /** The same for the children of one page, whatever the number of keys. */
  ghost predicate Row(d: nat, keys: seq<Key>, kids: seq<Tree>) {
    && |kids| == |keys| + 1
    && (forall i :: 0 <= i < |kids| ==> Shape(d, kids[i]))
    && (forall i :: 0 <= i < |keys| ==> keys[i] == Least(kids[i + 1]))
  }

  lemma ShapeIsRow(d: nat, t: Tree)
    requires d > 0 && Shape(d, t)
    ensures t.Page? && Row(d - 1, t.keys, t.kids) && |t.keys| <= BT_MAXKEY
    ensures forall i :: 0 <= i < |t.kids| ==> Full(t.kids[i])
  {
  }

  /** A whole index: d levels of pages, where a root above the leaves has at least two children. */
  ghost predicate WellFormed(d: nat, t: Tree) {
    d > 0 && Shape(d, t) && (d > 1 ==> |t.keys| >= 1) && Ordered(Contents(t))
  }

  lemma {:induction false} AllContentsConcat(a: seq<Tree>, b: seq<Tree>)
    ensures AllContents(a + b) == AllContents(a) + AllContents(b)
  {
    if a == [] {
      assert a + b == b;
    } else {
      assert (a + b)[1..] == a[1..] + b;
      AllContentsConcat(a[1..], b);
    }
  }

  lemma Regroup(p: seq<Extent>, q: seq<Extent>, r: seq<Extent>, s: seq<Extent>)
    ensures p + q + (r + s) == p + (q + r) + s
    ensures p + q + r + s == p + (q + r) + s
  {
  }

  lemma ContentsOfPage(t: Tree)
    requires t.Page?
    ensures Contents(t) == AllContents(t.kids)
  {
  }

  /** A tree is its children before position i, child i, and those after it. */
  lemma AllContentsAt(kids: seq<Tree>, i: nat)
    requires i < |kids|
    ensures AllContents(kids) == AllContents(kids[..i]) + Contents(kids[i]) + AllContents(kids[i + 1..])
  {
    assert kids == kids[..i] + kids[i..];
    AllContentsConcat(kids[..i], kids[i..]);
    assert kids[i..][1..] == kids[i + 1..];
  }

  /** No well-shaped tree is empty, and its least key is that of its first object. */
  lemma {:induction false} LeastIsFirst(d: nat, t: Tree)
    requires Shape(d, t)
    ensures Contents(t) != [] && Least(t) == Contents(t)[0].base
    decreases d
  {
    if d > 0 {
      LeastIsFirst(d - 1, t.kids[0]);
    }
  }

  lemma LeastOfRest(d: nat, keys: seq<Key>, kids: seq<Tree>, i: nat)
    requires Row(d, keys, kids) && i < |keys|
    ensures AllContents(kids[i + 1..]) != [] && AllContents(kids[i + 1..])[0].base == keys[i]
  {
    LeastIsFirst(d, kids[i + 1]);
  }

  /** What the binary searches of btree.c compute on a page: the number of separators <= k. */
  function Rank(keys: seq<Key>, k: Key): (r: nat)
    ensures r <= |keys|
    ensures forall i :: 0 <= i < r ==> keys[i] <= k
    ensures r < |keys| ==> k < keys[r]
  {
    if keys != [] && keys[0] <= k then 1 + Rank(keys[1..], k) else 0
  }

  /** Where the contents of a page are relative to the child that the key routes to. */
  ghost predicate Routed(c: seq<Extent>, pre: seq<Extent>, mid: seq<Extent>, post: seq<Extent>, k: Key) {
    && c == pre + mid + post
    && (forall x :: x in pre ==> x.end <= k && x.base < k)
    && (forall x :: x in post ==> k < x.base)
  }

  lemma TwoPieces(a: seq<Extent>, b: seq<Extent>)
    requires Ordered(a + b)
    ensures Ordered(a) && Ordered(b)
    ensures b != [] ==> forall x :: x in a ==> x.base < x.end <= b[0].base
    ensures b != [] ==> forall x :: x in b ==> b[0].base <= x.base
  {
    var c := a + b;
    assert forall i :: 0 <= i < |a| ==> a[i] == c[i];
    assert forall i :: 0 <= i < |b| ==> b[i] == c[|a| + i];
  }

  lemma OrderedPieces(pre: seq<Extent>, mid: seq<Extent>, post: seq<Extent>)
    requires Ordered(pre + mid + post)
    ensures Ordered(mid) && Ordered(post)
    ensures mid != [] ==> forall x :: x in pre ==> x.base < x.end <= mid[0].base
    ensures post != [] ==> forall x :: x in post ==> post[0].base <= x.base
    ensures post != [] ==> forall x :: x in mid ==> x.base < x.end <= post[0].base
  {
    assert pre + mid + post == pre + (mid + post);
    TwoPieces(pre, mid + post);
    TwoPieces(mid, post);
    assert mid != [] ==> (mid + post)[0] == mid[0];
  }

  lemma Route(d: nat, keys: seq<Key>, kids: seq<Tree>, k: Key)
    requires Row(d, keys, kids) && Ordered(AllContents(kids))
    ensures var hi := Rank(keys, k);
            && Routed(AllContents(kids), AllContents(kids[..hi]), Contents(kids[hi]), AllContents(kids[hi + 1..]), k)
            && Ordered(Contents(kids[hi]))
  {
    var hi := Rank(keys, k);
    AllContentsAt(kids, hi);
    var pre, mid, post := AllContents(kids[..hi]), Contents(kids[hi]), AllContents(kids[hi + 1..]);
    OrderedPieces(pre, mid, post);
    LeastIsFirst(d, kids[hi]);
    if hi < |keys| {
      LeastOfRest(d, keys, kids, hi);
    } else {
      assert kids[hi + 1..] == [];
    }
    if hi == 0 {
      assert kids[..hi] == [];
    } else {
      assert keys[hi - 1] == Least(kids[hi - 1 + 1]);
    }
  }

  ghost predicate Ascending(keys: seq<Key>) {
    forall i, j :: 0 <= i < j < |keys| ==> keys[i] < keys[j]
  }

  /** Separators ascend strictly, which is what a binary search needs. */
  lemma SeparatorsAscend(d: nat, keys: seq<Key>, kids: seq<Tree>)
    requires Row(d, keys, kids) && Ordered(AllContents(kids))
    ensures Ascending(keys)
  {
    forall i | 0 <= i < |keys| - 1 ensures keys[i] < keys[i + 1] {
      NextSeparatorIsLarger(d, keys, kids, i);
    }
    AscendingFromSteps(keys);
  }

  lemma NextSeparatorIsLarger(d: nat, keys: seq<Key>, kids: seq<Tree>, i: nat)
    requires Row(d, keys, kids) && Ordered(AllContents(kids)) && i < |keys| - 1
    ensures keys[i] < keys[i + 1]
  {
    AllContentsAt(kids, i + 1);
    OrderedPieces(AllContents(kids[..i + 1]), Contents(kids[i + 1]), AllContents(kids[i + 2..]));
    LeastIsFirst(d, kids[i + 1]);
    LeastOfRest(d, keys, kids, i + 1);
  }

  lemma {:induction false} AscendingFromSteps(keys: seq<Key>)
    requires forall i :: 0 <= i < |keys| - 1 ==> keys[i] < keys[i + 1]
    ensures Ascending(keys)
  {
    if |keys| > 1 {
      var n := |keys| - 1;
      AscendingFromSteps(keys[..n]);
      assert keys[n - 1] < keys[n - 1 + 1];
    }
  }

  /** The contents of a row when child i holds c instead of what it holds. */
  function Around(kids: seq<Tree>, i: nat, c: seq<Extent>): seq<Extent>
    requires i < |kids|
  {
    AllContents(kids[..i]) + c + AllContents(kids[i + 1..])
  }

  lemma RowReplace(d: nat, keys: seq<Key>, kids: seq<Tree>, hi: nat, t: Tree)
    requires Row(d, keys, kids) && Shape(d, t) && hi <= |keys|
    requires hi > 0 ==> Least(t) == keys[hi - 1]
    ensures Row(d, keys, kids[hi := t])
    ensures AllContents(kids[hi := t]) == Around(kids, hi, Contents(t))
  {
    AllContentsAt(kids[hi := t], hi);
    assert kids[hi := t][..hi] == kids[..hi] && kids[hi := t][hi + 1..] == kids[hi + 1..];
  }

  /** A page cut at one of its keys: the keys before it, and those after it. */
  function TakeKeys(p: Tree, n: nat): (r: Tree)
    requires p.Page? && n < |p.keys| && |p.kids| == |p.keys| + 1
    ensures r.Page? && |r.keys| == n && |r.kids| == n + 1
  {
    Page(p.keys[..n], p.kids[..n + 1])
  }

  function DropKeys(p: Tree, n: nat): (r: Tree)
    requires p.Page? && n < |p.keys| && |p.kids| == |p.keys| + 1
    ensures r.Page? && |r.keys| == |p.keys| - n - 1 && |r.kids| == |r.keys| + 1
  {
    Page(p.keys[n + 1..], p.kids[n + 1..])
  }

  /** Cutting a page at a key gives two pages with that key as the separator between them. */
  lemma CutRow(d: nat, p: Tree, n: nat)
    requires p.Page? && Row(d, p.keys, p.kids) && n < |p.keys|
    ensures Row(d, TakeKeys(p, n).keys, TakeKeys(p, n).kids) && Row(d, DropKeys(p, n).keys, DropKeys(p, n).kids)
    ensures Contents(TakeKeys(p, n)) + Contents(DropKeys(p, n)) == Contents(p)
    ensures p.keys[n] == Least(DropKeys(p, n)) && Least(TakeKeys(p, n)) == Least(p)
  {
    hide AllContents, Shape;
    assert p.kids == p.kids[..n + 1] + p.kids[n + 1..];
    AllContentsConcat(p.kids[..n + 1], p.kids[n + 1..]);
    var l, r := TakeKeys(p, n), DropKeys(p, n);
    forall i | 0 <= i < |r.keys| ensures r.keys[i] == Least(r.kids[i + 1]) {
      assert r.keys[i] == p.keys[n + 1 + i] && r.kids[i + 1] == p.kids[n + 1 + i + 1];
    }
  }
}

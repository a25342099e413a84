/** BTEnum of lib/naming/btree.c: the entries of a tree from a key on, in order. */
module NameEnum {
  import opened Extents
  import opened Sequences
  import opened IndexTree
  import opened BTreePages
  import opened BTreeInsert
  import opened BTrees

  /** BTEnumMatch on a whole sequence: the entries whose key is at least k. */
  function From(c: seq<Extent>, k: Key): (r: seq<Extent>)
    ensures |r| <= |c|
    ensures forall x :: x in r <==> x in c && x.base >= k
  {
    if c == [] then [] else (if c[0].base >= k then [c[0]] else []) + From(c[1..], k)
  }

  /** At most the first n. */
  function UpTo(c: seq<Extent>, n: nat): (r: seq<Extent>)
    ensures |r| <= n && r <= c
    ensures |r| == n || r == c
  {
    if |c| <= n then c else c[..n]
  }

  lemma {:induction false} FromConcat(a: seq<Extent>, b: seq<Extent>, k: Key)
    ensures From(a + b, k) == From(a, k) + From(b, k)
  {
    if a == [] {
      assert a + b == b;
    } else {
      assert (a + b)[1..] == a[1..] + b;
      FromConcat(a[1..], b, k);
    }
  }

  lemma {:induction false} FromNone(a: seq<Extent>, k: Key)
    requires forall x :: x in a ==> x.base < k
    ensures From(a, k) == []
  {
    if a != [] {
      assert a[0] in a;
      FromNone(a[1..], k);
    }
  }

  lemma {:induction false} FromAll(c: seq<Extent>, k: Key)
    requires forall x :: x in c ==> x.base >= k
    ensures From(c, k) == c
  {
    if c != [] {
      assert c[0] in c;
      FromAll(c[1..], k);
    }
  }

  /** On ordered entries that is a final piece, so it comes in ascending order. */
  lemma {:induction false} FromIsSuffix(c: seq<Extent>, k: Key)
    requires Ordered(c)
    ensures From(c, k) == c[|c| - |From(c, k)|..]
    ensures forall j :: 0 <= j < |c| - |From(c, k)| ==> c[j].base < k
  {
    if c != [] {
      OrderedTail(c);
      if c[0].base >= k {
        forall x | x in c ensures x.base >= k {
          var j :| 0 <= j < |c| && c[j] == x;
        }
        FromAll(c, k);
      } else {
        var t, n := c[1..], |From(c[1..], k)|;
        FromIsSuffix(t, k);
        assert c[|c| - n..] == t[|t| - n..];
        forall j | 0 <= j < |c| - n ensures c[j].base < k {
          assert j > 0 ==> c[j] == t[j - 1];
        }
      }
    }
  }

  /** Taking from one piece and then, if there is room, from the next. */
  lemma UpToConcat(a: seq<Extent>, b: seq<Extent>, n: nat)
    ensures UpTo(a + b, n) == UpTo(a, n) + UpTo(b, n - |UpTo(a, n)|)
  {
  }

  /** What the children from hi up to i contribute, when there is room for n. */
  ghost function Gathered(kids: seq<Tree>, hi: nat, i: nat, k: Key, n: nat): (r: seq<Extent>)
    requires hi <= i <= |kids|
    ensures |r| <= n
  {
    UpTo(From(AllContents(kids[hi..i]), k), n)
  }

  /** The first n entries of the tree with a key of at least k. */
  function Wanted(t: Tree, k: Key, n: nat): seq<Extent> {
    UpTo(From(Contents(t), k), n)
  }

  lemma GatherNone(kids: seq<Tree>, hi: nat, k: Key, n: nat)
    requires hi <= |kids|
    ensures Gathered(kids, hi, hi, k, n) == []
  {
  }

  lemma GatherOne(kids: seq<Tree>, hi: nat, i: nat, k: Key, n: nat)
    requires hi <= i < |kids|
    ensures var g := Gathered(kids, hi, i, k, n);
            Gathered(kids, hi, i + 1, k, n) == g + Wanted(kids[i], k, n - |g|)
  {
    assert kids[hi..i + 1] == kids[hi..i] + [kids[i]];
    AllContentsConcat(kids[hi..i], [kids[i]]);
    assert AllContents([kids[i]]) == Contents(kids[i]);
    FromConcat(AllContents(kids[hi..i]), Contents(kids[i]), k);
    UpToConcat(From(AllContents(kids[hi..i]), k), From(Contents(kids[i]), k), n);
  }

  /** A page of an index, with d levels. */
  ghost predicate Indexed(d: nat, t: Tree) {
    t.Page? && d > 0 && Shape(d, t) && Ordered(Contents(t))
  }

  /** Once n are gathered the other children contribute nothing more; otherwise all is gathered at
      the end. The children before the one the key routes to have nothing to give. */
  lemma GatherAll(d: nat, t: Tree, i: nat, k: Key, n: nat)
    requires Indexed(d, t)
    requires Rank(t.keys, k) <= i <= |t.kids|
    requires var g := Gathered(t.kids, Rank(t.keys, k), i, k, n); |g| == n || i == |t.kids|
    ensures Gathered(t.kids, Rank(t.keys, k), i, k, n) == Wanted(t, k, n)
  {
    var hi := Rank(t.keys, k);
    Route(d - 1, t.keys, t.kids, k);
    PieceTogether(t.kids, hi, i);
    assert i == |t.kids| ==> AllContents(t.kids[i..]) == [];
    hide Shape, Ordered, From, UpTo, AllContents, Rank;
    MiddleDecides(AllContents(t.kids[..hi]), AllContents(t.kids[hi..i]), AllContents(t.kids[i..]), k, n);
  }

  lemma PieceTogether(kids: seq<Tree>, hi: nat, i: nat)
    requires hi <= i <= |kids|
    ensures AllContents(kids) == AllContents(kids[..hi]) + AllContents(kids[hi..i]) + AllContents(kids[i..])
  {
    ThreeSlices(kids, hi, i);
    ThreeParts(kids, kids[..hi], kids[hi..i], kids[i..]);
  }

  lemma ThreeParts(s: seq<Tree>, a: seq<Tree>, b: seq<Tree>, c: seq<Tree>)
    requires s == a + b + c
    ensures AllContents(s) == AllContents(a) + AllContents(b) + AllContents(c)
  {
    AllContentsConcat(a + b, c);
    AllContentsConcat(a, b);
  }

  lemma MiddleDecides(a: seq<Extent>, b: seq<Extent>, c: seq<Extent>, k: Key, n: nat)
    requires forall x :: x in a ==> x.base < k
    requires |UpTo(From(b, k), n)| == n || c == []
    ensures UpTo(From(a + b + c, k), n) == UpTo(From(b, k), n)
  {
    FromNone(a, k);
    FromConcat(a + b, c, k);
    FromConcat(a, b, k);
    assert [] + From(b, k) == From(b, k);
    UpToConcat(From(b, k), From(c, k), n);
  }

  /** What one child contributes: its own entry in a leaf, those of its page otherwise. */
  method EnumChild(current: Page, i: nat, out: array<Extent>, at: nat, sofar: nat, len: nat, find: Key, ghost d: nat)
    returns (found: nat)
    requires Searchable(current, d) && current.InRange() && i <= current.count
    requires current.tree.Page? && i < |current.tree.kids|
    requires sofar < len && at + len <= out.Length && out !in current.Repr
    modifies out
    ensures sofar <= found <= len
    ensures out[at..at + found] == old(out[at..at + sofar]) + Wanted(old(current.tree.kids[i]), find, len - sofar)
    ensures out[..at] == old(out[..at])
    decreases d, 0
  {
    ChildSearchable(current, i, d);
    LeafIsBottom(current, d);
    ghost var pre := out[..];
    ghost var w := Wanted(current.tree.kids[i], find, len - sofar);
    hide Contents, Ordered, Shape, Page.Valid, From, UpTo;
    if current.isleaf {
      LeafWanted(current.tree.kids[i], current.child[i].e, find, len - sofar);
      hide Wanted;
      found := PutIfMatch(current.child[i].e, out, at, sofar, find);
    } else {
      hide Wanted;
      var more := BTEnumPage(current.child[i].p, out, at + sofar, len - sofar, find, d - 1);
      found := sofar + more;
    }
    Glue(pre, out[..], at, sofar, found, w);
  }

  /** An entry of a leaf is written when it matches. */
  method PutIfMatch(o: Extent, out: array<Extent>, at: nat, sofar: nat, find: Key) returns (found: nat)
    requires at + sofar < out.Length
    modifies out
    ensures found == if o.base >= find then sofar + 1 else sofar
    ensures out[..at + sofar] == old(out[..at + sofar])
    ensures out[at + sofar..at + found] == if o.base >= find then [o] else []
  {
    found := sofar;
    if o.base >= find {
      out[at + found] := o;
      found := found + 1;
    }
  }

  /** Writing a piece behind what is there. */
  lemma Glue(pre: seq<Extent>, post: seq<Extent>, at: nat, sofar: nat, found: nat, w: seq<Extent>)
    requires |pre| == |post| && sofar <= found && at + found <= |pre|
    requires post[..at + sofar] == pre[..at + sofar] && post[at + sofar..at + found] == w
    ensures post[at..at + found] == pre[at..at + sofar] + w && post[..at] == pre[..at]
  {
    assert pre[..at + sofar][at..] == pre[at..at + sofar] && pre[..at + sofar][..at] == pre[..at];
    assert post[..at + sofar][at..] == post[at..at + sofar] && post[..at + sofar][..at] == post[..at];
  }

  lemma LeafWanted(t: Tree, o: Extent, k: Key, n: nat)
    requires n > 0 && Contents(t) == [o]
    ensures Wanted(t, k, n) == if o.base >= k then [o] else []
  {
    assert From([o], k) == (if o.base >= k then [o] else []) + From([], k);
  }

  lemma ChildSearchable(p: Page, i: nat, d: nat)
    requires Searchable(p, d) && p.InRange() && i <= p.count
    ensures p.tree.Page? && i < |p.tree.kids| == p.count + 1
    ensures p.isleaf ==> p.child[i].Object? && Contents(p.tree.kids[i]) == [p.child[i].e]
    ensures !p.isleaf ==>
              && p.child[i].Sub? && p.child[i].p.tree == p.tree.kids[i] && p.child[i].p.Repr <= p.Repr
              && d > 1 && Searchable(p.child[i].p, d - 1)
  {
    LeafIsBottom(p, d);
    ChildFits(p, i);
    var kids := p.tree.kids;
    AllContentsAt(kids, i);
    OrderedPieces(AllContents(kids[..i]), Contents(kids[i]), AllContents(kids[i + 1..]));
  }

  /** BTEnumPage: the first `len` entries of the subtree with a key of at least `find` are written
      from position `at` on, and their number is returned. */
  method BTEnumPage(current: Page, out: array<Extent>, at: nat, len: nat, find: Key, ghost d: nat) returns (found: nat)
    requires Searchable(current, d) && 0 < len && at + len <= out.Length && out !in current.Repr
    modifies out
    ensures found <= len && out[at..at + found] == Wanted(current.tree, find, len)
    ensures out[..at] == old(out[..at])
    decreases d, 2
  {
    SearchableIndexed(current, d);
    var i := SearchPage(current, find, d);
    found := EnumFrom(current, i, out, at, len, find, d);
  }

  lemma SearchableIndexed(p: Page, d: nat)
    requires Searchable(p, d)
    ensures Indexed(d, p.tree)
  {
  }

  /** The loops of BTEnumPage, from the child that the key routes to. */
  method EnumFrom(current: Page, hi: nat, out: array<Extent>, at: nat, len: nat, find: Key, ghost d: nat)
    returns (found: nat)
    requires Searchable(current, d) && current.tree.Page? && Indexed(d, current.tree) && current.InRange()
    requires hi == Rank(current.tree.keys, find) <= current.count && |current.tree.kids| == current.count + 1
    requires 0 < len && at + len <= out.Length && out !in current.Repr
    modifies out
    ensures found <= len && out[at..at + found] == Wanted(current.tree, find, len)
    ensures out[..at] == old(out[..at])
    decreases d, 1
  {
    hide *;
    ghost var t := current.tree;
    var i := hi;
    found := 0;
    GatherNone(t.kids, hi, find, len);
    while i <= current.count
      invariant hi <= i <= current.count + 1 == |t.kids| && found < len
      invariant out[at..at + found] == Gathered(t.kids, hi, i, find, len)
      invariant out[..at] == old(out[..at])
    {
      GatherOne(t.kids, hi, i, find, len);
      found := EnumChild(current, i, out, at, found, len, find, d);
      i := i + 1;
      if found == len {
        break;
      }
    }
    GatherAll(d, t, i, find, len);
  }

  /** BTEnum, with mode BTE_ENUM: the first `len` entries with a key of at least `find` go into the
      array, in ascending order, and their number is returned. */
  method BTEnum(btree: BTree, out: array<Extent>, len: nat, find: Key) returns (found: nat)
    requires btree.Valid() && 0 < len <= out.Length && out !in btree.Repr
    modifies out
    ensures found <= len && found == |UpTo(From(btree.Stored(), find), len)|
    ensures out[..found] == UpTo(From(btree.Stored(), find), len)
    ensures Ordered(btree.Stored())
  {
    StoredOrdered(btree);
    if btree.root == null {
      return 0;
    }
    found := BTEnumPage(btree.root, out, 0, len, find, btree.depth);
    assert out[0..0 + found] == out[..found];
  }

  lemma StoredOrdered(btree: BTree)
    requires btree.Valid()
    ensures Ordered(btree.Stored())
    ensures btree.root != null ==> Searchable(btree.root, btree.depth)
  {
    if btree.root == null {
      assert btree.Stored() == [];
    }
  }
}

/** The split of a full page to the letter of kernel/lib/klibc/btree.c. */
module SplitAsWritten {
  import opened Extents
  import opened Sequences
  import opened IndexTree
  import opened IndexInsert

  /** BTInsertPage as it stands. When the promoted child goes exactly into the middle, it is called with
      a negative position on a page of pages (line 504) and takes the word at an object's `base` offset
      in the first child page for a key (line 391). What that word is the tree does not say: it is a
      parameter here. */
  function EntryAsWritten(keys: seq<Key>, kids: seq<Tree>, hi: int, k: Key, c: Tree, word: Key): (p: Tree)
    requires |kids| == |keys| + 1 && -1 <= hi <= |keys|
    ensures p.Page?
  {
    if hi >= 0 then Page(InsertedAt(keys, hi, k), InsertedAt(kids, hi + 1, c))
    else Page(InsertedAt(keys, 0, if kids[0].Obj? then kids[0].e.base else word), InsertedAt(kids, 0, c))
  }

  datatype Pieces = Pieces(left: Tree, key: Key, right: Tree)

  /** Lines 466-510 of BTInsert. */
  function Split(keys: seq<Key>, kids: seq<Tree>, hi: int, k: Key, c: Tree, word: Key): (p: Pieces)
    requires |keys| == BT_MAXKEY && |kids| == |keys| + 1 && -1 <= hi <= |keys|
    ensures p.right.Page?
  {
    var m: nat := BT_MINKEY;
    if hi < m then
      Pieces(EntryAsWritten(keys[..m - 1], kids[..m], hi, k, c, word), keys[m - 1], Page(keys[m..], kids[m..]))
    else
      Pieces(Page(keys[..m], kids[..m + 1]), if hi == m then k else keys[m],
             EntryAsWritten(keys[m + 1..], kids[m + 1..], hi - (m + 1), k, c, word))
  }

  /** The page with the entry in it, with the separators that the code as it stands leaves there: when a
      promoted page goes into the middle, the stray word stands in front of the child behind it. */
  function Altered(keys: seq<Key>, kids: seq<Tree>, hi: int, k: Key, c: Tree, word: Key): (a: Tree)
    requires |keys| == BT_MAXKEY && |kids| == |keys| + 1 && -1 <= hi <= |keys|
    ensures a.Page? && |a.keys| == BT_MAXKEY + 1 && |a.kids| == BT_MAXKEY + 2
  {
    var p := WithEntry(keys, kids, hi, k, c);
    if hi == BT_MINKEY && kids[BT_MINKEY + 1].Page? then Page(p.keys[BT_MINKEY + 1 := word], p.kids) else p
  }

  /** A page of pages takes entries behind a child, and the first children of a leaf are objects with the
      separators they should have. */
  ghost predicate Splittable(keys: seq<Key>, kids: seq<Tree>, hi: int) {
    && |keys| == BT_MAXKEY && |kids| == |keys| + 1 && -1 <= hi <= |keys|
    && (hi < 0 ==> kids[0].Obj?)
    && (kids[BT_MINKEY + 1].Obj? ==> keys[BT_MINKEY] == Least(kids[BT_MINKEY + 1]))
  }

  ghost predicate IsCut(p: Pieces, a: Tree)
    requires a.Page? && |a.keys| == BT_MAXKEY + 1 && |a.kids| == BT_MAXKEY + 2
  {
    p == Pieces(TakeKeys(a, BT_MINKEY), a.keys[BT_MINKEY], DropKeys(a, BT_MINKEY))
  }

  /** All three cases of the split cut that page around its middle. */
  lemma SplitIsCut(keys: seq<Key>, kids: seq<Tree>, hi: int, k: Key, c: Tree, word: Key)
    requires Splittable(keys, kids, hi)
    ensures IsCut(Split(keys, kids, hi, k, c, word), Altered(keys, kids, hi, k, c, word))
  {
    hide InsertedAt, Least;
    if hi < BT_MINKEY {
      CutLow(keys, kids, hi, k, c, word);
    } else if hi == BT_MINKEY {
      CutMiddle(keys, kids, k, c, word);
    } else {
      CutHigh(keys, kids, hi, k, c, word);
    }
  }

  lemma CutLow(keys: seq<Key>, kids: seq<Tree>, hi: int, k: Key, c: Tree, word: Key)
    requires Splittable(keys, kids, hi) && hi < BT_MINKEY
    ensures IsCut(Split(keys, kids, hi, k, c, word), WithEntry(keys, kids, hi, k, c))
  {
    var m: nat := BT_MINKEY;
    var at: nat, x: Key := if hi < 0 then 0 else hi, if hi < 0 then Least(kids[0]) else k;
    CutAfter(kids, hi + 1, c, m);
    CutAfter(keys, at, x, m - 1);
    var w := InsertedAt(keys, at, x);
    assert w[m] == w[m..][0] && w[m + 1..] == w[m..][1..] && kids[..m][0] == kids[0];
  }

  lemma CutMiddle(keys: seq<Key>, kids: seq<Tree>, k: Key, c: Tree, word: Key)
    requires Splittable(keys, kids, BT_MINKEY)
    ensures IsCut(Split(keys, kids, BT_MINKEY, k, c, word), Altered(keys, kids, BT_MINKEY, k, c, word))
  {
    var m: nat := BT_MINKEY;
    CutBefore(kids, m + 1, c, m + 1);
    CutBefore(keys, m, k, m);
    var w := InsertedAt(keys, m, k);
    assert w[m] == k && w[m + 1..] == keys[m..];
    assert keys[m..] == [keys[m]] + keys[m + 1..];
    assert w[m + 1 := word][..m] == w[..m] && w[m + 1 := word][m + 1..] == [word] + keys[m + 1..];
  }

  lemma CutHigh(keys: seq<Key>, kids: seq<Tree>, hi: nat, k: Key, c: Tree, word: Key)
    requires Splittable(keys, kids, hi) && BT_MINKEY < hi
    ensures IsCut(Split(keys, kids, hi, k, c, word), WithEntry(keys, kids, hi, k, c))
  {
    var m: nat := BT_MINKEY;
    CutBefore(kids, hi + 1, c, m + 1);
    CutBefore(keys, hi, k, m + 1);
    var w := InsertedAt(keys, hi, k);
    assert w[m] == w[..m + 1][m] && w[..m] == w[..m + 1][..m] && keys[..m] == keys[..m + 1][..m];
  }

  /** When the stray word is the right separator, or is not read, the page is the one that is meant. */
  lemma AlteredIsMeant(keys: seq<Key>, kids: seq<Tree>, hi: int, k: Key, c: Tree, word: Key)
    requires Splittable(keys, kids, hi)
    requires hi == BT_MINKEY && kids[BT_MINKEY + 1].Page? ==> word == keys[BT_MINKEY]
    ensures Altered(keys, kids, hi, k, c, word) == WithEntry(keys, kids, hi, k, c)
  {
    if hi == BT_MINKEY && kids[BT_MINKEY + 1].Page? {
      InsertedAtElements(keys, BT_MINKEY, k);
      hide InsertedAt;
      var w := InsertedAt(keys, BT_MINKEY, k);
      assert w[BT_MINKEY + 1 := word] == w;
    }
  }

  /** Adding an entry to a page, to the letter. */
  function AddAsWritten(keys: seq<Key>, kids: seq<Tree>, hi: int, k: Key, c: Tree, ngb: Extent, word: Key):
    (r: InsertResult)
    requires |kids| == |keys| + 1 && |keys| <= BT_MAXKEY && -1 <= hi <= |keys|
    ensures |keys| < BT_MAXKEY ==> r.Inserted? && r.t.Page?
    ensures |keys| == BT_MAXKEY ==> r.Promoted? && r.left.Page? && r.right.Page?
  {
    if |keys| < BT_MAXKEY then Inserted(EntryAsWritten(keys, kids, hi, k, c, word), ngb)
    else
      var p := Split(keys, kids, hi, k, c, word);
      Promoted(p.left, p.key, p.right, ngb)
  }

  /** It does what is meant unless a promoted page goes into the middle of a full page and the stray word is
      not the separator that belongs there. */
  lemma AddAgrees(keys: seq<Key>, kids: seq<Tree>, hi: int, k: Key, c: Tree, ngb: Extent, word: Key)
    requires |kids| == |keys| + 1 && |keys| <= BT_MAXKEY && -1 <= hi <= |keys| && (hi < 0 ==> kids[0].Obj?)
    requires |keys| == BT_MAXKEY ==> Splittable(keys, kids, hi)
    requires |keys| == BT_MAXKEY && hi == BT_MINKEY && kids[BT_MINKEY + 1].Page? ==> word == keys[BT_MINKEY]
    ensures AddAsWritten(keys, kids, hi, k, c, ngb, word) == AddEntry(keys, kids, hi, k, c, ngb)
  {
    hide Split;
    if |keys| == BT_MAXKEY {
      SplitIsCut(keys, kids, hi, k, c, word);
      AlteredIsMeant(keys, kids, hi, k, c, word);
    }
  }

  lemma EntryParts(d: nat, k: Key, c: Tree)
    requires Entry(d, k, c)
    ensures Shape(d, c) && k == Least(c)
  {
  }

  lemma ChildOfRow(d: nat, keys: seq<Key>, kids: seq<Tree>, i: nat)
    requires d > 0 && Row(d, keys, kids) && i < |keys|
    ensures |kids| == |keys| + 1 && kids[i + 1].Page? && keys[i] == Least(kids[i + 1])
  {
    assert Shape(d, kids[i + 1]);
  }

  /** The stray word stands where the least key of the old child behind the middle should. */
  lemma StrayWord(d: nat, keys: seq<Key>, kids: seq<Tree>, k: Key, c: Tree, word: Key)
    requires |keys| == BT_MAXKEY && |kids| == |keys| + 1 && kids[BT_MINKEY + 1].Page?
    requires word != Least(kids[BT_MINKEY + 1])
    ensures var p := Split(keys, kids, BT_MINKEY, k, c, word).right; !Row(d, p.keys, p.kids)
  {
    var p := Split(keys, kids, BT_MINKEY, k, c, word).right;
    assert p.keys[0] == word && p.kids[1] == kids[BT_MINKEY + 1];
  }

  /** For every full inner page and every child that one of its children promotes: the code as it
      stands gives a well-shaped right page, and then exactly the split that is meant, if and only
      if the child does not go into the middle or the stray word happens to be the separator that
      stands there. */
  lemma SplitAsWrittenShape(d: nat, t: Tree, hi: nat, k: Key, c: Tree, ngb: Extent, word: Key)
    requires d >= 2 && Shape(d, t) && |t.keys| == BT_MAXKEY && hi <= |t.keys| && Entry(d - 1, k, c)
    ensures var p := AddAsWritten(t.keys, t.kids, hi, k, c, ngb, word);
            var right := hi != BT_MINKEY || word == t.keys[BT_MINKEY];
            && (Row(d - 1, p.right.keys, p.right.kids) <==> right)
            && (right ==> p == AddEntry(t.keys, t.kids, hi, k, c, ngb))
  {
    hide Split, Shape, Row, Least, Contents, WithEntry, TakeKeys, DropKeys, Entry;
    var m: nat := BT_MINKEY;
    ShapeIsRow(d, t);
    EntryParts(d - 1, k, c);
    ChildOfRow(d - 1, t.keys, t.kids, m);
    if hi == m && word != t.keys[m] {
      StrayWord(d - 1, t.keys, t.kids, k, c, word);
    } else {
      AddAgrees(t.keys, t.kids, hi, k, c, ngb, word);
      RowWithEntry(d - 1, t.keys, t.kids, hi, k, c);
      CutRow(d - 1, WithEntry(t.keys, t.kids, hi, k, c), m);
    }
  }
}

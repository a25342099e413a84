/** BTInsert of kernel/lib/klibc/btree.c to the letter. */
module InsertAsWritten {
  import opened Extents
  import opened IndexTree
  import opened IndexInsert
  import opened ObjectIndex
  import opened SplitAsWritten

  /** The word that a stray read finds, by the number of levels of the page that is split. */
  type StrayWords = nat -> Key

  /** The leaf step. The first child of a leaf is an object, so nothing strays here. */
  ghost function LeafAsWritten(t: Tree, e: Extent, word: Key): (r: InsertResult)
    requires Shape(1, t)
    ensures r.Inserted? ==> r.t.Page?
    ensures r.Promoted? ==> r.left.Page? && r.right.Page?
  {
    var hi := Rank(t.keys, e.base);
    var o := t.kids[hi].e;
    if Matches(o, e.base) || (hi == 0 && Overlaps(e, o)) then Rejected(BT_OVERLAP)
    else AddAsWritten(t.keys, t.kids, LeafIndex(t, e), e.base, Obj(e), o, word)
  }

  function PassAsWritten(keys: seq<Key>, kids: seq<Tree>, hi: nat, r: InsertResult, word: Key): (s: InsertResult)
    requires |kids| == |keys| + 1 && |keys| <= BT_MAXKEY && hi <= |keys|
    ensures s.Inserted? ==> s.t.Page?
    ensures s.Promoted? ==> s.left.Page? && s.right.Page?
  {
    match r
    case Rejected(why) => Rejected(why)
    case Inserted(t, ngb) => Inserted(Page(keys, kids[hi := t]), ngb)
    case Promoted(left, k, right, ngb) => AddAsWritten(keys, kids[hi := left], hi, k, right, ngb, word)
  }

  /** BTInsert: on every level the page is changed to the letter. */
  ghost function AsWritten(d: nat, t: Tree, e: Extent, words: StrayWords): (r: InsertResult)
    requires d > 0 && Shape(d, t)
    ensures r.Inserted? ==> r.t.Page?
    ensures r.Promoted? ==> r.left.Page? && r.right.Page?
    decreases d
  {
    var hi := Rank(t.keys, e.base);
    if e.base in t.keys then Rejected(BT_DUPLICATE)
    else if hi < |t.keys| && Matches(e, t.keys[hi]) then Rejected(BT_OVERLAP)
    else if d == 1 then LeafAsWritten(t, e, words(d))
    else PassAsWritten(t.keys, t.kids, hi, AsWritten(d - 1, t.kids[hi], e, words), words(d))
  }

  // ---------------------------------------------------------------- when it strays

  /** Every page on the way down to the leaf for the key is full. */
  ghost predicate FullPath(d: nat, t: Tree, k: Key)
    requires d > 0 && Shape(d, t)
    decreases d
  {
    |t.keys| == BT_MAXKEY && (d > 1 ==> FullPath(d - 1, t.kids[Rank(t.keys, k)], k))
  }

  /** The page and all below it on the way are full, and the key routes to the child in the middle: there
      the promoted child is put in front of the new page. */
  ghost predicate Middle(d: nat, t: Tree, k: Key)
    requires d > 0 && Shape(d, t)
  {
    d > 1 && FullPath(d, t, k) && Rank(t.keys, k) == BT_MINKEY
  }

  /** Somewhere on the way that happens, and the stray word is not the separator that belongs there. */
  ghost predicate Stray(d: nat, t: Tree, k: Key, words: StrayWords)
    requires d > 0 && Shape(d, t)
    decreases d
  {
    d > 1 && ((Middle(d, t, k) && words(d) != t.keys[BT_MINKEY]) || Stray(d - 1, t.kids[Rank(t.keys, k)], k, words))
  }

  /** An accepted insertion into a proper index page. */
  ghost predicate Accepts(d: nat, t: Tree, e: Extent) {
    d > 0 && Shape(d, t) && Ordered(Contents(t)) && !InsertInto(d, t, e).Rejected?
  }

  /** The facts that every step down relies on. */
  lemma Down(d: nat, t: Tree, e: Extent)
    requires d > 1 && Accepts(d, t, e)
    ensures t.Page?
    ensures var hi := Rank(t.keys, e.base);
            && |t.kids| == |t.keys| + 1 && |t.keys| <= BT_MAXKEY && hi <= |t.keys| && e.base !in t.keys
            && Shape(d - 1, t.kids[hi]) && Accepts(d - 1, t.kids[hi], e)
            && !(hi < |t.keys| && Matches(e, t.keys[hi]))
            && InsertInto(d, t, e) == PassOn(t.keys, t.kids, hi, InsertInto(d - 1, t.kids[hi], e))
  {
    hide Ordered, Contents, AddEntry;
    RoutedChild(d, t, e.base);
  }

  /** An insertion promotes exactly when every page on the way is full. */
  lemma {:induction false} PromotesWhenFull(d: nat, t: Tree, e: Extent)
    requires Accepts(d, t, e)
    ensures InsertInto(d, t, e).Promoted? <==> FullPath(d, t, e.base)
    decreases d
  {
    hide Ordered, Contents, WithEntry, TakeKeys, DropKeys;
    if d > 1 {
      Down(d, t, e);
      PromotesWhenFull(d - 1, t.kids[Rank(t.keys, e.base)], e);
    }
  }

  // ---------------------------------------------------------------- one level

  lemma LeafAgrees(t: Tree, e: Extent, word: Key)
    requires Shape(1, t)
    ensures LeafAsWritten(t, e, word) == InsertAtLeaf(t, e)
  {
    hide AddEntry, AddAsWritten, Matches, Overlaps;
    var hi := Rank(t.keys, e.base);
    var o := t.kids[hi].e;
    if !(Matches(o, e.base) || (hi == 0 && Overlaps(e, o))) {
      if |t.keys| == BT_MAXKEY {
        assert t.keys[BT_MINKEY] == Least(t.kids[BT_MINKEY + 1]);
      }
      AddAgrees(t.keys, t.kids, LeafIndex(t, e), e.base, Obj(e), o, word);
    }
  }

  /** The pages of a result are well shaped. */
  ghost predicate WellShaped(d: nat, r: InsertResult) {
    match r
    case Rejected(_) => true
    case Inserted(t, _) => Shape(d, t)
    case Promoted(left, _, right, _) => Shape(d, left) && Shape(d, right)
  }

  lemma PagesShaped(d: nat, t: Tree)
    requires d > 0 && Shape(d, t)
    ensures forall i :: 0 <= i < |t.kids| ==> Shape(d - 1, t.kids[i])
  {
  }

  /** Where the pieces of a split child end up. */
  lemma AddedPlaces(keys: seq<Key>, kids: seq<Tree>, hi: nat, k: Key, c: Tree, ngb: Extent, word: Key)
    requires |kids| == |keys| + 1 && |keys| <= BT_MAXKEY && hi <= |keys| && c.Page?
    requires forall i :: 0 <= i < |kids| ==> kids[i].Page?
    ensures var r, w := AddAsWritten(keys, kids, hi, k, c, ngb, word), WithEntry(keys, kids, hi, k, c);
            && (r.Inserted? ==> r.t == w)
            && (r.Promoted? ==> |keys| == BT_MAXKEY && r.left.kids + r.right.kids == w.kids)
            && w.kids[hi] == kids[hi] && w.kids[hi + 1] == c
  {
    hide Split;
    if |keys| == BT_MAXKEY {
      SplitIsCut(keys, kids, hi, k, c, word);
    }
  }

  /** A misshapen piece of a child makes a misshapen page. */
  lemma Spoils(d: nat, t: Tree, hi: nat, r: InsertResult, word: Key)
    requires d > 1 && Shape(d, t) && hi <= |t.keys| && !WellShaped(d - 1, r)
    requires r.Inserted? ==> r.t.Page?
    requires r.Promoted? ==> r.left.Page? && r.right.Page?
    ensures !WellShaped(d, PassAsWritten(t.keys, t.kids, hi, r, word))
  {
    var s := PassAsWritten(t.keys, t.kids, hi, r, word);
    if WellShaped(d, s) {
      if r.Promoted? {
        AddedPlaces(t.keys, t.kids[hi := r.left], hi, r.key, r.right, r.ngb, word);
      }
      hide AddAsWritten, WithEntry;
      if s.Inserted? {
        assert s.t.kids[hi] == First(r) && (r.Promoted? ==> s.t.kids[hi + 1] == r.right);
        PagesShaped(d, s.t);
      } else {
        var kids := s.left.kids + s.right.kids;
        assert kids[hi] == r.left && kids[hi + 1] == r.right;
        SidesShaped(d, s.left, s.right);
      }
    }
  }

  lemma SidesShaped(d: nat, l: Tree, r: Tree)
    requires d > 0 && Shape(d, l) && Shape(d, r)
    ensures forall i :: 0 <= i < |l.kids + r.kids| ==> Shape(d - 1, (l.kids + r.kids)[i])
  {
    PagesShaped(d, l);
    PagesShaped(d, r);
  }

  /** A child that was inserted into properly and split. */
  lemma SplitAbove(d: nat, t: Tree, e: Extent, word: Key)
    requires d > 1 && Accepts(d, t, e) && InsertInto(d - 1, t.kids[Rank(t.keys, e.base)], e).Promoted?
    ensures var hi := Rank(t.keys, e.base);
            var s := PassAsWritten(t.keys, t.kids, hi, InsertInto(d - 1, t.kids[hi], e), word);
            var right := |t.keys| < BT_MAXKEY || hi != BT_MINKEY || word == t.keys[BT_MINKEY];
            (right ==> s == InsertInto(d, t, e)) && (!right ==> !WellShaped(d, s))
  {
    hide Shape, Ordered, Contents, InsertInto, AddAsWritten, AddEntry, Holds, Entry, Row, InsertSorted;
    Down(d, t, e);
    var hi := Rank(t.keys, e.base);
    var r := InsertInto(d - 1, t.kids[hi], e);
    PageAboveSplit(d, t, e);
    RoutedChild(d, t, e.base);
    InsertHolds(d - 1, t.kids[hi], e);
    HoldsParts(d - 1, r, InsertSorted(Contents(t.kids[hi]), e), e);
    var t' := Page(t.keys, t.kids[hi := r.left]);
    if |t.keys| == BT_MAXKEY {
      SplitAsWrittenShape(d, t', hi, r.key, r.right, r.ngb, word);
      RightIsRow(d, PassAsWritten(t.keys, t.kids, hi, r, word));
    } else {
      AddAgrees(t.keys, t'.kids, hi, r.key, r.right, r.ngb, word);
    }
  }

  lemma RightIsRow(d: nat, r: InsertResult)
    requires d > 0 && r.Promoted?
    ensures WellShaped(d, r) ==> r.right.Page? && Row(d - 1, r.right.keys, r.right.kids)
  {
  }

  // ---------------------------------------------------------------- all levels

  /** An accepted insertion to the letter leaves well-shaped pages, and then exactly those that are meant,
      if and only if it strays on no level. */
  lemma {:induction false} AsWrittenExactly(d: nat, t: Tree, e: Extent, words: StrayWords)
    requires Accepts(d, t, e)
    ensures !AsWritten(d, t, e, words).Rejected?
    ensures WellShaped(d, AsWritten(d, t, e, words)) <==> !Stray(d, t, e.base, words)
    ensures !Stray(d, t, e.base, words) ==> AsWritten(d, t, e, words) == InsertInto(d, t, e)
    decreases d
  {
    hide Shape, Ordered, Contents, AddAsWritten, AddEntry, Holds, WellShaped, Accepts;
    IsWellShaped(d, t, e);
    if d == 1 {
      LeafAgrees(t, e, words(1));
    } else {
      Down(d, t, e);
      var hi := Rank(t.keys, e.base);
      AsWrittenExactly(d - 1, t.kids[hi], e, words);
      PromotesWhenFull(d - 1, t.kids[hi], e);
      if Stray(d - 1, t.kids[hi], e.base, words) {
        Spoils(d, t, hi, AsWritten(d - 1, t.kids[hi], e, words), words(d));
      } else if InsertInto(d - 1, t.kids[hi], e).Promoted? {
        SplitAbove(d, t, e, words(d));
      }
    }
  }

  lemma IsWellShaped(d: nat, t: Tree, e: Extent)
    requires Accepts(d, t, e)
    ensures d > 0 && Shape(d, t) && WellShaped(d, InsertInto(d, t, e)) && !InsertInto(d, t, e).Rejected?
  {
    hide Shape, Ordered, Contents, InsertInto;
    InsertHolds(d, t, e);
  }

  // ---------------------------------------------------------------- the whole index

  /** BTIns to the letter. */
  ghost function InsAsWritten(x: Index, e: Extent, words: StrayWords): Outcome
    requires Sound(x)
  {
    if x.Empty? then Outcome(BT_OK, [], Rooted(1, Page([], [Obj(e)])))
    else
      match AsWritten(x.depth, x.top, e, words)
      case Rejected(why) => Outcome(why, [], x)
      case Inserted(t, ngb) => Outcome(BT_OK, [ngb], Rooted(x.depth, t))
      case Promoted(l, k, r, ngb) => Outcome(BT_OK, [ngb], Rooted(x.depth + 1, Page([k], [l, r])))
  }

  /** The object goes in, and strays on some level. */
  ghost predicate Strays(x: Index, e: Extent, words: StrayWords)
    requires Sound(x)
  {
    x.Rooted? && !Meets(e, Objects(x)) && Stray(x.depth, x.top, e.base, words)
  }

  lemma {:induction false} RejectsAlike(d: nat, t: Tree, e: Extent, words: StrayWords)
    requires d > 0 && Shape(d, t) && InsertInto(d, t, e).Rejected?
    ensures AsWritten(d, t, e, words) == InsertInto(d, t, e)
    decreases d
  {
    hide WithEntry, TakeKeys, DropKeys, AddAsWritten;
    if d == 1 {
      LeafAgrees(t, e, words(1));
    } else if InsertInto(d - 1, t.kids[Rank(t.keys, e.base)], e).Rejected? {
      RejectsAlike(d - 1, t.kids[Rank(t.keys, e.base)], e, words);
    }
  }

  lemma RootIsWellShaped(d: nat, r: InsertResult)
    requires d > 0 && !r.Rejected?
    ensures r.Inserted? && Sound(Rooted(d, r.t)) ==> WellShaped(d, r)
    ensures r.Promoted? && Sound(Rooted(d + 1, Page([r.key], [r.left, r.right]))) ==> WellShaped(d, r)
  {
    if r.Promoted? && Sound(Rooted(d + 1, Page([r.key], [r.left, r.right]))) {
      var root := Page([r.key], [r.left, r.right]);
      assert root.kids[0] == r.left && root.kids[1] == r.right;
      PagesShaped(d + 1, root);
    }
  }

  /** For every sound index and every object: the code to the letter accepts it exactly when the insertion
      that is meant does. The index is sound then, and the one that is meant, if and only if the insertion
      strays on no level. */
  lemma InsertExactly(x: Index, e: Extent, words: StrayWords)
    requires Sound(x) && e.base < e.end
    ensures InsAsWritten(x, e, words).status == Insert(x, e).status
    ensures Sound(InsAsWritten(x, e, words).index) <==> !Strays(x, e, words)
    ensures !Strays(x, e, words) ==> InsAsWritten(x, e, words) == Insert(x, e)
  {
    hide Shape, Ordered, Contents, Meets, InsertSorted, Adjacent, AsWritten, InsertInto;
    InsertCorrect(x, e);
    if x.Rooted? {
      var d, t := x.depth, x.top;
      InsertRejects(d, t, e);
      if InsertInto(d, t, e).Rejected? {
        RejectsAlike(d, t, e, words);
      } else {
        AsWrittenExactly(d, t, e, words);
        RootIsWellShaped(d, AsWritten(d, t, e, words));
      }
    }
  }

  // ---------------------------------------------------------------- runs

  /** The index after a run of calls, each with the words that it would read. The run ends at the first index
      that is not sound: of what the code does with that nothing is said here. */
  ghost function RunAsWritten(calls: seq<Call>, words: seq<StrayWords>): Index
    requires Proper(calls) && |words| == |calls|
  {
    if calls == [] then Empty
    else
      var n := |calls| - 1;
      var before := RunAsWritten(calls[..n], words[..n]);
      if !Sound(before) then before
      else
        match calls[n]
        case Ins(e) => InsAsWritten(before, e, words[n]).index
        case Del(k) => Delete(before, k).index
  }

  /** No call of the run strays. */
  ghost predicate Straight(calls: seq<Call>, words: seq<StrayWords>)
    requires Proper(calls) && |words| == |calls|
  {
    calls != [] ==>
      var n := |calls| - 1;
      Straight(calls[..n], words[..n]) && (calls[n].Ins? ==> !Strays(After(calls[..n]), calls[n].e, words[n]))
  }

  /** In every run the code to the letter keeps the index sound, and then does what is meant, if and only if no
      insertion of the run strays. */
  lemma {:induction false} RunsExactly(calls: seq<Call>, words: seq<StrayWords>)
    requires Proper(calls) && |words| == |calls|
    ensures Sound(RunAsWritten(calls, words)) <==> Straight(calls, words)
    ensures Straight(calls, words) ==> RunAsWritten(calls, words) == After(calls)
  {
    hide Sound, InsAsWritten, Strays, Insert, Delete;
    if calls != [] {
      var n := |calls| - 1;
      RunsExactly(calls[..n], words[..n]);
      match calls[n]
      case Ins(e) => InsertExactly(After(calls[..n]), e, words[n]);
      case Del(k) => DeleteCorrect(After(calls[..n]), k);
    } else {
      EmptyIsSound();
    }
  }

  lemma EmptyIsSound()
    ensures Sound(Empty)
  {
  }
}

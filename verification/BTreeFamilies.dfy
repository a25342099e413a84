/** How the footprint of a page divides over its children: the pages that the children own are parts of
    it that share nothing, and shifting, cutting or joining the children does the same to the parts. */
module BTreeFamilies {
  import opened Sequences
  import opened IndexTree
  import opened BTreePages

  /** The part of R that the pages in slots lo to hi use. */
  ghost function Part(ss: seq<Slot>, lo: nat, hi: nat, R: set<object>): set<object>
    requires lo <= hi <= |ss|
    requires forall i :: 0 <= i < |ss| && ss[i].Sub? ==> ss[i].p in R
    reads R
  {
    set o | o in R && exists i :: lo <= i < hi && ss[i].Sub? && o in ss[i].p.Repr
  }

  lemma FamilyJoin(leaf: bool, ss: seq<Slot>, kids: seq<Tree>, R: set<object>,
                   ss': seq<Slot>, kids': seq<Tree>, R': set<object>)
    requires Family(leaf, ss, kids, R) && Family(leaf, ss', kids', R') && R !! R'
    ensures Family(leaf, ss + ss', kids + kids', R + R')
  {
    var s, k := ss + ss', kids + kids';
    forall i | 0 <= i < |s| ensures Fits(leaf, s[i], k[i], R + R') {
      if i < |ss| {
        assert Fits(leaf, ss[i], kids[i], R);
      } else {
        assert Fits(leaf, ss'[i - |ss|], kids'[i - |ss|], R');
      }
    }
    forall i, j | 0 <= i < j < |s| ensures Apart(s[i], s[j], R + R') {
      if j < |ss| {
        assert Apart(ss[i], ss[j], R);
      } else if i >= |ss| {
        assert Apart(ss'[i - |ss|], ss'[j - |ss|], R');
      } else {
        assert Fits(leaf, ss[i], kids[i], R) && Fits(leaf, ss'[j - |ss|], kids'[j - |ss|], R');
      }
    }
  }

  lemma AllWithin(leaf: bool, ss: seq<Slot>, kids: seq<Tree>, R: set<object>)
    requires Family(leaf, ss, kids, R)
    ensures forall i :: 0 <= i < |ss| && ss[i].Sub? ==> ss[i].p in R && ss[i].p in ss[i].p.Repr && ss[i].p.Repr <= R
  {
    forall i | 0 <= i < |ss| && ss[i].Sub? ensures ss[i].p in R && ss[i].p in ss[i].p.Repr && ss[i].p.Repr <= R {
      assert Fits(leaf, ss[i], kids[i], R);
    }
  }

  lemma FamilyPart(leaf: bool, ss: seq<Slot>, kids: seq<Tree>, R: set<object>, lo: nat, hi: nat)
    requires Family(leaf, ss, kids, R) && lo <= hi <= |ss|
    requires forall i :: 0 <= i < |ss| && ss[i].Sub? ==> ss[i].p in R
    ensures Part(ss, lo, hi, R) <= R && Family(leaf, ss[lo..hi], kids[lo..hi], Part(ss, lo, hi, R))
  {
    var s, k, P := ss[lo..hi], kids[lo..hi], Part(ss, lo, hi, R);
    forall i | 0 <= i < |s| ensures Fits(leaf, s[i], k[i], P) {
      assert Fits(leaf, ss[lo + i], kids[lo + i], R);
      if s[i].Sub? {
        WithinPart(ss, lo, hi, R, lo + i);
      }
    }
    forall i, j | 0 <= i < j < |s| ensures Apart(s[i], s[j], P) {
      assert Fits(leaf, s[i], k[i], P) && Fits(leaf, s[j], k[j], P);
      assert Apart(ss[lo + i], ss[lo + j], R);
    }
  }

  lemma WithinPart(ss: seq<Slot>, lo: nat, hi: nat, R: set<object>, i: nat)
    requires lo <= i < hi <= |ss|
    requires forall i :: 0 <= i < |ss| && ss[i].Sub? ==> ss[i].p in R
    requires ss[i].Sub? && ss[i].p.Repr <= R
    ensures ss[i].p.Repr <= Part(ss, lo, hi, R)
  {
  }

  lemma PartsApart(leaf: bool, ss: seq<Slot>, kids: seq<Tree>, R: set<object>, n: nat)
    requires Family(leaf, ss, kids, R) && n <= |ss|
    requires forall i :: 0 <= i < |ss| && ss[i].Sub? ==> ss[i].p in R
    ensures Part(ss, 0, n, R) !! Part(ss, n, |ss|, R)
  {
    forall o | o in Part(ss, 0, n, R) ensures o !in Part(ss, n, |ss|, R) {
      var i :| 0 <= i < n && ss[i].Sub? && o in ss[i].p.Repr;
      forall j | n <= j < |ss| && ss[j].Sub? ensures o !in ss[j].p.Repr {
        assert Apart(ss[i], ss[j], R);
      }
    }
  }

  /** A family cut in two uses two disjoint parts of the footprint. */
  lemma FamilySplit(leaf: bool, ss: seq<Slot>, kids: seq<Tree>, R: set<object>, n: nat)
    returns (A: set<object>, B: set<object>)
    requires Family(leaf, ss, kids, R) && n <= |ss|
    ensures A !! B && A <= R && B <= R
    ensures Family(leaf, ss[..n], kids[..n], A) && Family(leaf, ss[n..], kids[n..], B)
  {
    AllWithin(leaf, ss, kids, R);
    FamilyPart(leaf, ss, kids, R, 0, n);
    FamilyPart(leaf, ss, kids, R, n, |ss|);
    PartsApart(leaf, ss, kids, R, n);
    A, B := Part(ss, 0, n, R), Part(ss, n, |ss|, R);
    hide Family, Part;
    assert ss[0..n] == ss[..n] && kids[0..n] == kids[..n] && ss[n..|ss|] == ss[n..] && kids[n..|ss|] == kids[n..];
  }

  lemma FamilyOne(leaf: bool, s: Slot, t: Tree, R: set<object>)
    requires Fits(leaf, s, t, R)
    ensures Family(leaf, [s], [t], R)
  {
  }

  lemma FamilyInsert(leaf: bool, ss: seq<Slot>, kids: seq<Tree>, R: set<object>, i: nat, s: Slot, t: Tree,
      R': set<object>)
    requires Family(leaf, ss, kids, R) && Fits(leaf, s, t, R') && R !! R' && i <= |ss|
    ensures Family(leaf, InsertedAt(ss, i, s), InsertedAt(kids, i, t), R + R')
  {
    var A, B := FamilySplit(leaf, ss, kids, R, i);
    FamilyOne(leaf, s, t, R');
    FamilyJoin(leaf, ss[..i], kids[..i], A, [s], [t], R');
    FamilyJoin(leaf, ss[..i] + [s], kids[..i] + [t], A + R', ss[i..], kids[i..], B);
    FamilyWiden(leaf, InsertedAt(ss, i, s), InsertedAt(kids, i, t), A + R' + B, R + R');
  }

  lemma FamilyWiden(leaf: bool, ss: seq<Slot>, kids: seq<Tree>, R: set<object>, R': set<object>)
    requires Family(leaf, ss, kids, R) && R <= R'
    ensures Family(leaf, ss, kids, R')
  {
    forall i | 0 <= i < |ss| ensures Fits(leaf, ss[i], kids[i], R') {
      assert Fits(leaf, ss[i], kids[i], R);
    }
    forall i, j | 0 <= i < j < |ss| ensures Apart(ss[i], ss[j], R') {
      assert Apart(ss[i], ss[j], R);
    }
  }

  /** One child with its own footprint, and the others with the rest. */
  lemma FamilyOut(leaf: bool, ss: seq<Slot>, kids: seq<Tree>, R: set<object>, i: nat)
    returns (A: set<object>, B: set<object>)
    requires Family(leaf, ss, kids, R) && i < |ss|
    ensures A !! B && A <= R && B <= R && (ss[i].Sub? ==> A == ss[i].p.Repr)
    ensures Fits(leaf, ss[i], kids[i], A) && Family(leaf, RemovedAt(ss, i), RemovedAt(kids, i), B)
  {
    assert Fits(leaf, ss[i], kids[i], R);
    var P, Q := FamilySplit(leaf, ss, kids, R, i);
    var S, T := FamilySplit(leaf, ss[i..], kids[i..], Q, 1);
    assert ss[i..][1..] == ss[i + 1..] && kids[i..][1..] == kids[i + 1..] && ss[i..][..1] == [ss[i]] &&
           kids[i..][..1] == [kids[i]];
    assert Fits(leaf, [ss[i]][0], [kids[i]][0], S);
    FamilyJoin(leaf, ss[..i], kids[..i], P, ss[i + 1..], kids[i + 1..], T);
    A, B := if ss[i].Sub? then ss[i].p.Repr else S, P + T;
  }

  /** The inverse: a child that may have changed goes back among the others. */
  lemma FamilyIn(leaf: bool, ss: seq<Slot>, kids: seq<Tree>, B: set<object>, i: nat, t: Tree, A: set<object>)
    requires i < |ss| && |kids| == |ss| && A !! B
    requires Family(leaf, RemovedAt(ss, i), RemovedAt(kids, i), B) && Fits(leaf, ss[i], t, A)
    ensures Family(leaf, ss, kids[i := t], B + A)
  {
    FamilyInsert(leaf, RemovedAt(ss, i), RemovedAt(kids, i), B, i, ss[i], t, A);
    PutBack(ss, i, ss[i]);
    PutBack(kids, i, t);
  }

  lemma PutBack<T>(s: seq<T>, i: nat, x: T)
    requires i < |s|
    ensures InsertedAt(RemovedAt(s, i), i, x) == s[i := x]
  {
    assert RemovedAt(s, i)[..i] == s[..i] && RemovedAt(s, i)[i..] == s[i + 1..];
  }

  lemma FamilyRemove(leaf: bool, ss: seq<Slot>, kids: seq<Tree>, R: set<object>, i: nat)
    requires Family(leaf, ss, kids, R) && i < |ss|
    ensures Family(leaf, RemovedAt(ss, i), RemovedAt(kids, i), R)
  {
    var A, B := FamilyOut(leaf, ss, kids, R, i);
    FamilyWiden(leaf, RemovedAt(ss, i), RemovedAt(kids, i), B, R);
  }
}

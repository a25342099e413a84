/** BTDeletePage, BTCollapse, BTRedistribute and BTDelete of kernel/lib/klibc/btree.c on heap pages. */
module BTreeDelete {
  import opened Extents
  import opened Sequences
  import opened IndexTree
  import opened IndexInsert
  import opened IndexDelete
  import opened BTreePages
  import opened BTreeFamilies
  import opened BTreeInsert

  /** The page movement of BTDeletePage, and what it does to the family of children. */
  method DropEntry(p: Page, idx: int, ghost kids: seq<Tree>, ghost F: set<object>)
    requires p.InRange() && p.count >= 0 && -1 <= idx
    requires (p.count == 0 ==> idx == -1) && (p.count > 0 ==> idx < p.count)
    requires Family(p.isleaf, p.Slots(), kids, F) && F !! p.Own()
    modifies p`count, p.key, p.child
    ensures p.InRange() && p.count == old(p.count) - 1
    ensures |kids| == p.count + 2
    ensures p.Keys() == if p.count < 0 then [] else RemovedAt(old(p.Keys()), if idx < 0 then 0 else idx)
    ensures Family(p.isleaf, p.Slots(), RemovedAt(kids, idx + 1), F)
  {
    FamilyRemove(p.isleaf, p.Slots(), kids, F, idx + 1);
    hide RemovedAt, Family, Fits;
    p.ShiftOut(idx);
  }

  /** BTDeletePage. */
  method BTDeletePage(p: Page, idx: int) returns (retval: Status)
    requires p.Valid() && p.count >= 0 && -1 <= idx
    requires (p.count == 0 ==> idx == -1) && (p.count > 0 ==> idx < p.count)
    requires |p.tree.keys| == p.count && |p.tree.kids| == p.count + 1
    modifies p, p.key, p.child
    ensures p.Valid() && p.isleaf == old(p.isleaf) && p.Repr == old(p.Repr)
    ensures p.tree == WithoutEntry(old(p.tree.keys), old(p.tree.kids), idx)
    ensures retval == if p.count < BT_MINKEY then BT_LESS_THAN_MIN else BT_OK
    ensures p.count == old(p.count) - 1
  {
    Unpack(p);
    ghost var keys, kids, F := p.Keys(), p.tree.kids, p.Repr - p.Own();
    hide RemovedAt, Family, Fits, Page.Valid;
    DropEntry(p, idx, kids, F);
    EmptyAfter(kids);
    Seat(p, p.Keys(), RemovedAt(kids, idx + 1), F);
    retval := if p.count < BT_MINKEY then BT_LESS_THAN_MIN else BT_OK;
  }

  lemma EmptyAfter(kids: seq<Tree>)
    ensures |kids| == 1 ==> RemovedAt(kids, 0) == []
  {
  }

  /** Two pages that share nothing. */
  ghost predicate TwoPages(l: Page, r: Page)
    reads l, r
  {
    l.Repr !! r.Repr
  }

  lemma DistinctPages(l: Page, r: Page)
    requires l.Valid() && r.Valid() && TwoPages(l, r)
    ensures Separate(l, r) && l.Own() !! r.Repr && r.Own() !! l.Repr
    ensures (l.Repr - l.Own()) !! (r.Repr - r.Own()) && (l.Repr - l.Own()) !! r.Own() && (r.Repr - r.Own()) !! l.Own()
  {
  }

  /** The page movement of BTCollapse. */
  method Merge(l: Page, r: Page, kmed: Key, ghost lk: seq<Tree>, ghost L: set<object>, ghost rk: seq<Tree>,
      ghost R: set<object>)
    requires l.InRange() && r.InRange() && l.count >= 0 && r.count >= 0 && Separate(l, r)
    requires l.count + r.count + 1 <= BT_MAXKEY && l.isleaf == r.isleaf
    requires Family(l.isleaf, l.Slots(), lk, L) && L !! l.Own()
    requires Family(r.isleaf, r.Slots(), rk, R) && R !! l.Own() && L !! R
    modifies l`count, l.key, l.child
    ensures l.InRange() && l.count == old(l.count) + r.count + 1
    ensures l.Keys() == old(l.Keys()) + [kmed] + r.Keys()
    ensures Family(l.isleaf, l.Slots(), lk + rk, L + R)
  {
    FamilyJoin(l.isleaf, l.Slots(), lk, L, r.Slots(), rk, R);
    hide Family, Fits;
    Append(l, r, kmed);
  }

  /** BTCollapse. Giving the right page back to the pool leaves an empty page here. */
  method BTCollapse(l: Page, r: Page, ghost d: nat)
    requires l.Valid() && r.Valid() && TwoPages(l, r) && l.isleaf == r.isleaf
    requires l.count >= 0 && r.count >= 0 && l.count + r.count + 1 <= BT_MAXKEY
    requires d > 0 && Shape(d, r.tree)
    modifies l, l.key, l.child, r
    ensures l.Valid() && r.Valid() && TwoPages(l, r) && l.isleaf == old(l.isleaf) && r.isleaf == old(r.isleaf)
    ensures l.tree == Join(old(l.tree), old(r.tree)) && r.tree == Page([], [])
    ensures l.Repr + r.Repr == old(l.Repr + r.Repr)
  {
    hide Family, Fits, Page.Valid, Shape, Least;
    Unpack(l);
    Unpack(r);
    DistinctPages(l, r);
    var kmed := GetLeastKey(r, d);
    ghost var lt, rt, L, R := l.tree, r.tree, l.Repr - l.Own(), r.Repr - r.Own();
    CollapsedFootprint(l.Repr, l.Own(), r.Repr, r.Own());
    Merge(l, r, kmed, lt.kids, L, rt.kids, R);
    Seat(l, lt.keys + [kmed] + rt.keys, lt.kids + rt.kids, L + R);
    r.count := -1;
    EmptyFamily(r);
    Seat(r, [], [], {});
  }

  lemma CollapsedFootprint(lr: set<object>, lo: set<object>, rr: set<object>, ro: set<object>)
    requires lo <= lr && ro <= rr && lr !! rr
    ensures (lo + ((lr - lo) + (rr - ro))) + (ro + {}) == lr + rr
    ensures (lo + ((lr - lo) + (rr - ro))) !! (ro + {})
    ensures ((lr - lo) + (rr - ro)) !! lo
  {
  }

  lemma EmptyFamily(r: Page)
    requires r.InRange() && r.count == -1
    ensures Family(r.isleaf, r.Slots(), [], {}) && r.Keys() == []
  {
  }

  /** Two pages whose children, laid end to end, will be cut after n keys into families on the
      footprints A and B. */
  ghost predicate Cuttable(l: Page, r: Page, n: nat, kids: seq<Tree>, A: set<object>, B: set<object>)
    reads l, r, l.child, r.child, A, B
  {
    && l.InRange() && r.InRange() && l.count >= 0 && r.count >= 0 && Separate(l, r)
    && l.count + r.count < 2 * BT_MAXKEY && l.count != n == (l.count + r.count) / 2
    && n + 1 <= |kids| && A !! l.Own() + r.Own() && B !! l.Own() + r.Own()
    && n + 1 <= |Paired(l.Slots(), r.Slots())|
    && Family(l.isleaf, Paired(l.Slots(), r.Slots())[..n + 1], kids[..n + 1], A)
    && Family(r.isleaf, Paired(l.Slots(), r.Slots())[n + 1..], kids[n + 1..], B)
  }

  /** The page movement of BTRedistribute, and what it does to the family of children, which is cut
      into A and B at the place where the pages will be cut. */
  method Even(l: Page, r: Page, kmed: Key, ghost n: nat, ghost kids: seq<Tree>, ghost A: set<object>,
      ghost B: set<object>)
    returns (kmedian: Key)
    requires Cuttable(l, r, n, kids, A, B)
    modifies l`count, l.key, l.child, r`count, r.key, r.child
    ensures old(l.InRange()) && old(r.InRange()) && n + 1 <= |kids|
    ensures l.InRange() && r.InRange() && l.count == n && r.count == old(l.count + r.count) - n
    ensures n < |Laid(old(l.Keys()), kmed, old(r.Keys()))|
    ensures l.Keys() == Laid(old(l.Keys()), kmed, old(r.Keys()))[..n]
    ensures kmedian == Laid(old(l.Keys()), kmed, old(r.Keys()))[n]
    ensures r.Keys() == Laid(old(l.Keys()), kmed, old(r.Keys()))[n + 1..]
    ensures Family(l.isleaf, l.Slots(), kids[..n + 1], A) && Family(r.isleaf, r.Slots(), kids[n + 1..], B)
  {
    ghost var ks, lc, ms, rc := l.Keys(), l.Slots(), r.Keys(), r.Slots();
    hide Family, Fits, Laid, Paired, Recut;
    kmedian := Rearrange(l, r, kmed);
    RecutParts(ks, lc, kmed, ms, rc, n, l.Keys(), l.Slots(), kmedian, r.Keys(), r.Slots());
  }

  lemma RecutParts(lk: seq<Key>, lc: seq<Slot>, m: Key, rk: seq<Key>, rc: seq<Slot>, half: nat,
                   lk': seq<Key>, lc': seq<Slot>, m': Key, rk': seq<Key>, rc': seq<Slot>)
    requires Recut(lk, lc, m, rk, rc, half, lk', lc', m', rk', rc')
    ensures half < |Laid(lk, m, rk)| && half + 1 <= |Paired(lc, rc)|
    ensures lk' == Laid(lk, m, rk)[..half] && m' == Laid(lk, m, rk)[half] && rk' == Laid(lk, m, rk)[half + 1..]
    ensures lc' == Paired(lc, rc)[..half + 1] && rc' == Paired(lc, rc)[half + 1..]
  {
  }

  /** BTRedistribute. */
  method BTRedistribute(l: Page, r: Page, ghost d: nat) returns (kmedian: Key)
    requires l.Valid() && r.Valid() && TwoPages(l, r) && l.isleaf == r.isleaf
    requires l.count >= 0 && r.count >= 0 && l.count + r.count < 2 * BT_MAXKEY && l.count != (l.count + r.count) / 2
    requires d > 0 && Shape(d, r.tree) && |l.tree.keys| == l.count && |r.tree.keys| == r.count
    requires |l.tree.kids| == l.count + 1 && |r.tree.kids| == r.count + 1
    modifies l, l.key, l.child, r, r.key, r.child
    ensures l.Valid() && r.Valid() && TwoPages(l, r) && l.isleaf == old(l.isleaf) && r.isleaf == old(r.isleaf)
    ensures var j, half := Join(old(l.tree), old(r.tree)), Half(old(l.tree), old(r.tree));
            && half < |j.keys|
            && l.tree == TakeKeys(j, half) && r.tree == DropKeys(j, half) && kmedian == j.keys[half]
    ensures l.Repr + r.Repr <= old(l.Repr + r.Repr)
  {
    hide Family, Fits, Page.Valid, Shape, Least, Laid, Paired, Cuttable;
    Unpack(l);
    Unpack(r);
    var kmed := GetLeastKey(r, d);
    ghost var n, kids := Half(l.tree, r.tree), Paired(l.tree.kids, r.tree.kids);
    ghost var A, B := Pieces(l, r, n);
    kmedian := EvenAndSeat(l, r, kmed, n, kids, A, B);
  }

  /** The page movement, after which both pages are recorded as what they now represent. */
  method EvenAndSeat(l: Page, r: Page, kmed: Key, ghost n: nat, ghost kids: seq<Tree>, ghost A: set<object>,
      ghost B: set<object>)
    returns (kmedian: Key)
    requires Cuttable(l, r, n, kids, A, B)
    modifies l, l.key, l.child, r, r.key, r.child
    ensures old(l.InRange()) && old(r.InRange()) && n + 1 <= |kids|
    ensures l.Valid() && r.Valid() && l.isleaf == old(l.isleaf) && r.isleaf == old(r.isleaf)
    ensures n < |Laid(old(l.Keys()), kmed, old(r.Keys()))|
    ensures l.tree == Page(Laid(old(l.Keys()), kmed, old(r.Keys()))[..n], kids[..n + 1])
    ensures kmedian == Laid(old(l.Keys()), kmed, old(r.Keys()))[n]
    ensures r.tree == Page(Laid(old(l.Keys()), kmed, old(r.Keys()))[n + 1..], kids[n + 1..])
    ensures l.Repr == l.Own() + A && r.Repr == r.Own() + B
  {
    hide Family, Fits, Laid, Paired, Page.Valid;
    kmedian := Even(l, r, kmed, n, kids, A, B);
    Seat(l, l.Keys(), kids[..n + 1], A);
    Seat(r, r.Keys(), kids[n + 1..], B);
  }

  /** The children of two pages end to end, cut after half of the keys, and the footprints of the
      two parts. */
  lemma Pieces(l: Page, r: Page, n: nat) returns (A: set<object>, B: set<object>)
    requires l.Valid() && r.Valid() && TwoPages(l, r) && l.isleaf == r.isleaf
    requires l.count >= 0 && r.count >= 0
    requires l.count + r.count < 2 * BT_MAXKEY && l.count != n == (l.count + r.count) / 2
    ensures Cuttable(l, r, n, Paired(l.tree.kids, r.tree.kids), A, B)
    ensures (l.Own() + A) !! (r.Own() + B) && (l.Own() + A) + (r.Own() + B) <= l.Repr + r.Repr
  {
    hide Family, Fits, Page.Valid;
    Unpack(l);
    Unpack(r);
    DistinctPages(l, r);
    var L, R := l.Repr - l.Own(), r.Repr - r.Own();
    FamilyJoin(l.isleaf, l.Slots(), l.tree.kids, L, r.Slots(), r.tree.kids, R);
    A, B := FamilySplit(l.isleaf, Paired(l.Slots(), r.Slots()), Paired(l.tree.kids, r.tree.kids), L + R, n + 1);
    EvenFootprint(l.Repr, l.Own(), r.Repr, r.Own(), A, B);
  }

  lemma EvenFootprint(lr: set<object>, lo: set<object>, rr: set<object>, ro: set<object>, A: set<object>,
      B: set<object>)
    requires lo <= lr && ro <= rr && lr !! rr && A !! B
    requires A <= (lr - lo) + (rr - ro) && B <= (lr - lo) + (rr - ro)
    ensures (lo + A) !! (ro + B) && (lo + A) + (ro + B) <= lr + rr && A !! lo + ro && B !! lo + ro
  {
  }

  // ---------------------------------------------------------------- serving a child that became too small

  /** What the page's children a and a + 1 are, and the family of the others on the footprint B. */
  ghost predicate PairOut(p: Page, a: nat, kids: seq<Tree>, B: set<object>)
    reads p, p.child, p.Repr
  {
    && p.InRange() && !p.isleaf && a + 1 <= p.count && |kids| == p.count + 1
    && p.Own() <= p.Repr && B <= p.Repr - p.Own()
    && p.child[a].Sub? && p.child[a + 1].Sub?
    && p.child[a].p in p.Repr && p.child[a].p.Repr <= p.Repr - p.Own()
    && p.child[a + 1].p in p.Repr && p.child[a + 1].p.Repr <= p.Repr - p.Own()
    && p.child[a].p.Repr !! B && p.child[a + 1].p.Repr !! B
    && Family(false, RemovedAt(RemovedAt(p.Slots(), a), a), RemovedAt(RemovedAt(kids, a), a), B)
  }

  lemma ChildPair(p: Page, a: nat) returns (B: set<object>)
    requires p.Valid() && !p.isleaf && a + 1 <= p.count
    ensures PairOut(p, a, p.tree.kids, B)
    ensures p.child[a].p.Valid() && p.child[a].p.tree == p.tree.kids[a]
    ensures p.child[a + 1].p.Valid() && p.child[a + 1].p.tree == p.tree.kids[a + 1]
    ensures TwoPages(p.child[a].p, p.child[a + 1].p)
  {
    Unpack(p);
    ChildFits(p, a);
    ChildFits(p, a + 1);
    var A, C := FamilyOut(false, p.Slots(), p.tree.kids, p.Repr - p.Own(), a);
    var A', C' := FamilyOut(false, RemovedAt(p.Slots(), a), RemovedAt(p.tree.kids, a), C, a);
    assert RemovedAt(p.Slots(), a)[a] == p.Slots()[a + 1] == p.child[a + 1];
    B := C';
  }

  /** The page's children a and a + 1 may have changed; they and the others still use disjoint parts
      of the footprint S. */
  ghost predicate PairIn(p: Page, a: nat, kids: seq<Tree>, B: set<object>, S: set<object>)
    reads p, p.child, B, if a + 1 < p.child.Length && p.child[a].Sub? then {p.child[a].p} + p.child[a].p.Repr else {},
          if a + 1 < p.child.Length && p.child[a + 1].Sub? then {p.child[a + 1].p} + p.child[a + 1].p.Repr else {}
  {
    && p.InRange() && !p.isleaf && a + 1 <= p.count && |kids| == p.count + 1
    && p.child[a].Sub? && p.child[a].p.Valid() && p.child[a + 1].Sub? && p.child[a + 1].p.Valid()
    && TwoPages(p.child[a].p, p.child[a + 1].p)
    && p.child[a].p.Repr !! B && p.child[a + 1].p.Repr !! B
    && S !! p.Own() && B <= S && p.child[a].p.Repr <= S && p.child[a + 1].p.Repr <= S
    && Family(false, RemovedAt(RemovedAt(p.Slots(), a), a), RemovedAt(RemovedAt(kids, a), a), B)
  }

  /** Record in the page what its children a and a + 1 now represent. */
  ghost method ReseatPair(p: Page, a: nat, kids: seq<Tree>, B: set<object>, S: set<object>)
    requires PairIn(p, a, kids, B, S)
    modifies p`tree, p`Repr
    ensures p.Valid()
    ensures p.tree == Page(p.Keys(), kids[a := old(p.child[a].p.tree)][a + 1 := old(p.child[a + 1].p.tree)])
    ensures p.Repr <= p.Own() + S
  {
    var l, r := p.child[a].p, p.child[a + 1].p;
    var ss, ks := RemovedAt(p.Slots(), a), RemovedAt(kids, a);
    assert ss[a] == p.Slots()[a + 1] == p.child[a + 1];
    FamilyIn(false, ss, ks, B, a, r.tree, r.Repr);
    assert ks[a := r.tree] == RemovedAt(kids[a + 1 := r.tree], a);
    FamilyIn(false, p.Slots(), kids[a + 1 := r.tree], B + r.Repr, a, l.tree, l.Repr);
    assert kids[a + 1 := r.tree][a := l.tree] == kids[a := l.tree][a + 1 := r.tree];
    Seat(p, p.Keys(), kids[a := l.tree][a + 1 := r.tree], B + r.Repr + l.Repr);
  }

  /** Children a and a + 1 of a page are one level of the tree. */
  ghost predicate PairShape(d: nat, l: Tree, r: Tree) {
    && d > 0 && Shape(d, l) && Shape(d, r) && Paged(l) && Paged(r)
  }

  lemma PairParts(l: Tree, r: Tree, d: nat)
    requires PairShape(d, l, r)
    ensures d > 0 && Shape(d, l) && Shape(d, r) && l.Page? && r.Page?
  {
  }

  lemma PairOfPages(l: Page, r: Page, d: nat)
    requires l.Valid() && r.Valid() && PairShape(d, l.tree, r.tree)
    ensures l.isleaf == r.isleaf && l.count >= 0 && r.count >= 0
    ensures |l.tree.keys| == l.count && |l.tree.kids| == l.count + 1
    ensures |r.tree.keys| == r.count && |r.tree.kids| == r.count + 1
  {
    LeafIsBottom(l, d);
    LeafIsBottom(r, d);
    Unpack(l);
    Unpack(r);
  }

  /** The children a and a + 1 of the page are taken out and represent the trees in kids. */
  ghost predicate PairReady(p: Page, a: nat, kids: seq<Tree>, B: set<object>, d: nat)
    reads p, p.child, p.Repr
  {
    && PairOut(p, a, kids, B) && PairShape(d, kids[a], kids[a + 1])
    && p.child[a].p.Valid() && p.child[a].p.tree == kids[a]
    && p.child[a + 1].p.Valid() && p.child[a + 1].p.tree == kids[a + 1]
    && TwoPages(p.child[a].p, p.child[a + 1].p)
  }

  /** BTRedistribute on the children a and a + 1. */
  method EvenPair(p: Page, a: nat, ghost d: nat, ghost kids: seq<Tree>, ghost B: set<object>) returns (med: Key)
    requires PairReady(p, a, kids, B, d)
    requires |kids[a].keys| + |kids[a + 1].keys| < 2 * BT_MAXKEY && |kids[a].keys| != Half(kids[a], kids[a + 1])
    modifies p.Repr - p.Own()
    ensures PairIn(p, a, kids, B, p.Repr - p.Own())
    ensures var j, half := Join(kids[a], kids[a + 1]), Half(kids[a], kids[a + 1]);
            && half < |j.keys| && med == j.keys[half]
            && p.child[a].p.tree == TakeKeys(j, half) && p.child[a + 1].p.tree == DropKeys(j, half)
  {
    hide Family, Fits, Shape, Page.Valid, RemovedAt, Join, TakeKeys, DropKeys, PairShape;
    var l, r := p.child[a].p, p.child[a + 1].p;
    PairParts(kids[a], kids[a + 1], d);
    PairOfPages(l, r, d);
    med := BTRedistribute(l, r, d);
  }

  /** The same, and the new separator between them. */
  method EvenChildren(p: Page, a: nat, ghost d: nat, ghost kids: seq<Tree>, ghost B: set<object>)
    requires PairReady(p, a, kids, B, d)
    requires |kids[a].keys| + |kids[a + 1].keys| < 2 * BT_MAXKEY && |kids[a].keys| != Half(kids[a], kids[a + 1])
    modifies p.Repr
    ensures PairIn(p, a, kids, B, old(p.Repr) - p.Own())
    ensures p.count == old(p.count) && p.isleaf == old(p.isleaf) && old(p.InRange())
    ensures var j, half := Join(kids[a], kids[a + 1]), Half(kids[a], kids[a + 1]);
            && half < |j.keys| && |p.Keys()| == p.count
            && p.Keys() == old(p.Keys())[a := j.keys[half]]
            && p.child[a].p.tree == TakeKeys(j, half) && p.child[a + 1].p.tree == DropKeys(j, half)
  {
    hide Family, Fits, Shape, Page.Valid, RemovedAt, Join, TakeKeys, DropKeys, PairShape;
    p.key[a] := EvenPair(p, a, d, kids, B);
  }

  /** The redistribution step of BTDelete between the children a and a + 1. */
  method BalanceAt(p: Page, a: nat, ghost d: nat)
    requires p.Valid() && !p.isleaf && a < p.count && |p.tree.keys| == p.count && AllPages(p.tree.kids)
    requires |p.tree.kids| == p.count + 1 && PairShape(d, p.tree.kids[a], p.tree.kids[a + 1])
    requires |p.tree.kids[a].keys| + |p.tree.kids[a + 1].keys| < 2 * BT_MAXKEY
    requires |p.tree.kids[a].keys| != Half(p.tree.kids[a], p.tree.kids[a + 1])
    modifies p.Repr
    ensures p.Valid() && p.isleaf == old(p.isleaf) && p.Repr <= old(p.Repr) && p.count == old(p.count)
    ensures p.tree == Balanced(old(p.tree.keys), old(p.tree.kids), a)
  {
    Unpack(p);
    ghost var kids, S := p.tree.kids, p.Repr - p.Own();
    ghost var B := ChildPair(p, a);
    hide Family, Fits, Shape, Page.Valid, RemovedAt, Join, AllPages, PairIn, PairOut, PairShape;
    EvenChildren(p, a, d, kids, B);
    ReseatPair(p, a, kids, B, S);
  }

  /** BTCollapse on the children a and a + 1. */
  method MergeChildren(p: Page, a: nat, ghost d: nat, ghost kids: seq<Tree>, ghost B: set<object>)
    requires PairReady(p, a, kids, B, d)
    requires |kids[a].keys| + |kids[a + 1].keys| + 1 <= BT_MAXKEY
    modifies p.Repr - p.Own()
    ensures PairIn(p, a, kids, B, p.Repr - p.Own())
    ensures p.child[a].p.tree == Join(kids[a], kids[a + 1]) && p.child[a + 1].p.tree == Page([], [])
  {
    hide Family, Fits, Shape, Page.Valid, RemovedAt, Join, PairShape;
    var l, r := p.child[a].p, p.child[a + 1].p;
    PairParts(kids[a], kids[a + 1], d);
    PairOfPages(l, r, d);
    BTCollapse(l, r, d);
  }

  /** The collapse step of BTDelete: child a + 1 is merged into child a, and its entry dropped. */
  method CollapseAt(p: Page, a: nat, ghost d: nat) returns (retval: Status)
    requires p.Valid() && !p.isleaf && a < p.count && |p.tree.keys| == p.count && AllPages(p.tree.kids)
    requires |p.tree.kids| == p.count + 1 && PairShape(d, p.tree.kids[a], p.tree.kids[a + 1])
    requires |p.tree.kids[a].keys| + |p.tree.kids[a + 1].keys| + 1 <= BT_MAXKEY
    modifies p.Repr
    ensures p.Valid() && p.isleaf == old(p.isleaf) && p.Repr <= old(p.Repr) && p.count == old(p.count) - 1
    ensures p.tree == Collapsed(old(p.tree.keys), old(p.tree.kids), a)
    ensures retval == if p.count < BT_MINKEY then BT_LESS_THAN_MIN else BT_OK
  {
    Unpack(p);
    ghost var keys, kids, S := p.tree.keys, p.tree.kids, p.Repr - p.Own();
    ghost var B := ChildPair(p, a);
    DroppedKid(kids, a, Join(kids[a], kids[a + 1]));
    hide Family, Fits, Shape, Page.Valid, RemovedAt, Join, AllPages, PairIn, PairOut, PairShape;
    MergeChildren(p, a, d, kids, B);
    ReseatPair(p, a, kids, B, S);
    retval := BTDeletePage(p, a);
  }

  lemma DroppedKid(kids: seq<Tree>, a: nat, j: Tree)
    requires a + 1 < |kids|
    ensures RemovedAt(kids[a := j][a + 1 := Page([], [])], a + 1) == RemovedAt(kids[a := j], a + 1)
  {
  }

  // ---------------------------------------------------------------- the recursion

  /** The return values and page trees of BTDelete say what the result of a deletion says. The page
      is reported as too small when it is, except that redistribution below says nothing about it. */
  ghost predicate Tells(r: DeleteResult, before: Tree, retval: Status, after: Tree, obj: seq<Extent>) {
    match r
    case Missing => retval == BT_NOT_FOUND && after == before
    case Removed(t, e) =>
      && obj == [e] && after == t && before.Page? && after.Page?
      && (retval == BT_OK || retval == BT_LESS_THAN_MIN)
      && (retval == BT_LESS_THAN_MIN ==> |after.kids| <= BT_MINKEY)
      && (retval == BT_OK ==> |after.kids| > BT_MINKEY || |after.kids| == |before.kids|)
  }

  /** The page's child hi may have changed; it and the others use disjoint parts of the footprint S. */
  ghost predicate OneIn(p: Page, hi: nat, kids: seq<Tree>, B: set<object>, S: set<object>)
    reads p, p.child, B, if hi < p.child.Length && p.child[hi].Sub? then {p.child[hi].p} + p.child[hi].p.Repr else {}
  {
    && p.InRange() && hi <= p.count && |kids| == p.count + 1 && !p.isleaf
    && p.child[hi].Sub? && p.child[hi].p.Valid() && p.child[hi].p.Repr !! B
    && S !! p.Own() && B <= S && p.child[hi].p.Repr <= S
    && Family(false, RemovedAt(p.Slots(), hi), RemovedAt(kids, hi), B)
  }

  /** The separator left of child hi becomes that child's new least key when it was the deleted key. */
  method FixSeparator(p: Page, hi: nat, k: Key, ghost t: Tree, ghost B: set<object>, ghost S: set<object>, ghost d: nat)
    requires t.Page? && OneIn(p, hi, t.kids, B, S) && p.count >= 0 && p.Keys() == t.keys
    requires |t.keys| == p.count
    requires d > 0 && Shape(d, p.child[hi].p.tree)
    modifies p, p.key
    ensures p.Valid() && p.isleaf == old(p.isleaf) && p.count == old(p.count)
    ensures old(p.InRange()) && |t.kids| == |t.keys| + 1 && hi <= |t.keys| && old(p.child[hi].Sub?)
    ensures p.tree == Repaired(t, hi, k, old(p.child[hi].p.tree))
    ensures p.Repr <= p.Own() + S
  {
    var c := p.child[hi].p;
    if hi > 0 && p.key[hi - 1] == k {
      var least := GetLeastKey(c, d);
      p.key[hi - 1] := least;
    }
    hide Family, Fits, Page.Valid, RemovedAt, Shape;
    Reseat(p, hi, t.kids, B);
  }

  lemma OneOut(p: Page, hi: nat) returns (B: set<object>)
    requires p.Valid() && !p.isleaf && hi <= p.count
    ensures OneIn(p, hi, p.tree.kids, B, p.Repr - p.Own())
    ensures p.child[hi].p.tree == p.tree.kids[hi]
  {
    Unpack(p);
    B := ChildPage(p, hi);
  }

  /** The same for a page whose child hi has been served, where the child was full enough before. */
  ghost predicate TellsBelow(r: DeleteResult, before: Tree, hi: nat, k: Key, retval: Status, after: Tree,
      obj: seq<Extent>)
    requires before.Page? && |before.kids| == |before.keys| + 1 && hi <= |before.keys|
  {
    match r
    case Missing => retval == BT_NOT_FOUND && after == before
    case Removed(c, e) =>
      && obj == [e] && after == Repaired(before, hi, k, c) && c.Page?
      && retval == if |c.keys| < BT_MINKEY then BT_LESS_THAN_MIN else BT_OK
  }

  lemma TellsUp(r: DeleteResult, before: Tree, hi: nat, k: Key, retval: Status, c: Tree, obj: seq<Extent>)
    requires before.Page? && |before.kids| == |before.keys| + 1 && hi <= |before.keys|
    requires Tells(r, before.kids[hi], retval, c, obj) && Paged(before.kids[hi]) && |before.kids[hi].keys| >= BT_MINKEY
    requires r.Removed? ==> Paged(r.t)
    ensures retval == BT_NOT_FOUND || retval == BT_OK || retval == BT_LESS_THAN_MIN
    ensures TellsBelow(r, before, hi, k, retval, if retval == BT_NOT_FOUND then before else Repaired(before, hi, k, c),
            obj)
  {
  }

  /** The recursive call of BTDelete, and the repair of the separator next to the child. */
  method DescendDelete(p: Page, k: Key, hi: nat, ghost d: nat) returns (retval: Status, obj: seq<Extent>)
    requires p.Valid() && d > 1 && Deletable(d, p.tree) && Ordered(Contents(p.tree)) && !p.isleaf
    requires hi <= p.count && hi == Rank(p.tree.keys, k)
    modifies p.Repr
    ensures Deletable(d - 1, old(p.tree.kids[hi])) && |old(p.tree.kids)| == |old(p.tree.keys)| + 1
    ensures hi <= |old(p.tree.keys)|
    ensures p.Valid() && p.isleaf == old(p.isleaf) && p.Repr <= old(p.Repr) && p.count == old(p.count)
    ensures TellsBelow(DeleteFrom(d - 1, old(p.tree.kids[hi]), k), old(p.tree), hi, k, retval, p.tree, obj)
    ensures retval == BT_NOT_FOUND ==> unchanged(old(p.Repr))
    decreases d, 0
  {
    ghost var t, S := p.tree, p.Repr - p.Own();
    Unpack(p);
    ChildReady(d, t, k);
    ghost var B := OneOut(p, hi);
    hide Family, Fits, Shape, Contents, Ordered, Page.Valid, Rank, Least, Full, Deletable, DeleteFrom, OneIn;
    retval, obj := DeleteInChild(p, k, hi, d, B, S);
    TellsUp(DeleteFrom(d - 1, t.kids[hi], k), t, hi, k, retval, p.child[hi].p.tree, obj);
    if retval == BT_OK || retval == BT_LESS_THAN_MIN {
      FixSeparator(p, hi, k, t, B, S, d - 1);
    }
  }

  /** The recursive call itself. */
  method DeleteInChild(p: Page, k: Key, hi: nat, ghost d: nat, ghost B: set<object>, ghost S: set<object>)
    returns (retval: Status, obj: seq<Extent>)
    requires p.Valid() && OneIn(p, hi, p.tree.kids, B, S) && S <= p.Repr
    requires d > 1 && p.child[hi].p.tree == p.tree.kids[hi]
    requires Deletable(d - 1, p.tree.kids[hi]) && Ordered(Contents(p.tree.kids[hi]))
    modifies p.child[hi].p.Repr
    ensures p.tree == old(p.tree) && p.Repr == old(p.Repr) && p.count == old(p.count) && p.isleaf == old(p.isleaf)
    ensures OneIn(p, hi, p.tree.kids, B, S) && p.Keys() == old(p.Keys())
    ensures Tells(DeleteFrom(d - 1, p.tree.kids[hi], k), p.tree.kids[hi], retval, p.child[hi].p.tree, obj)
    ensures retval == BT_NOT_FOUND ==> unchanged(old(p.Repr))
    decreases d - 1, 3
  {
    var c := p.child[hi].p;
    hide Family, Fits, Shape, Contents, Ordered, Page.Valid, RemovedAt, Rank, Least, Full, Deletable, DeleteFrom, Tells;
    retval, obj := BTDelete(c, k, d - 1);
  }

  /** What BTDelete needs of the child it descends into, and of what comes back from it. */
  lemma ChildReady(d: nat, t: Tree, k: Key)
    requires d > 1 && Deletable(d, t) && Ordered(Contents(t))
    ensures Rank(t.keys, k) < |t.kids| == |t.keys| + 1
    ensures var c := t.kids[Rank(t.keys, k)];
            && Deletable(d - 1, c) && Ordered(Contents(c)) && Paged(c) && |c.keys| >= BT_MINKEY
            && (DeleteFrom(d - 1, c, k).Removed? ==>
                  Paged(DeleteFrom(d - 1, c, k).t) && Shape(d - 1, DeleteFrom(d - 1, c, k).t))
  {
    RepairedRow(d, t, k);
    ShapeIsRow(d, t);
  }

  /** Number of keys of a child page, which BTDelete compares. */
  lemma ChildCount(p: Page, i: nat)
    requires p.Valid() && !p.isleaf && i <= p.count && |p.tree.kids| == p.count + 1 && Paged(p.tree.kids[i])
    ensures p.child[i].Sub? && p.child[i].p.count == |p.tree.kids[i].keys|
  {
    ChildFits(p, i);
    Unpack(p.child[i].p);
  }

  /** The sibling of child hi that BTDelete turns to. */
  method PickSibling(p: Page, hi: nat) returns (s: nat)
    requires p.Valid() && !p.isleaf && hi <= p.count && p.count >= 1
    requires |p.tree.kids| == p.count + 1 && AllPages(p.tree.kids)
    ensures s == Sibling(p.tree.kids, hi)
  {
    if hi == 0 {
      s := 1;
    } else if hi == p.count {
      s := hi - 1;
    } else {
      ChildCount(p, hi - 1);
      ChildCount(p, hi + 1);
      s := if p.child[hi - 1].p.count > p.child[hi + 1].p.count then hi - 1 else hi + 1;
    }
  }

  /** A row of pages in which child hi is one key short. */
  ghost predicate OneShort(d: nat, t: Tree, hi: nat) {
    && d > 0 && t.Page? && |t.keys| >= 1 && |t.kids| == |t.keys| + 1 && hi <= |t.keys| && AllPages(t.kids)
    && (forall i :: 0 <= i < |t.kids| ==> Shape(d, t.kids[i]))
    && (forall i :: 0 <= i < |t.kids| && i != hi ==> Full(t.kids[i]))
    && |t.kids[hi].keys| == BT_MINKEY - 1
  }

  /** What BTDelete knows about the short child and its sibling. */
  lemma ShortPair(d: nat, t: Tree, hi: nat)
    requires OneShort(d, t, hi)
    ensures d > 0 && t.Page? && |t.keys| >= 1 && |t.kids| == |t.keys| + 1 && hi <= |t.keys| && AllPages(t.kids)
    ensures var s := Sibling(t.kids, hi);
            var a := if s < hi then s else hi;
            && a < |t.keys| && PairShape(d, t.kids[a], t.kids[a + 1])
            && BT_MINKEY <= |t.kids[s].keys| <= BT_MAXKEY
            && |t.kids[a].keys| + |t.kids[a + 1].keys| == BT_MINKEY - 1 + |t.kids[s].keys|
            && (|t.kids[s].keys| > BT_MINKEY ==> |t.kids[a].keys| != Half(t.kids[a], t.kids[a + 1]))
  {
  }

  /** The rebalancing step of BTDelete. */
  method FixChild(p: Page, hi: nat, ghost d: nat) returns (retval: Status)
    requires p.Valid() && !p.isleaf && OneShort(d, p.tree, hi) && |p.tree.keys| == p.count
    modifies p.Repr
    ensures p.Valid() && p.isleaf == old(p.isleaf) && p.Repr <= old(p.Repr)
    ensures p.tree == Rebalance(old(p.tree.keys), old(p.tree.kids), hi)
    ensures retval == BT_OK || retval == BT_LESS_THAN_MIN
    ensures retval == BT_LESS_THAN_MIN ==> p.count < BT_MINKEY
    ensures retval == BT_OK ==> p.count >= BT_MINKEY || p.count == old(p.count)
  {
    hide Family, Fits, Shape, Page.Valid, OneShort, AllPages, Balanced, Collapsed;
    ghost var t := p.tree;
    ShortPair(d, t, hi);
    var s := PickSibling(p, hi);
    var a := if s < hi then s else hi;
    ChildCount(p, s);
    if p.child[s].p.count > BT_MINKEY {
      BalanceAt(p, a, d);
      retval := BT_OK;
    } else {
      retval := CollapseAt(p, a, d);
    }
  }

  /** What the page is when the child that was served came back too small. */
  lemma ShortAfter(d: nat, t: Tree, k: Key)
    requires d > 1 && Deletable(d, t) && Ordered(Contents(t))
    requires Rank(t.keys, k) < |t.kids| && Deletable(d - 1, t.kids[Rank(t.keys, k)])
    requires DeleteFrom(d - 1, t.kids[Rank(t.keys, k)], k).Removed?
    ensures var hi := Rank(t.keys, k);
            var r := DeleteFrom(d - 1, t.kids[hi], k);
            && Paged(r.t) && |t.kids| == |t.keys| + 1
            && (|r.t.keys| < BT_MINKEY ==> OneShort(d - 1, Repaired(t, hi, k, r.t), hi))
  {
    RepairedRow(d, t, k);
    ShapeIsRow(d, t);
  }

  /** Passing the report of the child on, after the rebalancing when that was needed. */
  lemma TellsAll(d: nat, t: Tree, k: Key, c: Status, retval: Status, after: Tree, obj: seq<Extent>)
    requires d > 1 && Deletable(d, t) && Ordered(Contents(t))
    requires Rank(t.keys, k) < |t.kids| == |t.keys| + 1 && Deletable(d - 1, t.kids[Rank(t.keys, k)])
    requires DeleteFrom(d - 1, t.kids[Rank(t.keys, k)], k).Removed?
    requires Paged(DeleteFrom(d - 1, t.kids[Rank(t.keys, k)], k).t)
    requires obj == [DeleteFrom(d - 1, t.kids[Rank(t.keys, k)], k).e]
    requires var hi := Rank(t.keys, k);
             var r := DeleteFrom(d - 1, t.kids[hi], k);
             && AllPages(t.kids[hi := r.t]) && |t.keys| >= 1
             && after == Rebalance(Refreshed(t.keys, hi, k, r.t), t.kids[hi := r.t], hi)
    requires retval == BT_OK || retval == BT_LESS_THAN_MIN
    requires retval == BT_LESS_THAN_MIN ==> |after.kids| <= BT_MINKEY
    requires retval == BT_OK ==> |after.kids| > BT_MINKEY || |after.kids| == |t.kids|
    ensures Tells(DeleteFrom(d, t, k), t, retval, after, obj)
  {
    RepairedRow(d, t, k);
  }

  /** The inner case of BTDelete. */
  method DeleteBelow(p: Page, k: Key, hi: nat, ghost d: nat) returns (retval: Status, obj: seq<Extent>)
    requires p.Valid() && d > 1 && Deletable(d, p.tree) && Ordered(Contents(p.tree)) && !p.isleaf
    requires hi <= p.count && hi == Rank(p.tree.keys, k)
    modifies p.Repr
    ensures Deletable(d, old(p.tree))
    ensures p.Valid() && p.isleaf == old(p.isleaf) && p.Repr <= old(p.Repr)
    ensures Tells(DeleteFrom(d, old(p.tree), k), old(p.tree), retval, p.tree, obj)
    ensures retval == BT_NOT_FOUND ==> unchanged(old(p.Repr))
    decreases d, 1
  {
    ghost var t := p.tree;
    RepairedRow(d, t, k);
    ghost var r := DeleteFrom(d - 1, t.kids[hi], k);
    var c;
    c, obj := DescendDelete(p, k, hi, d);
    retval := c;
    if r.Removed? {
      ShortAfter(d, t, k);
    }
    if c == BT_LESS_THAN_MIN {
      Unpack(p);
      retval := FixChild(p, hi, d - 1);
    }
    if r.Removed? {
      Unpack(p);
      TellsAll(d, t, k, c, retval, p.tree, obj);
    }
  }

  /** The leaf case of BTDelete. */
  method DeleteHere(p: Page, k: Key, hi: nat) returns (retval: Status, obj: seq<Extent>)
    requires p.Valid() && Deletable(1, p.tree) && p.isleaf && hi <= p.count && hi == Rank(p.tree.keys, k)
    modifies p.Repr
    ensures Deletable(1, old(p.tree))
    ensures p.Valid() && p.isleaf == old(p.isleaf) && p.Repr <= old(p.Repr)
    ensures Tells(DeleteFrom(1, old(p.tree), k), old(p.tree), retval, p.tree, obj)
    ensures retval == BT_NOT_FOUND ==> unchanged(old(p.Repr))
  {
    Unpack(p);
    ChildFits(p, hi);
    LeafIsBottom(p, 1);
    if p.child[hi].e.base != k {
      return BT_NOT_FOUND, [];
    }
    obj := [p.child[hi].e];
    hide Family, Fits, Page.Valid;
    var idx: int := hi - 1;
    retval := BTDeletePage(p, idx);
    Unpack(p);
  }

  /** BTDelete. It removes from the page and what lies below it what DeleteFrom says; a key that is
      not found leaves every page as it was. */
  method BTDelete(p: Page, k: Key, ghost d: nat) returns (retval: Status, obj: seq<Extent>)
    requires p.Valid() && Deletable(d, p.tree) && Ordered(Contents(p.tree))
    modifies p.Repr
    ensures Deletable(d, old(p.tree))
    ensures p.Valid() && p.isleaf == old(p.isleaf) && p.Repr <= old(p.Repr)
    ensures Tells(DeleteFrom(d, old(p.tree), k), old(p.tree), retval, p.tree, obj)
    ensures retval == BT_NOT_FOUND ==> unchanged(old(p.Repr))
    decreases d, 2
  {
    ghost var t := p.tree;
    Unpack(p);
    LeafIsBottom(p, d);
    ShapeIsRow(d, t);
    SeparatorsAscend(d - 1, t.keys, t.kids);
    hide Family, Fits, Contents, AllContents, Ordered, Least, Shape, Page.Valid, Row, Full;
    var hi, found := p.Locate(k);
    if p.isleaf {
      retval, obj := DeleteHere(p, k, hi);
    } else {
      retval, obj := DeleteBelow(p, k, hi, d);
    }
  }
}

/** The pages of the object index on the heap, and the loops of kernel/lib/klibc/btree.c that
    shift, split and merge them in place. Each method computes the tree function of the same name. */
module BTreePages {
  import opened Extents
  import opened Sequences
  import opened IndexTree

  /** What a child pointer of a page can hold. */
  datatype Slot = Nil | Object(e: Extent) | Sub(p: Page)

  /** The slot represents the tree and touches no object outside R. */
  ghost predicate Fits(leaf: bool, s: Slot, t: Tree, R: set<object>)
    reads R
    decreases R, 1
  {
    match s
    case Nil => false
    case Object(e) => leaf && t == Obj(e)
    case Sub(p) => !leaf && p in R && p.Repr <= R && p.Valid() && p.tree == t
  }

  ghost predicate Apart(s: Slot, s': Slot, R: set<object>)
    reads R
  {
    s.Sub? && s'.Sub? ==> s.p in R && s'.p in R && s.p.Repr !! s'.p.Repr
  }

  /** The slots represent the trees, share no object, and touch no object outside R. */
  ghost predicate Family(leaf: bool, ss: seq<Slot>, kids: seq<Tree>, R: set<object>)
    reads R
    decreases R, 2
  {
    && |ss| == |kids|
    && (forall i :: 0 <= i < |ss| ==> Fits(leaf, ss[i], kids[i], R))
    && (forall i, j :: 0 <= i < j < |ss| ==> Apart(ss[i], ss[j], R))
  }

  /** struct sBTPage. Both arrays have one slot more than in the source, because the clearing loop
      of BTRedistribute (line 580) and the initialisation in BTIns (lines 232-236, 254-258) run one
      step past their ends. */
  class Page {
    var count: int
    var isleaf: bool
    const key: array<Key>
    const child: array<Slot>

    ghost var tree: Tree
    ghost var Repr: set<object>

    ghost predicate Roomy() {
      key.Length == BT_MAXKEY + 1 && child.Length == BT_MAXKEY + 2
    }

    ghost predicate InRange()
      reads this
    {
      Roomy() && -1 <= count <= BT_MAXKEY
    }

    ghost function Own(): set<object> {
      {this, key, child}
    }

    ghost function Keys(): seq<Key>
      requires InRange()
      reads this, key
    {
      if count < 0 then [] else key[..count]
    }

    ghost function Slots(): seq<Slot>
      requires InRange()
      reads this, child
    {
      child[..count + 1]
    }

    ghost predicate Valid()
      reads this, Repr
      ensures Valid() ==> this in Repr && key in Repr && child in Repr && InRange()
      decreases Repr, 0
    {
      && this in Repr && key in Repr && child in Repr
      && InRange()
      && tree.Page? && tree.keys == Keys()
      && Family(isleaf, Slots(), tree.kids, Repr - Own())
    }

    /** A fresh page with all slots cleared. */
    constructor (leaf: bool)
      ensures Roomy() && count == -1 && isleaf == leaf
      ensures fresh(key) && fresh(child)
      ensures forall i :: 0 <= i < child.Length ==> child[i] == Nil
    {
      count, isleaf := -1, leaf;
      key := new Key[BT_MAXKEY + 1](i => 0);
      child := new Slot[BT_MAXKEY + 2](i => Nil);
      tree := Page([], []);
      Repr := {};
    }

    /** The binary search that BTSearch, BTInsert and BTDelete make in a page. */
    method Locate(k: Key) returns (hi: nat, found: bool)
      requires InRange() && count >= 0 && Ascending(key[..count])
      ensures hi == Rank(key[..count], k) && found == (k in key[..count])
    {
      var lo := 0;
      hi := count;
      found := false;
      while lo < hi
        invariant 0 <= lo <= hi <= count
        invariant forall i :: 0 <= i < lo ==> key[i] < k
        invariant forall i :: hi <= i < count ==> k < key[i]
      {
        var mid := (lo + hi) / 2;
        if key[mid] == k {
          assert key[..count][mid] == k;
          RankAt(key[..count], k, mid + 1);
          return mid + 1, true;
        } else if key[mid] > k {
          hi := mid;
        } else {
          lo := mid + 1;
        }
      }
      RankAt(key[..count], k, hi);
    }

    /** The loop of BTInsertPage: move the keys from position `from` on, and their right children,
        up by one. */
    method OpenGap(from: nat)
      requires InRange() && count < BT_MAXKEY && from <= count
      modifies key, child
      ensures forall j :: 0 <= j < from ==> key[j] == old(key[j])
      ensures forall j :: from < j <= count ==> key[j] == old(key[j - 1])
      ensures forall j :: 0 <= j <= from ==> child[j] == old(child[j])
      ensures forall j :: from + 1 < j <= count + 1 ==> child[j] == old(child[j - 1])
    {
      var i := count - 1;
      while i >= from
        invariant from - 1 <= i < count
        invariant forall j :: 0 <= j <= i ==> key[j] == old(key[j])
        invariant forall j :: i + 1 < j <= count ==> key[j] == old(key[j - 1])
        invariant forall j :: 0 <= j <= i + 1 ==> child[j] == old(child[j])
        invariant forall j :: i + 2 < j <= count + 1 ==> child[j] == old(child[j - 1])
      {
        key[i + 1] := key[i];
        child[i + 2] := child[i + 1];
        i := i - 1;
      }
    }

    /** BTInsertPage: the entry goes into the gap at hi; when it goes in front, the least key of
        the old first child becomes that child's separator. */
    method ShiftIn(hi: int, k: Key, c: Slot, least: Key)
      requires InRange() && 0 <= count < BT_MAXKEY && -1 <= hi <= count
      modifies this`count, key, child
      ensures count == old(count) + 1
      ensures key[..count] == InsertedAt(old(key[..count]), if hi < 0 then 0 else hi, if hi < 0 then least else k)
      ensures child[..count + 1] == InsertedAt(old(child[..count + 1]), hi + 1, c)
    {
      hide InsertedAt;
      ghost var keys, slots := key[..count], child[..count + 1];
      OpenGap(if hi < 0 then 0 else hi);
      if hi < 0 {
        key[0] := least;
        child[1] := child[0];
        child[0] := c;
      } else {
        key[hi] := k;
        child[hi + 1] := c;
      }
      count := count + 1;
      InsertedAtByElements(keys, if hi < 0 then 0 else hi, if hi < 0 then least else k, key[..count]);
      InsertedAtByElements(slots, hi + 1, c, child[..count + 1]);
    }

    /** The first loop of the split in BTInsert: hand everything after key kc to the new page and
        clear it here. */
    method HandOver(q: Page, kc: nat)
      requires InRange() && q.InRange() && kc < BT_MAXKEY && q.count == BT_MAXKEY - kc - 1
      requires key != q.key && child != q.child
      modifies key, child, q.key, q.child
      ensures forall n :: 0 <= n <= kc ==> key[n] == old(key[n])
      ensures forall n :: 0 <= n <= kc ==> child[n] == old(child[n])
      ensures forall n :: 0 <= n < q.count ==> q.key[n] == old(key[kc + 1 + n])
      ensures forall n :: 0 <= n <= q.count ==> q.child[n] == old(child[kc + 1 + n])
    {
      q.child[0] := child[kc + 1];
      child[kc + 1] := Nil;
      var i, j := 0, kc + 1;
      while i < q.count
        invariant 0 <= i <= q.count && j == kc + 1 + i
        invariant forall n :: 0 <= n <= kc ==> key[n] == old(key[n])
        invariant forall n :: j <= n < BT_MAXKEY ==> key[n] == old(key[n])
        invariant forall n :: 0 <= n <= kc ==> child[n] == old(child[n])
        invariant forall n :: j < n <= BT_MAXKEY ==> child[n] == old(child[n])
        invariant forall n :: 0 <= n < i ==> q.key[n] == old(key[kc + 1 + n])
        invariant forall n :: 0 <= n <= i ==> q.child[n] == old(child[kc + 1 + n])
      {
        q.key[i] := key[j];
        q.child[i + 1] := child[j + 1];
        key[j] := 0;
        child[j + 1] := Nil;
        i, j := i + 1, j + 1;
      }
    }

    /** The second loop of the split: the unused slots of the new page are cleared. */
    method ClearFrom(from: nat)
      requires Roomy()
      modifies key, child
      ensures forall n :: 0 <= n < from && n < key.Length ==> key[n] == old(key[n])
      ensures forall n :: 0 <= n <= from && n < child.Length ==> child[n] == old(child[n])
    {
      var i := from;
      while i < BT_MAXKEY
        invariant from <= i
        invariant forall n :: 0 <= n < from && n < key.Length ==> key[n] == old(key[n])
        invariant forall n :: 0 <= n <= from && n < child.Length ==> child[n] == old(child[n])
      {
        key[i] := 0;
        child[i + 1] := Nil;
        i := i + 1;
      }
    }

    /** The split in BTInsert: everything after key kc moves to a fresh page, and key kc no longer
        counts in this one, where it is cleared unless the new entry belongs exactly there. */
    method MoveTail(kc: nat, clear: bool) returns (q: Page, kmed: Key)
      requires InRange() && count == BT_MAXKEY && kc < BT_MAXKEY
      modifies this`count, key, child
      ensures kmed == old(key[..count])[kc]
      ensures fresh(q) && fresh(q.key) && fresh(q.child) && q.InRange()
      ensures q.isleaf == isleaf && q.count == BT_MAXKEY - kc - 1 && count == kc
      ensures key[..count] == old(key[..count])[..kc] && child[..count + 1] == old(child[..count + 1])[..kc + 1]
      ensures q.key[..q.count] == old(key[..count])[kc + 1..]
      ensures q.child[..q.count + 1] == old(child[..count + 1])[kc + 1..]
    {
      q := new Page(isleaf);
      q.count := BT_MAXKEY - kc - 1;
      HandOver(q, kc);
      count := kc;
      kmed := key[kc];
      if clear {
        key[kc] := 0;
      }
      q.ClearFrom(q.count);
    }

    /** BTDeletePage: close the gap that key idx and its right child leave, or the first key and
        child when idx < 0. */
    method ShiftOut(idx: int)
      requires InRange() && count >= 0 && -1 <= idx && (count == 0 ==> idx == -1) && (count > 0 ==> idx < count)
      modifies this`count, key, child
      ensures count == old(count) - 1
      ensures count >= 0 ==> key[..count] == RemovedAt(old(key[..count]), if idx < 0 then 0 else idx)
      ensures child[..count + 1] == RemovedAt(old(child[..count + 1]), idx + 1)
    {
      hide RemovedAt;
      ghost var keys, slots := key[..count], child[..count + 1];
      var at := idx;
      if at < 0 {
        child[0] := child[1];
        at := at + 1;
      }
      CloseGap(at, idx);
      child[count] := Nil;
      count := count - 1;
      if count >= 0 {
        key[count] := 0;
        RemovedAtByElements(keys, at, key[..count]);
      }
      RemovedAtByElements(slots, idx + 1, child[..count + 1]);
    }

    /** The loop of BTDeletePage, which leaves children up to position `at` alone. */
    method CloseGap(at: nat, ghost idx: int)
      requires InRange() && count >= 0 && at <= count
      modifies key, child
      ensures forall n :: 0 <= n < at ==> key[n] == old(key[n])
      ensures forall n :: at <= n < count - 1 ==> key[n] == old(key[n + 1])
      ensures forall n :: 0 <= n <= at ==> child[n] == old(child[n])
      ensures forall n :: at < n < count ==> child[n] == old(child[n + 1])
    {
      var i := at + 1;
      while i < count
        invariant at < i
        invariant forall n :: 0 <= n < at ==> key[n] == old(key[n])
        invariant forall n :: at <= n < i - 1 && n < count ==> key[n] == old(key[n + 1])
        invariant forall n :: i - 1 <= n < count ==> key[n] == old(key[n])
        invariant forall n :: 0 <= n <= at ==> child[n] == old(child[n])
        invariant forall n :: at < n < i && n < count ==> child[n] == old(child[n + 1])
        invariant forall n :: i <= n <= count ==> child[n] == old(child[n])
      {
        key[i - 1] := key[i];
        child[i] := child[i + 1];
        i := i + 1;
      }
    }

    /** The loop at the end of the first branch of BTRedistribute: what lies behind the first
        `delta` entries moves to the front. It runs one step past the last key. */
    method MoveDown(delta: nat, ghost ks: seq<Key>, ghost cs: seq<Slot>)
      requires InRange() && 0 < delta <= count && ks == key[..count] && cs == child[..count + 1]
      modifies key, child
      ensures forall n :: 0 <= n < count - delta ==> key[n] == ks[delta + n]
      ensures forall n :: 0 <= n <= count - delta ==> child[n] == cs[delta + n]
    {
      var j := delta - 1;
      child[0] := child[j + 1];
      var i := 0;
      while j < count
        invariant 0 <= i && j == delta - 1 + i <= count
        invariant Lowered(key[..], ks, delta, i) && Lowered(child[..], cs, delta, i + 1)
        decreases count - j
      {
        ghost var ks0, cs0 := key[..], child[..];
        j := j + 1;
        key[i] := key[j];
        child[i + 1] := child[j + 1];
        key[j] := 0;
        child[j + 1] := Nil;
        LowerOne(ks0, ks, delta, i, key[..]);
        LowerOne(cs0, cs, delta, i + 1, child[..]);
        i := i + 1;
      }
    }

    /** The space-making loop in the second branch of BTRedistribute. */
    method MoveUp(delta: nat)
      requires InRange() && 0 <= count && 0 < delta && count + delta <= BT_MAXKEY
      modifies key, child
      ensures forall n :: delta <= n < count + delta ==> key[n] == old(key[n - delta])
      ensures forall n :: delta <= n <= count + delta ==> child[n] == old(child[n - delta])
    {
      ghost var ks, cs := key[..count], child[..count + 1];
      child[count + delta] := child[count];
      var j, i := count + delta - 1, count - 1;
      while i >= 0
        invariant -1 <= i < count && j == i + delta
        invariant Raised(key[..], ks, delta, i) && Raised(child[..], cs, delta, i)
      {
        ghost var ks0, cs0 := key[..], child[..];
        key[j] := key[i];
        child[j] := child[i];
        RaiseOne(ks0, ks, delta, i, key[..]);
        RaiseOne(cs0, cs, delta, i, child[..]);
        j, i := j - 1, i - 1;
      }
    }
  }

  /** The first i elements from `delta` on have moved to the front, and those behind are in place. */
  ghost predicate Lowered<T>(s: seq<T>, from: seq<T>, delta: nat, i: nat) {
    && |from| <= |s|
    && (forall n :: 0 <= n < i && n + delta < |from| ==> s[n] == from[n + delta])
    && (forall n :: i + delta <= n < |from| ==> s[n] == from[n])
  }

  lemma LowerOne<T>(s: seq<T>, from: seq<T>, delta: nat, i: nat, s': seq<T>)
    requires Lowered(s, from, delta, i) && delta > 0 && i + delta < |s| == |s'|
    requires s'[i] == s[i + delta]
    requires forall n :: 0 <= n < |s| && n != i && n != i + delta ==> s'[n] == s[n]
    ensures Lowered(s', from, delta, i + 1)
  {
  }

  /** The elements behind i have moved up by `delta`, and those up to i are in place. */
  ghost predicate Raised<T>(s: seq<T>, from: seq<T>, delta: nat, i: int) {
    && |from| + delta <= |s|
    && (forall n :: 0 <= n <= i && n < |from| ==> s[n] == from[n])
    && (forall n :: i + delta < n < |from| + delta && n >= delta ==> s[n] == from[n - delta])
  }

  lemma RaiseOne<T>(s: seq<T>, from: seq<T>, delta: nat, i: nat, s': seq<T>)
    requires Raised(s, from, delta, i) && delta > 0 && i < |from| && |s| == |s'|
    requires s'[i + delta] == s[i]
    requires forall n :: 0 <= n < |s| && n != i + delta ==> s'[n] == s[n]
    ensures Raised(s', from, delta, i - 1)
  {
  }

  ghost predicate Separate(l: Page, r: Page) {
    l != r && l.key != r.key && l.child != r.child
  }

  /** The copying of BTCollapse: the separator and everything in the right page go behind the
      contents of the left one. */
  method Append(l: Page, r: Page, kmed: Key)
    requires l.InRange() && r.InRange() && l.count >= 0 && r.count >= 0 && Separate(l, r)
    requires l.count + r.count + 1 <= BT_MAXKEY
    modifies l`count, l.key, l.child
    ensures l.count == old(l.count) + r.count + 1
    ensures l.key[..l.count] == old(l.key[..l.count]) + [kmed] + r.key[..r.count]
    ensures l.child[..l.count + 1] == old(l.child[..l.count + 1]) + r.child[..r.count + 1]
  {
    ghost var lk, lc := l.key[..l.count], l.child[..l.count + 1];
    l.key[l.count] := kmed;
    l.child[l.count + 1] := r.child[0];
    CopyBehind(l, r);
    var n := l.count + r.count + 1;
    EndToEnd(l.key[..n], lk + [kmed], r.key[..r.count]);
    EndToEnd(l.child[..n + 1], lc, r.child[..r.count + 1]);
    l.count := n;
  }

  /** Its loop. */
  method CopyBehind(l: Page, r: Page)
    requires l.InRange() && r.InRange() && l.count >= 0 && r.count >= 0 && Separate(l, r)
    requires l.count + r.count + 1 <= BT_MAXKEY
    modifies l.key, l.child
    ensures forall k :: 0 <= k <= l.count ==> l.key[k] == old(l.key[k])
    ensures forall k :: 0 <= k < r.count ==> l.key[l.count + 1 + k] == r.key[k]
    ensures forall k :: 0 <= k <= l.count + 1 ==> l.child[k] == old(l.child[k])
    ensures forall k :: 0 < k <= r.count ==> l.child[l.count + 1 + k] == r.child[k]
  {
    var i, j := 0, l.count + 1;
    while i < r.count
      invariant 0 <= i <= r.count && j == l.count + 1 + i
      invariant forall k :: 0 <= k <= l.count ==> l.key[k] == old(l.key[k])
      invariant forall k :: 0 <= k < i ==> l.key[l.count + 1 + k] == r.key[k]
      invariant forall k :: 0 <= k <= l.count + 1 ==> l.child[k] == old(l.child[k])
      invariant forall k :: 0 < k <= i ==> l.child[l.count + 1 + k] == r.child[k]
    {
      l.key[j] := r.key[i];
      l.child[j + 1] := r.child[i + 1];
      i, j := i + 1, j + 1;
    }
  }

  lemma EndToEnd<T>(s: seq<T>, a: seq<T>, b: seq<T>)
    requires |s| == |a| + |b|
    requires forall k :: 0 <= k < |a| ==> s[k] == a[k]
    requires forall k :: |a| <= k < |s| ==> s[k] == b[k - |a|]
    ensures s == a + b
  {
  }

  /** The first branch of BTRedistribute: the left page grows to `half` keys with the separator and
      the first keys of the right page, whose rest moves to its front. The ghost parameters are the
      contents of the two pages before. */
  method PullLeft(l: Page, r: Page, kmed: Key, half: nat,
                  ghost lk: seq<Key>, ghost lc: seq<Slot>, ghost rk: seq<Key>, ghost rc: seq<Slot>)
    returns (kmedian: Key)
    requires l.InRange() && r.InRange() && 0 <= l.count < half <= BT_MAXKEY && Separate(l, r)
    requires half - l.count <= r.count
    requires lk == l.key[..l.count] && lc == l.child[..l.count + 1]
    requires rk == r.key[..r.count] && rc == r.child[..r.count + 1]
    modifies l`count, l.key, l.child, r`count, r.key, r.child
    ensures l.count == half && r.count == old(r.count) - (half - old(l.count))
    ensures PulledKey(lk, kmed, rk, l.key[..l.count], r.key[..r.count])
    ensures PulledSlot(lc, rc, l.child[..l.count + 1], r.child[..r.count + 1])
    ensures kmedian == rk[half - |lk| - 1]
  {
    hide PulledKey, PulledSlot, KeysPulled, SlotsPulled;
    var delta := half - l.count;
    FillLeft(l, r, kmed, half, lk, lc, rk, rc);
    l.child[half] := r.child[delta - 1];
    kmedian := r.key[delta - 1];
    CloseUp(l, r, delta, kmed, half, lk, lc, rk, rc);
    PulledKeyHolds(lk, kmed, rk, half, l.key[..], r.key[..]);
    PulledSlotHolds(lc, rc, half + 1, l.child[..], r.child[..]);
    r.count := r.count - delta;
    l.count := half;
    assert l.key[..][..half] == l.key[..l.count] && r.key[..][..r.count] == r.key[..r.count];
    assert l.child[..][..half + 1] == l.child[..l.count + 1] && r.child[..][..r.count + 1] == r.child[..r.count + 1];
  }

  /** The end of that branch's movement: the left page is filled, the right one moves down. */
  method CloseUp(l: Page, r: Page, delta: nat, ghost kmed: Key, ghost half: nat,
                 ghost lk: seq<Key>, ghost lc: seq<Slot>, ghost rk: seq<Key>, ghost rc: seq<Slot>)
    requires l.InRange() && r.InRange() && 0 <= l.count < half <= BT_MAXKEY && Separate(l, r)
    requires delta == half - l.count <= r.count && |lk| == l.count && |lc| == |lk| + 1
    requires rk == r.key[..r.count] && rc == r.child[..r.count + 1]
    requires forall n :: 0 <= n < |lk| ==> l.key[n] == lk[n]
    requires l.key[|lk|] == kmed
    requires forall n :: |lk| < n < half ==> l.key[n] == rk[n - |lk| - 1]
    requires forall n :: 0 <= n < |lc| ==> l.child[n] == lc[n]
    requires forall n :: |lc| <= n <= half ==> l.child[n] == rc[n - |lc|]
    modifies r.key, r.child
    ensures KeysPulled(lk, kmed, rk, half, l.key[..], r.key[..]) &&
            SlotsPulled(lc, rc, half + 1, l.child[..], r.child[..])
  {
    r.MoveDown(delta, rk, rc);
  }

  /** The copying loop of that branch. */
  method FillLeft(l: Page, r: Page, kmed: Key, half: nat,
                  ghost lk: seq<Key>, ghost lc: seq<Slot>, ghost rk: seq<Key>, ghost rc: seq<Slot>)
    requires l.InRange() && r.InRange() && 0 <= l.count < half <= BT_MAXKEY && Separate(l, r)
    requires half - l.count <= r.count
    requires lk == l.key[..l.count] && lc == l.child[..l.count + 1]
    requires rk == r.key[..r.count] && rc == r.child[..r.count + 1]
    modifies l.key, l.child
    ensures forall n :: 0 <= n < |lk| ==> l.key[n] == lk[n]
    ensures l.key[|lk|] == kmed
    ensures forall n :: |lk| < n < half ==> l.key[n] == rk[n - |lk| - 1]
    ensures forall n :: 0 <= n < |lc| ==> l.child[n] == lc[n]
    ensures forall n :: |lc| <= n < half ==> l.child[n] == rc[n - |lc|]
  {
    l.key[l.count] := kmed;
    var i, j := l.count + 1, 0;
    while i < half
      invariant l.count < i <= half && j == i - l.count - 1
      invariant forall n :: 0 <= n < |lk| ==> l.key[n] == lk[n]
      invariant l.key[|lk|] == kmed
      invariant forall n :: |lk| < n < i ==> l.key[n] == rk[n - |lk| - 1]
      invariant forall n :: 0 <= n < |lc| ==> l.child[n] == lc[n]
      invariant forall n :: |lc| <= n < i ==> l.child[n] == rc[n - |lc|]
    {
      l.key[i] := r.key[j];
      l.child[i] := r.child[j];
      i, j := i + 1, j + 1;
    }
  }

  /** The second branch of BTRedistribute: the right page gets the separator and the last keys of
      the left page in front of its own, and the left page keeps `half` keys. */
  method PushRight(l: Page, r: Page, kmed: Key, half: nat,
                   ghost lk: seq<Key>, ghost lc: seq<Slot>, ghost rk: seq<Key>, ghost rc: seq<Slot>)
    returns (kmedian: Key)
    requires l.InRange() && r.InRange() && half < l.count && 0 <= r.count && Separate(l, r)
    requires r.count + (l.count - half) <= BT_MAXKEY
    requires lk == l.key[..l.count] && lc == l.child[..l.count + 1]
    requires rk == r.key[..r.count] && rc == r.child[..r.count + 1]
    modifies l`count, l.key, l.child, r`count, r.key, r.child
    ensures l.count == half && r.count == old(r.count) + (old(l.count) - half)
    ensures PushedKey(lk, kmed, rk, l.key[..l.count], r.key[..r.count])
    ensures PushedSlot(lc, rc, l.child[..l.count + 1], r.child[..r.count + 1])
    ensures kmedian == lk[half]
  {
    hide PushedKey, PushedSlot, KeysPushed, SlotsPushed;
    var delta := l.count - half;
    MakeRoom(l, r, kmed, half, lk, lc, rk, rc);
    kmedian := l.key[half];
    ghost var ks, cs := l.key[..], l.child[..];
    l.key[half] := 0;
    PushedKeyHolds(lk, kmed, rk, half, ks, r.key[..]);
    PushedSlotHolds(lc, rc, half + 1, cs, r.child[..]);
    l.count := half;
    r.count := r.count + delta;
    assert ks[..half] == l.key[..l.count] && r.key[..][..r.count] == r.key[..r.count];
    assert cs[..half + 1] == l.child[..l.count + 1] && r.child[..][..r.count + 1] == r.child[..r.count + 1];
  }

  /** The movement of that branch. */
  method MakeRoom(l: Page, r: Page, kmed: Key, half: nat,
                  ghost lk: seq<Key>, ghost lc: seq<Slot>, ghost rk: seq<Key>, ghost rc: seq<Slot>)
    requires l.InRange() && r.InRange() && half < l.count && 0 <= r.count && Separate(l, r)
    requires r.count + (l.count - half) <= BT_MAXKEY
    requires lk == l.key[..l.count] && lc == l.child[..l.count + 1]
    requires rk == r.key[..r.count] && rc == r.child[..r.count + 1]
    modifies l.key, l.child, r.key, r.child
    ensures KeysPushed(lk, kmed, rk, half, l.key[..], r.key[..]) &&
            SlotsPushed(lc, rc, half + 1, l.child[..], r.child[..])
    ensures l.key[half] == lk[half]
  {
    var delta := l.count - half;
    r.MoveUp(delta);
    r.key[delta - 1] := kmed;
    r.child[delta - 1] := l.child[l.count];
    FillRight(l, r, half, lk, lc);
  }

  /** The copying loop of that branch, which clears what it moves. */
  method FillRight(l: Page, r: Page, half: nat, ghost lk: seq<Key>, ghost lc: seq<Slot>)
    requires l.InRange() && r.InRange() && half < l.count && Separate(l, r)
    requires l.count - half <= BT_MAXKEY
    requires lk == l.key[..l.count] && lc == l.child[..l.count + 1]
    modifies l.key, l.child, r.key, r.child
    ensures forall n :: 0 <= n <= half ==> l.key[n] == lk[n]
    ensures forall n :: 0 <= n <= half ==> l.child[n] == lc[n]
    ensures forall n :: 0 <= n < l.count - half - 1 ==> r.key[n] == lk[half + 1 + n]
    ensures forall n :: 0 <= n < l.count - half - 1 ==> r.child[n] == lc[half + 1 + n]
    ensures forall n :: l.count - half - 1 <= n < r.key.Length ==> r.key[n] == old(r.key[n])
    ensures forall n :: l.count - half - 1 <= n < r.child.Length ==> r.child[n] == old(r.child[n])
  {
    var delta := l.count - half;
    var i, j := l.count - 1, delta - 2;
    while j >= 0
      invariant -1 <= j < delta - 1 && i == half + 1 + j
      invariant forall n :: 0 <= n <= i ==> l.key[n] == lk[n]
      invariant forall n :: 0 <= n <= i ==> l.child[n] == lc[n]
      invariant forall n :: j < n < delta - 1 ==> r.key[n] == lk[half + 1 + n]
      invariant forall n :: j < n < delta - 1 ==> r.child[n] == lc[half + 1 + n]
      invariant forall n :: delta - 1 <= n < r.key.Length ==> r.key[n] == old(r.key[n])
      invariant forall n :: delta - 1 <= n < r.child.Length ==> r.child[n] == old(r.child[n])
    {
      r.key[j] := l.key[i];
      r.child[j] := l.child[i];
      l.key[i] := 0;
      l.child[i] := Nil;
      i, j := i - 1, j - 1;
    }
  }

  /** Two pages and the separator between them, laid end to end and cut again at key `half`. */
  ghost predicate Recut(lk: seq<Key>, lc: seq<Slot>, m: Key, rk: seq<Key>, rc: seq<Slot>, half: nat,
                        lk': seq<Key>, lc': seq<Slot>, m': Key, rk': seq<Key>, rc': seq<Slot>) {
    var ks, cs := Laid(lk, m, rk), Paired(lc, rc);
    && half < |ks| && half + 1 <= |cs|
    && lk' == ks[..half] && m' == ks[half] && rk' == ks[half + 1..]
    && lc' == cs[..half + 1] && rc' == cs[half + 1..]
  }

  /** The key movement of BTRedistribute. */
  method Rearrange(l: Page, r: Page, kmed: Key) returns (kmedian: Key)
    requires l.InRange() && r.InRange() && 0 <= l.count && 0 <= r.count && Separate(l, r)
    requires l.count + r.count < 2 * BT_MAXKEY && l.count != (l.count + r.count) / 2
    modifies l`count, l.key, l.child, r`count, r.key, r.child
    ensures l.count == old(l.count + r.count) / 2 && r.count == old(l.count + r.count) - l.count
    ensures Recut(old(l.key[..l.count]), old(l.child[..l.count + 1]), kmed,
                  old(r.key[..r.count]), old(r.child[..r.count + 1]), l.count,
                  l.key[..l.count], l.child[..l.count + 1], kmedian, r.key[..r.count], r.child[..r.count + 1])
  {
    hide PulledKey, PulledSlot, PushedKey, PushedSlot, Recut;
    var half := (l.count + r.count) / 2;
    ghost var lk, lc := l.key[..l.count], l.child[..l.count + 1];
    ghost var rk, rc := r.key[..r.count], r.child[..r.count + 1];
    if l.count < half {
      kmedian := PullLeft(l, r, kmed, half, lk, lc, rk, rc);
      PulledIsRecut(lk, lc, kmed, rk, rc, l.key[..l.count], l.child[..l.count + 1],
                    r.key[..r.count], r.child[..r.count + 1]);
    } else {
      kmedian := PushRight(l, r, kmed, half, lk, lc, rk, rc);
      PushedIsRecut(lk, lc, kmed, rk, rc, l.key[..l.count], l.child[..l.count + 1],
                    r.key[..r.count], r.child[..r.count + 1]);
    }
  }

  ghost predicate PulledKey<T>(l: seq<T>, m: T, r: seq<T>, l': seq<T>, r': seq<T>) {
    && |l| < |l'| && |l'| + |r'| == |l| + |r|
    && (forall n :: 0 <= n < |l| ==> l'[n] == l[n])
    && l'[|l|] == m
    && (forall n :: |l| < n < |l'| ==> l'[n] == r[n - |l| - 1])
    && (forall n :: 0 <= n < |r'| ==> r'[n] == r[|l'| - |l| + n])
  }

  ghost predicate PulledSlot<T>(l: seq<T>, r: seq<T>, l': seq<T>, r': seq<T>) {
    && |l| < |l'| && |l'| + |r'| == |l| + |r|
    && (forall n :: 0 <= n < |l| ==> l'[n] == l[n])
    && (forall n :: |l| <= n < |l'| ==> l'[n] == r[n - |l|])
    && (forall n :: 0 <= n < |r'| ==> r'[n] == r[|l'| - |l| + n])
  }

  ghost predicate PushedKey<T>(l: seq<T>, m: T, r: seq<T>, l': seq<T>, r': seq<T>) {
    && |l'| < |l| && |l'| + |r'| == |l| + |r|
    && (forall n :: 0 <= n < |l'| ==> l'[n] == l[n])
    && (forall n :: 0 <= n < |l| - |l'| - 1 ==> r'[n] == l[|l'| + 1 + n])
    && r'[|l| - |l'| - 1] == m
    && (forall n :: |l| - |l'| <= n < |r'| ==> r'[n] == r[n - (|l| - |l'|)])
  }

  ghost predicate PushedSlot<T>(l: seq<T>, r: seq<T>, l': seq<T>, r': seq<T>) {
    && |l'| < |l| && |l'| + |r'| == |l| + |r|
    && (forall n :: 0 <= n < |l'| ==> l'[n] == l[n])
    && (forall n :: 0 <= n < |l| - |l'| ==> r'[n] == l[|l'| + n])
    && (forall n :: |l| - |l'| <= n < |r'| ==> r'[n] == r[n - (|l| - |l'|)])
  }

  /** The same, told of the whole arrays. */
  ghost predicate KeysPulled<T>(l: seq<T>, m: T, r: seq<T>, half: nat, s: seq<T>, t: seq<T>) {
    && |l| < half <= |l| + |r| && half <= |s| && |l| + |r| - half <= |t|
    && (forall n :: 0 <= n < |l| ==> s[n] == l[n])
    && s[|l|] == m
    && (forall n :: |l| < n < half ==> s[n] == r[n - |l| - 1])
    && (forall n :: 0 <= n < |l| + |r| - half ==> t[n] == r[half - |l| + n])
  }

  lemma PulledKeyHolds<T>(l: seq<T>, m: T, r: seq<T>, half: nat, s: seq<T>, t: seq<T>)
    requires KeysPulled(l, m, r, half, s, t)
    ensures PulledKey(l, m, r, s[..half], t[..|l| + |r| - half])
  {
  }

  ghost predicate SlotsPulled<T>(l: seq<T>, r: seq<T>, half: nat, s: seq<T>, t: seq<T>) {
    && |l| < half <= |l| + |r| && half <= |s| && |l| + |r| - half <= |t|
    && (forall n :: 0 <= n < |l| ==> s[n] == l[n])
    && (forall n :: |l| <= n < half ==> s[n] == r[n - |l|])
    && (forall n :: 0 <= n < |l| + |r| - half ==> t[n] == r[half - |l| + n])
  }

  lemma PulledSlotHolds<T>(l: seq<T>, r: seq<T>, half: nat, s: seq<T>, t: seq<T>)
    requires SlotsPulled(l, r, half, s, t)
    ensures PulledSlot(l, r, s[..half], t[..|l| + |r| - half])
  {
  }

  ghost predicate KeysPushed<T>(l: seq<T>, m: T, r: seq<T>, half: nat, s: seq<T>, t: seq<T>) {
    && half < |l| && half <= |s| && |l| + |r| - half <= |t|
    && (forall n :: 0 <= n < half ==> s[n] == l[n])
    && (forall n :: 0 <= n < |l| - half - 1 ==> t[n] == l[half + 1 + n])
    && t[|l| - half - 1] == m
    && (forall n :: |l| - half <= n < |l| + |r| - half ==> t[n] == r[n - (|l| - half)])
  }

  lemma PushedKeyHolds<T>(l: seq<T>, m: T, r: seq<T>, half: nat, s: seq<T>, t: seq<T>)
    requires KeysPushed(l, m, r, half, s, t)
    ensures PushedKey(l, m, r, s[..half], t[..|l| + |r| - half])
  {
  }

  ghost predicate SlotsPushed<T>(l: seq<T>, r: seq<T>, half: nat, s: seq<T>, t: seq<T>) {
    && half < |l| && half <= |s| && |l| + |r| - half <= |t|
    && (forall n :: 0 <= n < half ==> s[n] == l[n])
    && (forall n :: 0 <= n < |l| - half ==> t[n] == l[half + n])
    && (forall n :: |l| - half <= n < |l| + |r| - half ==> t[n] == r[n - (|l| - half)])
  }

  lemma PushedSlotHolds<T>(l: seq<T>, r: seq<T>, half: nat, s: seq<T>, t: seq<T>)
    requires SlotsPushed(l, r, half, s, t)
    ensures PushedSlot(l, r, s[..half], t[..|l| + |r| - half])
  {
  }

  lemma PulledIsRecut(lk: seq<Key>, lc: seq<Slot>, m: Key, rk: seq<Key>, rc: seq<Slot>,
                      lk': seq<Key>, lc': seq<Slot>, rk': seq<Key>, rc': seq<Slot>)
    requires |lc| == |lk| + 1 && |rc| == |rk| + 1 && |lc'| == |lk'| + 1
    requires PulledKey(lk, m, rk, lk', rk') && PulledSlot(lc, rc, lc', rc')
    ensures Recut(lk, lc, m, rk, rc, |lk'|, lk', lc', rk[|lk'| - |lk| - 1], rk', rc')
  {
  }

  lemma PushedIsRecut(lk: seq<Key>, lc: seq<Slot>, m: Key, rk: seq<Key>, rc: seq<Slot>,
                      lk': seq<Key>, lc': seq<Slot>, rk': seq<Key>, rc': seq<Slot>)
    requires |lc| == |lk| + 1 && |rc| == |rk| + 1 && |lc'| == |lk'| + 1
    requires PushedKey(lk, m, rk, lk', rk') && PushedSlot(lc, rc, lc', rc')
    ensures Recut(lk, lc, m, rk, rc, |lk'|, lk', lc', lk[|lk'|], rk', rc')
  {
  }

  lemma {:induction false} RankAt(keys: seq<Key>, k: Key, hi: nat)
    requires Ascending(keys) && hi <= |keys|
    requires hi > 0 ==> keys[hi - 1] <= k
    requires hi < |keys| ==> k < keys[hi]
    ensures Rank(keys, k) == hi
  {
  }
}

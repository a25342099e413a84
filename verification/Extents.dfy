/** The interval predicates of the object index, and sequences of disjoint intervals. */
module Extents {
  type Key = nat

  /** What the index looks at in an object: the key (its base), the first address past it, and `id`,
      which stands for the object pointer that the index stores. */
  datatype Extent = Extent(base: Key, end: Key, id: nat)

  /** BTObjMatch: the key lies inside the object. */
  predicate Matches(e: Extent, k: Key) {
    e.base <= k < e.end
  }

  /** BTOverlaps: one of the two objects starts inside the other. */
  predicate Overlaps(a: Extent, b: Extent) {
    || (a.base <= b.base && b.base < a.end)
    || (b.base <= a.base && a.base < b.end)
  }

  /** Non-empty extents share an address exactly when they overlap in the sense of the macro. */
  lemma OverlapsMeansCommonAddress(a: Extent, b: Extent)
    requires a.base < a.end && b.base < b.end
    ensures Overlaps(a, b) <==> exists k: Key :: Matches(a, k) && Matches(b, k)
  {
    if Overlaps(a, b) {
      var k := if a.base <= b.base then b.base else a.base;
      assert Matches(a, k) && Matches(b, k);
    }
  }

  /** Ascending, non-empty and pairwise disjoint. */
  ghost predicate Ordered(c: seq<Extent>) {
    && (forall i :: 0 <= i < |c| ==> c[i].base < c[i].end)
    && (forall i, j :: 0 <= i < j < |c| ==> c[i].end <= c[j].base)
  }

  /** The reference meaning of insertion: before the first extent with a larger or equal base. */
  function InsertSorted(c: seq<Extent>, e: Extent): (r: seq<Extent>)
    ensures |r| == |c| + 1
  {
    if c == [] || e.base <= c[0].base then [e] + c else [c[0]] + InsertSorted(c[1..], e)
  }

  /** The reference meaning of deletion: drop every extent with the given base. */
  function Without(c: seq<Extent>, k: Key): seq<Extent> {
    if c == [] then []
    else if c[0].base == k then Without(c[1..], k)
    else [c[0]] + Without(c[1..], k)
  }

  /** The reference meaning of lookup: scan for the extent that contains the key. */
  function Scan(c: seq<Extent>, k: Key): (r: seq<Extent>)
    ensures |r| <= 1
    ensures r == [] <==> forall i :: 0 <= i < |c| ==> !Matches(c[i], k)
    ensures r != [] ==> r[0] in c && Matches(r[0], k)
  {
    if c == [] then [] else if Matches(c[0], k) then [c[0]] else Scan(c[1..], k)
  }

  lemma {:induction false} InsertSortedRoute(pre: seq<Extent>, mid: seq<Extent>, post: seq<Extent>, e: Extent)
    requires forall x :: x in pre ==> x.base < e.base
    requires post != [] ==> e.base <= post[0].base
    ensures InsertSorted(pre + mid + post, e) == pre + InsertSorted(mid, e) + post
  {
    if pre == [] {
      assert pre + mid + post == mid + post;
      InsertSortedBefore(mid, post, e);
      assert pre + InsertSorted(mid, e) + post == InsertSorted(mid, e) + post;
    } else {
      var all := pre + mid + post;
      assert all[1..] == pre[1..] + mid + post;
      assert all[0] == pre[0];
      InsertSortedRoute(pre[1..], mid, post, e);
      assert pre + InsertSorted(mid, e) + post == [pre[0]] + (pre[1..] + InsertSorted(mid, e) + post);
    }
  }

  lemma {:induction false} InsertSortedBefore(mid: seq<Extent>, post: seq<Extent>, e: Extent)
    requires post != [] ==> e.base <= post[0].base
    ensures InsertSorted(mid + post, e) == InsertSorted(mid, e) + post
  {
    if mid == [] {
      assert mid + post == post;
      assert InsertSorted(mid, e) == [e];
    } else if e.base > mid[0].base {
      assert (mid + post)[1..] == mid[1..] + post;
      InsertSortedBefore(mid[1..], post, e);
    } else {
      assert [e] + (mid + post) == [e] + mid + post;
    }
  }

  lemma {:induction false} WithoutRoute(pre: seq<Extent>, mid: seq<Extent>, post: seq<Extent>, k: Key)
    requires forall x :: x in pre ==> x.base != k
    requires forall x :: x in post ==> x.base != k
    ensures Without(pre + mid + post, k) == pre + Without(mid, k) + post
  {
    WithoutConcat(pre + mid, post, k);
    WithoutConcat(pre, mid, k);
    WithoutNone(pre, k);
    WithoutNone(post, k);
  }

  lemma {:induction false} WithoutConcat(a: seq<Extent>, b: seq<Extent>, k: Key)
    ensures Without(a + b, k) == Without(a, k) + Without(b, k)
  {
    if a == [] {
      assert a + b == b;
    } else {
      assert (a + b)[1..] == a[1..] + b;
      WithoutConcat(a[1..], b, k);
    }
  }

  lemma {:induction false} WithoutNone(c: seq<Extent>, k: Key)
    requires forall x :: x in c ==> x.base != k
    ensures Without(c, k) == c
  {
    if c != [] {
      assert c[0] in c;
      WithoutNone(c[1..], k);
    }
  }

  /** Putting an extent in front of ordered ones that start at or after its end. */
  lemma OrderedCons(e: Extent, c: seq<Extent>)
    requires Ordered(c) && e.base < e.end
    requires forall x :: x in c ==> e.end <= x.base
    ensures Ordered([e] + c)
  {
    var r := [e] + c;
    forall i, j | 0 <= i < j < |r| ensures r[i].end <= r[j].base {
      assert r[j] == c[j - 1] && r[j] in c;
    }
  }

  lemma OrderedTail(c: seq<Extent>)
    requires Ordered(c) && c != []
    ensures Ordered(c[1..])
    ensures forall x :: x in c[1..] ==> c[0].end <= x.base
  {
    var r := c[1..];
    forall i, j | 0 <= i < j < |r| ensures r[i].end <= r[j].base {
      assert r[i] == c[i + 1] && r[j] == c[j + 1];
    }
  }

  lemma {:induction false} InsertSortedMembers(c: seq<Extent>, e: Extent)
    ensures multiset(InsertSorted(c, e)) == multiset(c) + multiset{e}
    ensures forall x :: x in InsertSorted(c, e) <==> x in c || x == e
  {
    if c != [] && c[0].base < e.base {
      InsertSortedMembers(c[1..], e);
      assert c == [c[0]] + c[1..];
    }
  }

  /** Inserting an extent that meets none of the stored ones keeps the order. */
  lemma {:induction false} InsertSortedOrdered(c: seq<Extent>, e: Extent)
    requires Ordered(c) && e.base < e.end
    requires forall x :: x in c ==> !Overlaps(e, x)
    ensures Ordered(InsertSorted(c, e))
  {
    if c != [] {
      OrderedTail(c);
      assert c[0] in c;
      if e.base <= c[0].base {
        assert e.end <= c[0].base;
        OrderedCons(e, c);
      } else {
        InsertSortedOrdered(c[1..], e);
        InsertSortedMembers(c[1..], e);
        OrderedCons(c[0], InsertSorted(c[1..], e));
      }
    }
  }

  lemma {:induction false} WithoutMembers(c: seq<Extent>, k: Key)
    ensures forall x :: x in Without(c, k) <==> x in c && x.base != k
  {
    if c != [] {
      WithoutMembers(c[1..], k);
      assert c == [c[0]] + c[1..];
    }
  }

  /** Removing a key from ordered extents keeps the order. */
  lemma {:induction false} WithoutOrdered(c: seq<Extent>, k: Key)
    requires Ordered(c)
    ensures Ordered(Without(c, k))
  {
    if c != [] {
      OrderedTail(c);
      WithoutOrdered(c[1..], k);
      WithoutMembers(c[1..], k);
      if c[0].base != k {
        OrderedCons(c[0], Without(c[1..], k));
      }
    }
  }

  /** Removing the base of a stored extent removes exactly that extent. */
  lemma {:induction false} WithoutOne(c: seq<Extent>, i: nat)
    requires Ordered(c) && i < |c|
    ensures Without(c, c[i].base) == c[..i] + c[i + 1..]
  {
    OrderedTail(c);
    if i == 0 {
      assert forall x :: x in c[1..] ==> x.base != c[0].base;
      WithoutNone(c[1..], c[0].base);
    } else {
      assert c[1..][i - 1] == c[i] && c[i] in c[1..];
      WithoutOne(c[1..], i - 1);
      assert c[..i] + c[i + 1..] == [c[0]] + (c[1..][..i - 1] + c[1..][i..]);
    }
  }

  /** Inserting a new base and removing it again gives the same extents back. */
  lemma {:induction false} InsertThenWithout(c: seq<Extent>, e: Extent)
    requires forall x :: x in c ==> x.base != e.base
    ensures Without(InsertSorted(c, e), e.base) == c
  {
    if c == [] || e.base <= c[0].base {
      WithoutNone(c, e.base);
    } else {
      assert c[0] in c;
      InsertThenWithout(c[1..], e);
    }
  }

  /** Among ordered extents at most one contains a given key, so the scan finds that one. */
  lemma ScanUnique(c: seq<Extent>, k: Key, i: nat)
    requires Ordered(c) && i < |c| && Matches(c[i], k)
    ensures Scan(c, k) == [c[i]]
  {
    var r := Scan(c, k);
    assert r != [];
    var j :| 0 <= j < |c| && c[j] == r[0];
    assert i == j;
  }
}

/** Insertion into and removal from a sequence at a position, and how to recognise them from the
    elements, which is what a loop establishes that shifts an array or walks a list; distinct elements. */
module Sequences {
  function InsertedAt<T>(s: seq<T>, i: nat, x: T): (r: seq<T>)
    requires i <= |s|
    ensures |r| == |s| + 1
  {
    s[..i] + [x] + s[i..]
  }

  function RemovedAt<T>(s: seq<T>, i: nat): (r: seq<T>)
    requires i < |s|
    ensures |r| == |s| - 1
  {
    s[..i] + s[i + 1..]
  }

  /** The item at a position, or the other one behind the end. */
  function ItemOr<T>(s: seq<T>, i: nat, other: T): T {
    if i < |s| then s[i] else other
  }

  lemma InsertedAtByElements<T>(s: seq<T>, i: nat, x: T, r: seq<T>)
    requires i <= |s| && |r| == |s| + 1
    requires forall j :: 0 <= j < i ==> r[j] == s[j]
    requires r[i] == x
    requires forall j :: i < j < |r| ==> r[j] == s[j - 1]
    ensures r == InsertedAt(s, i, x)
  {
    assert forall j :: 0 <= j < |r| ==> r[j] == InsertedAt(s, i, x)[j];
  }

  lemma InsertedAtElements<T>(s: seq<T>, i: nat, x: T)
    requires i <= |s|
    ensures forall j :: 0 <= j < i ==> InsertedAt(s, i, x)[j] == s[j]
    ensures InsertedAt(s, i, x)[i] == x
    ensures forall j :: i < j <= |s| ==> InsertedAt(s, i, x)[j] == s[j - 1]
  {
  }

  lemma RemovedAtByElements<T>(s: seq<T>, i: nat, r: seq<T>)
    requires i < |s| && |r| == |s| - 1
    requires forall j :: 0 <= j < i ==> r[j] == s[j]
    requires forall j :: i <= j < |r| ==> r[j] == s[j + 1]
    ensures r == RemovedAt(s, i)
  {
    assert forall j :: 0 <= j < |r| ==> r[j] == RemovedAt(s, i)[j];
  }

  lemma RemovedAtElements<T>(s: seq<T>, i: nat)
    requires i < |s|
    ensures forall j :: 0 <= j < i ==> RemovedAt(s, i)[j] == s[j]
    ensures forall j :: i <= j < |s| - 1 ==> RemovedAt(s, i)[j] == s[j + 1]
  {
  }

  /** Cutting a sequence behind or before the place of an insertion. */
  lemma CutAfter<T>(s: seq<T>, at: nat, x: T, n: nat)
    requires at <= n <= |s|
    ensures InsertedAt(s, at, x)[..n + 1] == InsertedAt(s[..n], at, x)
    ensures InsertedAt(s, at, x)[n + 1..] == s[n..]
  {
    assert s[..n][at..] + s[n..] == s[at..];
  }

  lemma CutBefore<T>(s: seq<T>, at: nat, x: T, n: nat)
    requires n <= at <= |s|
    ensures InsertedAt(s, at, x)[..n] == s[..n]
    ensures InsertedAt(s, at, x)[n..] == InsertedAt(s[n..], at - n, x)
  {
    assert s[..at][n..] == s[n..][..at - n];
  }

  lemma ThreeSlices<T>(s: seq<T>, i: nat, j: nat)
    requires i <= j <= |s|
    ensures s == s[..i] + s[i..j] + s[j..]
  {
  }

  /** Two sequences end to end, and with one element between them. */
  function Paired<T>(l: seq<T>, r: seq<T>): (s: seq<T>)
    ensures |s| == |l| + |r|
  {
    l + r
  }

  function Laid<T>(l: seq<T>, m: T, r: seq<T>): (s: seq<T>)
    ensures |s| == |l| + 1 + |r|
  {
    l + [m] + r
  }

  // ---------------------------------------------------------------- distinct elements

  ghost predicate Distinct<T>(s: seq<T>) {
    forall i, j :: 0 <= i < j < |s| ==> s[i] != s[j]
  }

  lemma DistinctAt<T>(s: seq<T>, i: nat)
    requires Distinct(s) && i < |s|
    ensures forall j :: 0 <= j < |s| && j != i ==> s[j] != s[i]
  {
  }

  lemma DistinctRemoved<T>(s: seq<T>, i: nat)
    requires Distinct(s) && i < |s|
    ensures Distinct(RemovedAt(s, i))
  {
    RemovedAtElements(s, i);
  }

  lemma DistinctInserted<T>(s: seq<T>, i: nat, x: T)
    requires Distinct(s) && i <= |s| && x !in s
    ensures Distinct(InsertedAt(s, i, x))
  {
    InsertedAtElements(s, i, x);
    var r := InsertedAt(s, i, x);
    hide InsertedAt;
    forall j, k | 0 <= j < k < |r| ensures r[j] != r[k] {
      assert j != i ==> r[j] == s[if j < i then j else j - 1];
      assert k != i ==> r[k] == s[if k < i then k else k - 1];
    }
  }
}

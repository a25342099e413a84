/** Allocation and release on a free list as changes at one place of the list, which is how code on
    linked entries makes them: an entry is shortened, put in, taken out, extended or joined to the next. */
module FreeListCases {
  import opened Machine
  import opened Sequences
  import opened FreeList

  /** The chunk before i takes n bytes and the chunk at i. */
  function Bridged(s: seq<Chunk>, i: nat, n: nat): seq<Chunk>
    requires 0 < i <= |s|
  {
    if i == |s| then s else RemovedAt(s[i - 1 := Chunk(s[i - 1].addr, s[i - 1].size + n + s[i].size)], i)
  }

  /** The four cases of kfree_obj at position i. */
  function Coalesced(s: seq<Chunk>, i: nat, c: Chunk): seq<Chunk>
    requires i <= |s|
  {
    var left, right := JoinsLeft(s, i, c.addr), JoinsRight(s, i, End(c));
    if left && right then Bridged(s, i, c.size)
    else if left then s[i - 1 := Chunk(s[i - 1].addr, s[i - 1].size + c.size)]
    else if right then s[i := Chunk(c.addr, s[i].size + c.size)]
    else InsertedAt(s, i, c)
  }

  /** Those cases are the release of the range, and the first entry never joins when it starts later. */
  lemma FreeCases(s: seq<Chunk>, c: Chunk)
    requires Tidy(s) && Releasable(s, c) && s != []
    ensures Release(s, c.addr, c.size) == Coalesced(s, GapIndex(s, c.addr), c)
    ensures GapIndex(s, c.addr) == 0 ==> End(s[0]) != c.addr
  {
    var i := GapIndex(s, c.addr);
    assert i == 0 ==> End(s[0]) > c.addr by {
      GapAround(s, c);
      assert i < |s| ==> Pages(s[i]);
    }
    MergedIs(s, c);
    CasesAre(s, i, c, Merged(s, c.addr, c.size));
  }

  /** The same to the letter: when both neighbours are joined, the entry at i stays on the list. */
  function CoalescedAsWritten(s: seq<Chunk>, i: nat, c: Chunk): seq<Chunk>
    requires i <= |s|
  {
    if JoinsLeft(s, i, c.addr) && JoinsRight(s, i, End(c)) then
      s[i - 1 := Chunk(s[i - 1].addr, s[i - 1].size + c.size + s[i].size)]
    else Coalesced(s, i, c)
  }

  lemma CasesAsWritten(s: seq<Chunk>, a: nat, size: nat)
    requires Tidy(s) && s != [] && size > 0 && Releasable(s, Chunk(a, PageRoundUp(size)))
    ensures FreeAsWritten(s, a, size) == CoalescedAsWritten(s, GapIndex(s, a), Chunk(a, PageRoundUp(size)))
    ensures GapIndex(s, a) == 0 ==> End(s[0]) != a
  {
    hide Release, Coalesced, Tidy, Releasable, GapIndex, PageRoundUp;
    FreeCases(s, Chunk(a, PageRoundUp(size)));
  }

  lemma CasesAre(s: seq<Chunk>, i: nat, c: Chunk, m: Chunk)
    requires i <= |s|
    requires var left, right := JoinsLeft(s, i, c.addr), JoinsRight(s, i, End(c));
             m == Chunk(if left then s[i - 1].addr else c.addr,
                        (if left then s[i - 1].size else 0) + c.size + (if right then s[i].size else 0))
    ensures var left, right := JoinsLeft(s, i, c.addr), JoinsRight(s, i, End(c));
            Splice(s, if left then i - 1 else i, if right then i + 1 else i, [m]) == Coalesced(s, i, c)
  {
    SpliceForms(s, i, m);
    hide Splice, RemovedAt, InsertedAt;
    var left, right := JoinsLeft(s, i, c.addr), JoinsRight(s, i, End(c));
    if left && right {
      assert m == Chunk(s[i - 1].addr, s[i - 1].size + c.size + s[i].size);
    } else if left {
      assert m == Chunk(s[i - 1].addr, s[i - 1].size + c.size);
    } else if right {
      assert m == Chunk(c.addr, s[i].size + c.size);
    } else {
      assert m == c;
    }
  }

  lemma MergedIs(s: seq<Chunk>, c: Chunk)
    requires Tidy(s) && Releasable(s, c)
    ensures var i := GapIndex(s, c.addr);
            var left, right := JoinsLeft(s, i, c.addr), JoinsRight(s, i, End(c));
            Merged(s, c.addr, c.size) ==
            Chunk(if left then s[i - 1].addr else c.addr,
                  (if left then s[i - 1].size else 0) + c.size + (if right then s[i].size else 0))
  {
    var i := GapIndex(s, c.addr);
    assert i > 0 ==> Pages(s[i - 1]);
    assert i < |s| ==> Pages(s[i]);
  }

  lemma SpliceForms(s: seq<Chunk>, i: nat, c: Chunk)
    requires i <= |s|
    ensures Splice(s, i, i, [c]) == InsertedAt(s, i, c)
    ensures i < |s| ==> Splice(s, i, i + 1, [c]) == s[i := c]
    ensures i > 0 ==> Splice(s, i - 1, i, [c]) == s[i - 1 := c]
    ensures 0 < i < |s| ==> Splice(s, i - 1, i + 1, [c]) == RemovedAt(s[i - 1 := c], i)
  {
    if i < |s| {
      SpliceOne(s, i, c);
    }
    if i > 0 {
      SpliceOne(s, i - 1, c);
    }
    if 0 < i < |s| {
      assert s[i - 1 := c][..i] == s[..i - 1] + [c];
    }
  }

  lemma {:induction false} FitIs(s: seq<Chunk>, n: nat, i: nat)
    requires i <= |s|
    requires forall k :: 0 <= k < i ==> s[k].size < n
    requires i < |s| ==> s[i].size >= n
    ensures FitIndex(s, n) == i
  {
    if i > 0 {
      FitIs(s[1..], n, i - 1);
    }
  }

  lemma SpliceOne(s: seq<Chunk>, i: nat, c: Chunk)
    requires i < |s|
    ensures Splice(s, i, i + 1, [c]) == s[i := c]
  {
  }

  lemma SpliceNone(s: seq<Chunk>, i: nat)
    requires i < |s|
    ensures Splice(s, i, i + 1, []) == RemovedAt(s, i)
  {
  }

  /** Releasing into an empty list. */
  lemma EmptyRelease(s: seq<Chunk>, c: Chunk)
    requires s == []
    ensures Release(s, c.addr, c.size) == InsertedAt(s, 0, c) == [c]
  {
  }
}

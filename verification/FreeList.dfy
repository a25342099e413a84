/** The free list of object space in kernel/src/mm.c, as a value. */
module FreeList {
  import opened Machine

  datatype Chunk = Chunk(addr: nat, size: nat)

  function End(c: Chunk): nat {
    c.addr + c.size
  }

  ghost predicate Within(c: Chunk, x: nat) {
    c.addr <= x < End(c)
  }

  /** The address lies in a free chunk. */
  ghost predicate IsFree(s: seq<Chunk>, x: nat) {
    exists i :: 0 <= i < |s| && Within(s[i], x)
  }

  /** A non-empty run of whole pages above address 0. */
  ghost predicate Pages(c: Chunk) {
    c.addr > 0 && c.addr % L4_PAGESIZE == 0 && c.size > 0 && c.size % L4_PAGESIZE == 0
  }

  /** Sorted by address, made of whole pages, and never adjacent. */
  ghost predicate Tidy(s: seq<Chunk>) {
    && (forall i :: 0 <= i < |s| ==> Pages(s[i]))
    && (forall i, j :: 0 <= i < j < |s| ==> End(s[i]) < s[j].addr)
  }

  // ---------------------------------------------------------------- allocation

  /** The first chunk that is big enough, or |s|. */
  function FitIndex(s: seq<Chunk>, n: nat): (i: nat)
    ensures i <= |s|
    ensures forall j :: 0 <= j < i ==> s[j].size < n
    ensures i < |s| ==> s[i].size >= n
  {
    if s == [] || s[0].size >= n then 0 else 1 + FitIndex(s[1..], n)
  }

  /** What is left of a chunk when its first n bytes are taken. */
  function Rest(c: Chunk, n: nat): seq<Chunk>
    requires n <= c.size
  {
    if c.size == n then [] else [Chunk(c.addr + n, c.size - n)]
  }

  /** The list with the chunks from i to j replaced. */
  function Splice(s: seq<Chunk>, i: nat, j: nat, m: seq<Chunk>): (r: seq<Chunk>)
    requires i <= j <= |s|
    ensures |r| == |s| - (j - i) + |m|
  {
    s[..i] + m + s[j..]
  }

  datatype Allocation = Allocation(addr: nat, left: seq<Chunk>)

  /** kmalloc_obj; address 0 stands for failure. */
  function Alloc(s: seq<Chunk>, size: nat): Allocation {
    var n := PageRoundUp(size);
    var i := FitIndex(s, n);
    if size == 0 || i == |s| then Allocation(0, s) else Allocation(s[i].addr, Splice(s, i, i + 1, Rest(s[i], n)))
  }

  lemma SpliceElements(s: seq<Chunk>, i: nat, j: nat, m: seq<Chunk>)
    requires i <= j <= |s|
    ensures var r := Splice(s, i, j, m);
            && (forall k :: 0 <= k < i ==> r[k] == s[k])
            && (forall k :: i <= k < i + |m| ==> r[k] == m[k - i])
            && (forall k :: i + |m| <= k < |r| ==> r[k] == s[k - i - |m| + j])
  {
  }

  lemma TidySlice(s: seq<Chunk>, i: nat, j: nat)
    requires Tidy(s) && i <= j <= |s|
    ensures Tidy(s[i..j])
  {
    forall k | 0 <= k < j - i ensures Pages(s[i..j][k]) {
      assert Pages(s[i + k]);
    }
  }

  lemma TidyConcat(a: seq<Chunk>, b: seq<Chunk>)
    requires Tidy(a) && Tidy(b)
    requires a != [] && b != [] ==> End(a[|a| - 1]) < b[0].addr
    ensures Tidy(a + b)
  {
    var r := a + b;
    forall k | 0 <= k < |r| ensures Pages(r[k]) {
      assert r[k] == if k < |a| then a[k] else b[k - |a|];
    }
    forall k, l | 0 <= k < l < |r| ensures End(r[k]) < r[l].addr {
      if k < |a| <= l {
        assert r[k] == a[k] && r[l] == b[l - |a|];
        assert k < |a| - 1 ==> End(a[k]) < a[|a| - 1].addr;
        assert l > |a| ==> End(b[0]) < b[l - |a|].addr;
      }
    }
  }

  /** The replacement is tidy and keeps its distance from its neighbours. */
  ghost predicate FitsIn(s: seq<Chunk>, i: nat, j: nat, m: seq<Chunk>)
    requires i <= j <= |s|
  {
    && Tidy(m)
    && (m != [] && i > 0 ==> End(s[i - 1]) < m[0].addr)
    && (m != [] && j < |s| ==> End(m[|m| - 1]) < s[j].addr)
  }

  lemma SpliceTidy(s: seq<Chunk>, i: nat, j: nat, m: seq<Chunk>)
    requires Tidy(s) && i <= j <= |s| && FitsIn(s, i, j, m)
    ensures Tidy(Splice(s, i, j, m))
  {
    TidySlice(s, 0, i);
    TidySlice(s, j, |s|);
    assert s[0..i] == s[..i] && s[j..|s|] == s[j..];
    TidyConcat(s[..i], m);
    if m == [] && i > 0 && j < |s| {
      assert End(s[i - 1]) < s[j].addr;
    }
    TidyConcat(s[..i] + m, s[j..]);
  }

  lemma FreeConcat(a: seq<Chunk>, b: seq<Chunk>, x: nat)
    ensures IsFree(a + b, x) <==> IsFree(a, x) || IsFree(b, x)
  {
    if IsFree(a, x) {
      var i :| 0 <= i < |a| && Within(a[i], x);
      assert Within((a + b)[i], x);
    }
    if IsFree(b, x) {
      var i :| 0 <= i < |b| && Within(b[i], x);
      assert Within((a + b)[|a| + i], x);
    }
  }

  lemma SpliceBytes(s: seq<Chunk>, i: nat, j: nat, m: seq<Chunk>, x: nat)
    requires i <= j <= |s|
    ensures IsFree(Splice(s, i, j, m), x) <==> IsFree(s[..i], x) || IsFree(m, x) || IsFree(s[j..], x)
    ensures IsFree(s, x) <==> IsFree(s[..i], x) || IsFree(s[i..j], x) || IsFree(s[j..], x)
  {
    FreeConcat(s[..i] + m, s[j..], x);
    FreeConcat(s[..i], m, x);
    assert s == s[..i] + s[i..j] + s[j..];
    FreeConcat(s[..i] + s[i..j], s[j..], x);
    FreeConcat(s[..i], s[i..j], x);
  }

  lemma RestBytes(c: Chunk, n: nat, x: nat)
    requires n <= c.size
    ensures IsFree(Rest(c, n), x) <==> Within(c, x) && !Within(Chunk(c.addr, n), x)
    ensures IsFree([c], x) <==> Within(c, x)
  {
    if c.size != n {
      assert Rest(c, n)[0] == Chunk(c.addr + n, c.size - n);
    }
    assert [c][0] == c;
  }

  /** Taking the first n bytes of chunk i. */
  lemma TakenHolds(s: seq<Chunk>, i: nat, n: nat)
    requires Tidy(s) && i < |s| && 0 < n <= s[i].size && n % L4_PAGESIZE == 0
    ensures var r := Splice(s, i, i + 1, Rest(s[i], n));
            Tidy(r) && forall x :: IsFree(r, x) <==> IsFree(s, x) && !Within(Chunk(s[i].addr, n), x)
  {
    assert Pages(s[i]);
    SpliceTidy(s, i, i + 1, Rest(s[i], n));
    var r := Splice(s, i, i + 1, Rest(s[i], n));
    forall x ensures IsFree(r, x) <==> IsFree(s, x) && !Within(Chunk(s[i].addr, n), x) {
      SpliceBytes(s, i, i + 1, Rest(s[i], n), x);
      assert s[i..i + 1] == [s[i]];
      RestBytes(s[i], n, x);
      if Within(s[i], x) {
        OutsideChunk(s, i, x);
      }
    }
  }

  /** The other chunks share no address with chunk i. */
  lemma OutsideChunk(s: seq<Chunk>, i: nat, x: nat)
    requires Tidy(s) && i < |s| && Within(s[i], x)
    ensures !IsFree(s[..i], x) && !IsFree(s[i + 1..], x)
  {
    forall j | 0 <= j < |s| && j != i ensures !Within(s[j], x) {
      assert if j < i then End(s[j]) < s[i].addr else End(s[i]) < s[j].addr;
    }
  }

  /** Which chunk it is: the first one that is big enough. Its front is handed out, and the rest of it stays where
      it is on the list; the other chunks are as they were. */
  ghost predicate FrontOfFirst(s: seq<Chunk>, n: nat, i: nat, r: Allocation) {
    && i < |s| && s[i].size >= n && (forall j :: 0 <= j < i ==> s[j].size < n)
    && r.addr == s[i].addr
    && r.left == s[..i] + (if s[i].size > n then [Chunk(s[i].addr + n, s[i].size - n)] else []) + s[i + 1..]
  }

  lemma AllocTakesFirst(s: seq<Chunk>, size: nat)
    requires size > 0 && exists i :: 0 <= i < |s| && s[i].size >= PageRoundUp(size)
    ensures exists i :: FrontOfFirst(s, PageRoundUp(size), i, Alloc(s, size))
  {
    hide PageRoundUp;
    var n := PageRoundUp(size);
    assert FrontOfFirst(s, n, FitIndex(s, n), Alloc(s, size));
  }

  /** kmalloc_obj finds room exactly when some chunk is big enough. What it hands out is a run of
      whole free pages of the rounded size; those pages and no others stop being free. */
  lemma AllocCorrect(s: seq<Chunk>, size: nat)
    requires Tidy(s)
    ensures var r := Alloc(s, size);
            && Tidy(r.left)
            && (r.addr == 0 <==> size == 0 || forall i :: 0 <= i < |s| ==> s[i].size < PageRoundUp(size))
            && (r.addr == 0 ==> r.left == s)
            && (r.addr != 0 ==>
                  var c := Chunk(r.addr, PageRoundUp(size));
                  && Pages(c)
                  && (forall x :: Within(c, x) ==> IsFree(s, x))
                  && (forall x :: IsFree(r.left, x) <==> IsFree(s, x) && !Within(c, x)))
  {
    var n := PageRoundUp(size);
    var i := FitIndex(s, n);
    if size != 0 && i < |s| {
      assert Pages(s[i]);
      TakenHolds(s, i, n);
      var c := Chunk(s[i].addr, n);
      forall x | Within(c, x) ensures IsFree(s, x) {
        assert Within(s[i], x);
      }
    }
  }

  // ---------------------------------------------------------------- release

  /** How many chunks start before the address: where kfree_obj stops its search. */
  function GapIndex(s: seq<Chunk>, a: nat): (i: nat)
    ensures i <= |s|
    ensures forall j :: 0 <= j < i ==> s[j].addr < a
    ensures i < |s| ==> s[i].addr >= a
  {
    if s == [] || s[0].addr >= a then 0 else 1 + GapIndex(s[1..], a)
  }

  predicate JoinsLeft(s: seq<Chunk>, i: nat, a: nat)
    requires i <= |s|
  {
    i > 0 && End(s[i - 1]) == a
  }

  predicate JoinsRight(s: seq<Chunk>, i: nat, e: nat)
    requires i <= |s|
  {
    i < |s| && s[i].addr == e
  }

  /** kfree_obj for n bytes of whole pages: the range and the chunks it touches become one chunk. */
  function Release(s: seq<Chunk>, a: nat, n: nat): seq<Chunk> {
    Splice(s, Lo(s, a), Hi(s, a, n), [Merged(s, a, n)])
  }

  /** The chunks from Lo to Hi are those that the range touches. */
  function Lo(s: seq<Chunk>, a: nat): (lo: nat)
    ensures lo <= GapIndex(s, a) <= lo + 1
  {
    var i := GapIndex(s, a);
    if JoinsLeft(s, i, a) then i - 1 else i
  }

  function Hi(s: seq<Chunk>, a: nat, n: nat): (hi: nat)
    ensures GapIndex(s, a) <= hi <= GapIndex(s, a) + 1 && hi <= |s|
  {
    var i := GapIndex(s, a);
    if JoinsRight(s, i, a + n) then i + 1 else i
  }

  function Merged(s: seq<Chunk>, a: nat, n: nat): Chunk {
    var i := GapIndex(s, a);
    var base := if Lo(s, a) < i then s[i - 1].addr else a;
    var end := if i < Hi(s, a, n) then End(s[i]) else a + n;
    Chunk(base, if base <= end then end - base else 0)
  }

  /** kfree_obj as it is meant: the size is rounded up first, nothing happens for size 0. */
  function Free(s: seq<Chunk>, a: nat, size: nat): seq<Chunk> {
    if size == 0 then s else Release(s, a, PageRoundUp(size))
  }

  /** A run of whole pages of which nothing is free. */
  ghost predicate Releasable(s: seq<Chunk>, c: Chunk) {
    Pages(c) && forall x :: Within(c, x) ==> !IsFree(s, x)
  }

  lemma GapAround(s: seq<Chunk>, c: Chunk)
    requires Tidy(s) && Releasable(s, c)
    ensures var i := GapIndex(s, c.addr);
            && (forall k :: 0 <= k < i ==> End(s[k]) <= c.addr)
            && (forall k :: i <= k < |s| ==> End(c) <= s[k].addr)
  {
    var i := GapIndex(s, c.addr);
    forall k | 0 <= k < i ensures End(s[k]) <= c.addr {
      assert Within(c, c.addr);
      assert !Within(s[k], c.addr);
    }
    forall k | i <= k < |s| ensures End(c) <= s[k].addr {
      assert Pages(s[k]) && (k > i ==> End(s[i]) < s[k].addr);
      assert Within(s[k], s[k].addr);
      assert IsFree(s, s[k].addr);
      assert !Within(c, s[k].addr);
    }
  }

  /** kfree_obj makes exactly the released pages free and keeps the list tidy. */
  lemma ReleaseCorrect(s: seq<Chunk>, c: Chunk)
    requires Tidy(s) && Releasable(s, c)
    ensures var r := Release(s, c.addr, c.size);
            Tidy(r) && forall x :: IsFree(r, x) <==> IsFree(s, x) || Within(c, x)
  {
    var a, n := c.addr, c.size;
    var lo, hi, m := Lo(s, a), Hi(s, a, n), Merged(s, a, n);
    MergedFits(s, c);
    SpliceTidy(s, lo, hi, [m]);
    hide Tidy, Merged, Splice;
    forall x ensures IsFree(Splice(s, lo, hi, [m]), x) <==> IsFree(s, x) || Within(c, x) {
      SpliceBytes(s, lo, hi, [m], x);
      JoinedBytes(s, lo, GapIndex(s, a), hi, c, m, x);
    }
  }

  ghost predicate Covers(s: seq<Chunk>, lo: nat, i: nat, hi: nat, c: Chunk, m: Chunk)
    requires lo <= i <= hi <= |s|
  {
    && (if lo < i then m.addr == s[lo].addr && End(s[lo]) == c.addr else m.addr == c.addr)
    && (if i < hi then End(m) == End(s[i]) && s[i].addr == End(c) else End(m) == End(c))
  }

  lemma MergedFits(s: seq<Chunk>, c: Chunk)
    requires Tidy(s) && Releasable(s, c)
    ensures FitsIn(s, Lo(s, c.addr), Hi(s, c.addr, c.size), [Merged(s, c.addr, c.size)])
    ensures Covers(s, Lo(s, c.addr), GapIndex(s, c.addr), Hi(s, c.addr, c.size), c, Merged(s, c.addr, c.size))
  {
    hide Merged, GapIndex;
    var a := c.addr;
    var i, lo, hi, m := GapIndex(s, a), Lo(s, a), Hi(s, a, c.size), Merged(s, a, c.size);
    MergedCovers(s, c);
    GapAround(s, c);
    assert lo < i ==> Pages(s[lo]);
    assert i < hi ==> Pages(s[i]);
    assert 0 < lo < i ==> End(s[lo - 1]) < s[lo].addr;
    assert i < hi < |s| ==> End(s[i]) < s[hi].addr;
    JoinedPages(if lo < i then [s[lo]] else [], c, if i < hi then [s[i]] else [], m);
    assert [m][0] == m;
  }

  lemma MergedCovers(s: seq<Chunk>, c: Chunk)
    requires Tidy(s) && Releasable(s, c)
    ensures Covers(s, Lo(s, c.addr), GapIndex(s, c.addr), Hi(s, c.addr, c.size), c, Merged(s, c.addr, c.size))
  {
    GapAround(s, c);
    var i := GapIndex(s, c.addr);
    assert i > 0 ==> Pages(s[i - 1]);
    assert i < |s| ==> Pages(s[i]);
  }

  /** A chunk made of adjacent chunks of whole pages is one itself. */
  lemma JoinedPages(l: seq<Chunk>, c: Chunk, r: seq<Chunk>, m: Chunk)
    requires |l| <= 1 && |r| <= 1 && Pages(c)
    requires l != [] ==> Pages(l[0]) && End(l[0]) == c.addr
    requires r != [] ==> Pages(r[0]) && r[0].addr == End(c)
    requires m.addr == if l != [] then l[0].addr else c.addr
    requires m.size == c.size + (if l != [] then l[0].size else 0) + (if r != [] then r[0].size else 0)
    ensures Pages(m)
  {
  }

  /** The new chunk covers the replaced ones and the released range. */
  lemma JoinedBytes(s: seq<Chunk>, lo: nat, i: nat, hi: nat, c: Chunk, m: Chunk, x: nat)
    requires lo <= i <= hi <= |s| && i - lo <= 1 && hi - i <= 1
    requires Covers(s, lo, i, hi, c, m)
    ensures IsFree([m], x) <==> IsFree(s[lo..hi], x) || Within(c, x)
  {
    assert [m][0] == m;
    var t := s[lo..hi];
    if lo < i {
      assert t[0] == s[lo];
    }
    if i < hi {
      assert t[i - lo] == s[i];
    }
    assert IsFree(t, x) <==> (lo < i && Within(s[lo], x)) || (i < hi && Within(s[i], x));
  }

  /** Allocating and releasing again gives back the very same list. */
  lemma AllocThenFree(s: seq<Chunk>, size: nat)
    requires Tidy(s) && Alloc(s, size).addr != 0
    ensures Free(Alloc(s, size).left, Alloc(s, size).addr, size) == s
  {
    var n := PageRoundUp(size);
    var i := FitIndex(s, n);
    var a, m := s[i].addr, Rest(s[i], n);
    var r := Splice(s, i, i + 1, m);
    HoleAt(s, i, n);
    assert Merged(r, a, n) == s[i];
    hide Tidy;
    SpliceBack(s, i, m);
  }

  lemma SpliceBack(s: seq<Chunk>, i: nat, m: seq<Chunk>)
    requires i < |s|
    ensures Splice(Splice(s, i, i + 1, m), i, i + |m|, [s[i]]) == s
  {
    var r := Splice(s, i, i + 1, m);
    assert r[..i] == s[..i] && r[i + |m|..] == s[i + 1..];
  }

  /** The hole that an allocation leaves touches at most the rest of its own chunk. */
  lemma HoleAt(s: seq<Chunk>, i: nat, n: nat)
    requires Tidy(s) && i < |s| && 0 < n <= s[i].size
    ensures var r, a := Splice(s, i, i + 1, Rest(s[i], n)), s[i].addr;
            && GapIndex(r, a) == i && Lo(r, a) == i && Hi(r, a, n) == i + |Rest(s[i], n)|
            && (Rest(s[i], n) != [] ==> r[i] == Rest(s[i], n)[0])
  {
    var a, m := s[i].addr, Rest(s[i], n);
    var r := Splice(s, i, i + 1, m);
    SpliceElements(s, i, i + 1, m);
    hide Splice;
    forall k | 0 <= k < i ensures r[k].addr < a && End(r[k]) < a {
      assert r[k] == s[k] && End(s[k]) < s[i].addr && Pages(s[k]);
    }
    if m == [] && i < |r| {
      assert r[i] == s[i + 1] && End(s[i]) < s[i + 1].addr;
    }
    GapIs(r, a, i);
  }

  lemma {:induction false} GapIs(s: seq<Chunk>, a: nat, i: nat)
    requires i <= |s|
    requires forall k :: 0 <= k < i ==> s[k].addr < a
    requires i < |s| ==> s[i].addr >= a
    ensures GapIndex(s, a) == i
  {
    if i > 0 {
      GapIs(s[1..], a, i - 1);
    }
  }

  // ---------------------------------------------------------------- kfree_obj to the letter

  /** kfree_obj as it stands: an empty list takes the size without rounding it (lines 382-385), and
      when both neighbours are joined the right one is freed but stays linked (lines 417-419). */
  function FreeAsWritten(s: seq<Chunk>, a: nat, size: nat): seq<Chunk> {
    var n, i := PageRoundUp(size), GapIndex(s, a);
    if s == [] then [Chunk(a, size)]
    else if size == 0 then s
    else if JoinsLeft(s, i, a) && JoinsRight(s, i, a + n) then
      s[i - 1 := Chunk(s[i - 1].addr, s[i - 1].size + n + s[i].size)]
    else Release(s, a, n)
  }

  /** When the code as it stands leaves the list tidy: exactly when it did not have to join on both
      sides, and did not release something other than whole pages into an empty list. */
  lemma FreeAsWrittenTidy(s: seq<Chunk>, a: nat, size: nat)
    requires Tidy(s) && a > 0 && a % L4_PAGESIZE == 0
    requires size > 0 ==> Releasable(s, Chunk(a, PageRoundUp(size)))
    ensures var n, i := PageRoundUp(size), GapIndex(s, a);
            var bothSides := JoinsLeft(s, i, a) && JoinsRight(s, i, a + n);
            && (Tidy(FreeAsWritten(s, a, size)) <==>
                !bothSides && (s == [] ==> size > 0 && size % L4_PAGESIZE == 0))
            && (Tidy(FreeAsWritten(s, a, size)) ==> FreeAsWritten(s, a, size) == Free(s, a, size))
  {
    var n, i := PageRoundUp(size), GapIndex(s, a);
    var r := FreeAsWritten(s, a, size);
    if s == [] {
      assert r[0] == Chunk(a, size);
      if size > 0 && size % L4_PAGESIZE == 0 {
        assert n == size;
        assert Free(s, a, size) == [Chunk(a, size)];
      }
    } else if size > 0 {
      if JoinsLeft(s, i, a) && JoinsRight(s, i, a + n) {
        assert Pages(s[i]);
        assert End(r[i - 1]) > r[i].addr;
      } else {
        ReleaseCorrect(s, Chunk(a, n));
      }
    } else {
      assert i > 0 && i < |s| ==> End(s[i - 1]) < s[i].addr;
    }
  }

  /** What it leaves when it joins on both sides: the left chunk reaches to the end of the right one, which is still
      there, and nothing else changes. An empty list gets the range as it is, and nothing is done for no bytes. */
  lemma FreeAsWrittenJoins(s: seq<Chunk>, a: nat, size: nat, i: nat)
    requires Tidy(s) && size > 0 && 0 < i < |s|
    requires End(s[i - 1]) == a && s[i].addr == a + PageRoundUp(size)
    ensures FreeAsWritten(s, a, size) == s[i - 1 := Chunk(s[i - 1].addr, End(s[i]) - s[i - 1].addr)]
    ensures FreeAsWritten([], a, size) == [Chunk(a, size)] && FreeAsWritten(s, a, 0) == s
  {
    forall k | 0 <= k < i ensures s[k].addr < a {
      assert Pages(s[k]);
      assert k < i - 1 ==> End(s[k]) < s[i - 1].addr;
    }
    GapIs(s, a, i);
  }

  /** Releasing the page between two free pages is such a case: the list then holds two chunks
      that share the last page. */
  lemma ThreeWayMergeExample()
    ensures FreeAsWritten([Chunk(4096, 4096), Chunk(12288, 4096)], 8192, 4096) ==
            [Chunk(4096, 12288), Chunk(12288, 4096)]
    ensures Free([Chunk(4096, 4096), Chunk(12288, 4096)], 8192, 4096) == [Chunk(4096, 12288)]
  {
    var s := [Chunk(4096, 4096), Chunk(12288, 4096)];
    GapIs(s, 8192, 1);
  }

  // ---------------------------------------------------------------- kmalloc_obj as it stands

  /** kmalloc_obj with its size rounded up in 64 bits. */
  function AllocAsWritten(s: seq<Chunk>, size: nat): Allocation
    requires size < WORD
  {
    var n := RoundUpInWord(size);
    var i := FitIndex(s, n);
    if size == 0 || i == |s| then Allocation(0, s) else Allocation(s[i].addr, Splice(s, i, i + 1, Rest(s[i], n)))
  }

  ghost predicate Addressable(s: seq<Chunk>) {
    forall i :: 0 <= i < |s| ==> End(s[i]) <= WORD
  }

  /** The code as it stands does what is meant exactly when rounding the size up does not wrap round to
      0, or nothing is free. Otherwise it hands out the first free chunk and leaves it on the list. */
  lemma AllocAgrees(s: seq<Chunk>, size: nat)
    requires Tidy(s) && Addressable(s) && size < WORD
    ensures AllocAsWritten(s, size) == Alloc(s, size) <==> s == [] || size <= WORD - L4_PAGESIZE
    ensures s != [] && size > WORD - L4_PAGESIZE ==> AllocAsWritten(s, size) == Allocation(s[0].addr, s)
  {
    RoundsAlike(size);
    if s != [] && size > WORD - L4_PAGESIZE {
      assert FitIndex(s, 0) == 0;
      assert Pages(s[0]);
      assert Splice(s, 0, 1, Rest(s[0], 0)) == s;
      var i := FitIndex(s, PageRoundUp(size));
      assert i < |s| ==> Pages(s[i]);
    }
  }
}

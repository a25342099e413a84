/** Mount lookup in lib/naming/namemap.c: which mounted tree a path is in. */
module NameMaps {
  import opened NamePath
  import opened NameTokens
  import opened NameHashes

  /** strrchr for a slash: the position of the last one, or -1. */
  function LastSlash(p: string): (i: int)
    ensures -1 <= i < |p|
    ensures i >= 0 ==> p[i] == SLASH
    ensures forall k :: i < k < |p| ==> p[k] != SLASH
  {
    if p == [] then -1 else if p[|p| - 1] == SLASH then |p| - 1 else LastSlash(p[..|p| - 1])
  }

  /** The path with its last name chopped off. The slash of the root stays, until only that is
      left. */
  function Chopped(p: string): (c: string)
    requires LastSlash(p) >= 0
    ensures |c| < |p|
  {
    var ch := LastSlash(p);
    if ch > 0 then p[..ch] else if |p| == 1 then [] else [SLASH]
  }

  lemma LastSlashIs(p: string, i: nat)
    requires i < |p| && p[i] == SLASH && forall k :: i < k < |p| ==> p[k] != SLASH
    ensures LastSlash(p) == i
  {
  }

  /** Chopping a printed name takes its last part away; chopping the root leaves nothing. */
  lemma ChoppedPrint(ts: seq<string>)
    requires Names(ts)
    ensures LastSlash(Print(ts)) >= 0
    ensures Chopped(Print(ts)) == if ts == [] then [] else Print(ts[..|ts| - 1])
  {
    if ts == [] {
      LastSlashIs(Print(ts), 0);
    } else {
      var n := |ts| - 1;
      var front := if n == 0 then [] else Print(ts[..n]);
      ChoppedJoin(Print(ts), front, ts[n]);
    }
  }

  lemma ChoppedJoin(p: string, front: string, t: string)
    requires p == front + [SLASH] + t && IsName(t)
    ensures LastSlash(p) == |front| && Chopped(p) == if front == [] then [SLASH] else front
  {
    hide LastSlash;
    forall k | |front| < k < |p| ensures p[k] != SLASH {
      assert p[k] == t[k - |front| - 1];
    }
    assert p[|front|] == SLASH;
    LastSlashIs(p, |front|);
    assert p[..|front|] == front;
  }

  /** The most names, up to k, that a mounted path has in common with the path, or -1. */
  function Longest(bs: seq<Binding>, ts: seq<string>, k: int): (j: int)
    requires -1 <= k <= |ts|
    ensures -1 <= j <= k
    ensures j >= 0 ==> Bound(bs, Print(ts[..j]))
    ensures forall l :: j < l <= k ==> !Bound(bs, Print(ts[..l]))
  {
    if k < 0 then -1 else if Bound(bs, Print(ts[..k])) then k else Longest(bs, ts, k - 1)
  }

  datatype Resolution = NotFound | Found(tree: nat, relative: string)

  /** nm_find_trees: the tree mounted at the longest prefix of the absolute path. When not even the
      root is mounted the current directory itself is tried. */
  function FindTrees(bs: seq<Binding>, org_path: string, cwd: string): Resolution {
    var absolute := Absolute(org_path, cwd);
    var ts := Tokens(absolute);
    var j := Longest(bs, ts, |ts|);
    if j >= 0 then Found(bs[IndexOf(bs, Print(ts[..j]))].value, Beyond(absolute, Print(ts[..j])))
    else if Bound(bs, Absolute([], cwd)) then Found(bs[IndexOf(bs, Absolute([], cwd))].value, absolute)
    else NotFound
  }

  /** What is left of a string after a prefix. */
  function Beyond(s: string, prefix: string): string {
    if |prefix| <= |s| then s[|prefix|..] else []
  }

  lemma {:induction false} PrintOfPrefix(ts: seq<string>, j: nat)
    requires j <= |ts|
    ensures Print(ts[..j]) <= Print(ts)
  {
    if j == |ts| {
      assert ts[..j] == ts;
    } else if |ts| == 1 {
      assert Print(ts) == [SLASH] + ts[0];
    } else {
      assert ts[..|ts| - 1][..j] == ts[..j];
      PrintOfPrefix(ts[..|ts| - 1], j);
    }
  }

  /** With the root mounted every path is in some tree, that of the longest mounted prefix in whole
      names, and prefix and rest together are the absolute path. */
  lemma FindTreesLongest(bs: seq<Binding>, org_path: string, cwd: string)
    requires Bound(bs, [SLASH])
    ensures var a := Absolute(org_path, cwd);
            var ts, r := Tokens(a), FindTrees(bs, org_path, cwd);
            && r.Found?
            && exists j :: 0 <= j <= |ts| && Print(ts[..j]) + r.relative == a
                 && Find(bs, Print(ts[..j])) == [r.tree]
                 && forall l :: j < l <= |ts| ==> !Bound(bs, Print(ts[..l]))
  {
    hide Absolute, Tokens, IndexOf;
    var a := Absolute(org_path, cwd);
    var ts, r := Tokens(a), FindTrees(bs, org_path, cwd);
    AbsoluteIsCanonical(org_path, cwd);
    var j := Longest(bs, ts, |ts|);
    assert Print(ts[..0]) == [SLASH];
    assert j >= 0;
    PrintOfPrefix(ts, j);
    assert Print(ts[..j]) + r.relative == a;
  }

  /** Without a mounted prefix the answer is that for the current directory, and the relative name
      is the whole path; so it is right exactly when some prefix is mounted. */
  lemma FindTreesIsPrefix(bs: seq<Binding>, org_path: string, cwd: string)
    ensures var a := Absolute(org_path, cwd);
            var ts, r := Tokens(a), FindTrees(bs, org_path, cwd);
            (exists j :: 0 <= j <= |ts| && Bound(bs, Print(ts[..j]))) <==>
            r.Found? && r.relative != a
  {
    var a := Absolute(org_path, cwd);
    var ts, r := Tokens(a), FindTrees(bs, org_path, cwd);
    AbsoluteIsCanonical(org_path, cwd);
    var j := Longest(bs, ts, |ts|);
    if j >= 0 {
      PrintOfPrefix(ts, j);
    }
  }

  /** What the answer is then: the tree of the current directory if that is mounted, with the whole path as the
      relative name, and otherwise none. */
  lemma FindTreesOtherwise(bs: seq<Binding>, org_path: string, cwd: string)
    requires var ts := Tokens(Absolute(org_path, cwd)); forall j :: 0 <= j <= |ts| ==> !Has(bs, Print(ts[..j]))
    ensures var r, here := FindTrees(bs, org_path, cwd), Absolute("", cwd);
            && (Has(bs, here) ==>
                  r.Found? && Find(bs, here) == [r.tree] && r.relative == Absolute(org_path, cwd))
            && (!Has(bs, here) ==> r == NotFound)
  {
    hide Absolute, Tokens, IndexOf, Print;
    var ts := Tokens(Absolute(org_path, cwd));
    forall j | 0 <= j <= |ts| ensures !Bound(bs, Print(ts[..j])) {
      BoundIsHas(bs, Print(ts[..j]));
    }
    BoundIsHas(bs, Absolute([], cwd));
    assert Absolute("", cwd) == Absolute([], cwd);
  }

  lemma BoundIsHas(bs: seq<Binding>, name: string)
    ensures Bound(bs, name) <==> Has(bs, name)
  {
  }

  /** The path after k names, or what is left when even the slash has gone. */
  function PathAt(ts: seq<string>, k: int): string
    requires -1 <= k <= |ts|
  {
    if k < 0 then [] else Print(ts[..k])
  }

  /** What one round of nm_find_trees looks up. */
  lemma RoundLookup(absolute: string, ts: seq<string>, k: int, cwd: string)
    requires Canonical(absolute) && ts == Tokens(absolute) && -1 <= k <= |ts|
    ensures k >= 0 ==> Absolute(PathAt(ts, k), cwd) == PathAt(ts, k)
    ensures |PathAt(ts, k)| <= |absolute|
  {
    if k >= 0 {
      PrintIsCanonical(ts[..k]);
      AbsoluteFixes(Print(ts[..k]), cwd);
      PrintOfPrefix(ts, k);
    }
  }

  /** The next path. */
  lemma RoundChops(ts: seq<string>, k: int)
    requires Names(ts) && -1 <= k <= |ts|
    ensures LastSlash(PathAt(ts, k)) >= 0 <==> k >= 0
    ensures k >= 0 ==> Chopped(PathAt(ts, k)) == PathAt(ts, k - 1)
  {
    if k >= 0 {
      ChoppedPrint(ts[..k]);
      assert k > 0 ==> ts[..k][..k - 1] == ts[..k - 1];
    }
  }

  /** nm_find_trees */
  method nm_find_trees(mounts: NameHash, org_path: string, cwd: string) returns (ok: bool, tree: nat, relative: string)
    requires mounts.Valid()
    ensures (if ok then Found(tree, relative) else NotFound) == FindTrees(mounts.bindings, org_path, cwd)
  {
    var absolute := nh_absolute(org_path, cwd);
    ghost var ts, bs := Tokens(absolute), mounts.bindings;
    AbsoluteIsCanonical(org_path, cwd);
    var path := absolute;
    ghost var k := |ts|;
    assert path == PathAt(ts, k) by {
      assert ts[..k] == ts;
    }
    assert Names(ts);
    hide LastSlash, Canonical, Chopped, NameHash.Valid;
    while true
      invariant -1 <= k <= |ts| && path == PathAt(ts, k)
      invariant Longest(bs, ts, |ts|) == Longest(bs, ts, k)
      decreases |path|
    {
      RoundLookup(absolute, ts, k, cwd);
      RoundChops(ts, k);
      ok, tree := mounts.nh_find(path, cwd);
      if ok {
        relative := absolute[|path|..];
        return;
      }
      var ch := LastSlash(path);
      if ch < 0 {
        break;
      }
      path, k := Chopped(path), k - 1;
    }
    return false, 0, [];
  }
}

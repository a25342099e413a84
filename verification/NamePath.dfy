/** Path names as lib/naming/namehash.c treats them, on strings. */
module NamePath {
  // A C string is the sequence of its characters before the terminator.

  const SLASH := '/'

  // ---------------------------------------------------------------- tokens

  /** The end of the slashes that start at i. */
  function Skip(p: string, i: nat): (s: nat)
    requires i <= |p|
    ensures i <= s <= |p|
    ensures forall k :: i <= k < s ==> p[k] == SLASH
    ensures s < |p| ==> p[s] != SLASH
    decreases |p| - i
  {
    if i < |p| && p[i] == SLASH then Skip(p, i + 1) else i
  }

  /** The end of the name that starts at i. */
  function NameEnd(p: string, i: nat): (e: nat)
    requires i <= |p|
    ensures i <= e <= |p|
    ensures forall k :: i <= k < e ==> p[k] != SLASH
    ensures e < |p| ==> p[e] == SLASH
    decreases |p| - i
  {
    if i < |p| && p[i] != SLASH then NameEnd(p, i + 1) else i
  }

  /** The names from position i on. */
  function TokensFrom(p: string, i: nat): seq<string>
    requires i <= |p|
    decreases |p| - i
  {
    var s := Skip(p, i);
    if s == |p| then [] else [p[s..NameEnd(p, s)]] + TokensFrom(p, NameEnd(p, s))
  }

  function Tokens(p: string): seq<string> {
    TokensFrom(p, 0)
  }

  /** Not empty and without a slash. */
  predicate IsName(t: string) {
    t != [] && SLASH !in t
  }

  ghost predicate Names(ts: seq<string>) {
    forall i :: 0 <= i < |ts| ==> IsName(ts[i])
  }

  lemma {:induction false} SkipIs(p: string, i: nat, s: nat)
    requires i <= s <= |p|
    requires forall k :: i <= k < s ==> p[k] == SLASH
    requires s < |p| ==> p[s] != SLASH
    ensures Skip(p, i) == s
    decreases s - i
  {
    if i < s {
      SkipIs(p, i + 1, s);
    }
  }

  lemma {:induction false} NameEndIs(p: string, i: nat, e: nat)
    requires i <= e <= |p|
    requires forall k :: i <= k < e ==> p[k] != SLASH
    requires e < |p| ==> p[e] == SLASH
    ensures NameEnd(p, i) == e
    decreases e - i
  {
    if i < e {
      NameEndIs(p, i + 1, e);
    }
  }

  /** Slashes before the position to start from do not matter. */
  lemma TokensPastSlash(p: string, i: nat)
    requires i < |p| && p[i] == SLASH
    ensures TokensFrom(p, i) == TokensFrom(p, i + 1)
  {
  }

  lemma {:induction false} TokensAreNames(p: string, i: nat)
    requires i <= |p|
    ensures Names(TokensFrom(p, i))
    decreases |p| - i
  {
    var s := Skip(p, i);
    if s < |p| {
      TokensAreNames(p, NameEnd(p, s));
    }
  }

  lemma TokensStep(p: string, i: nat, s: nat, e: nat)
    requires i <= s < |p| && Skip(p, i) == s && NameEnd(p, s) == e
    ensures TokensFrom(p, i) == [p[s..e]] + TokensFrom(p, e)
  {
  }

  lemma TokensEnd(p: string, i: nat)
    requires i <= |p| && Skip(p, i) == |p|
    ensures TokensFrom(p, i) == []
  {
  }

  /** What stands before the start does not matter either. */
  lemma {:induction false} TokensShift(p: string, a: string, b: string, i: nat)
    requires i <= |b| && p == a + b
    ensures TokensFrom(p, |a| + i) == TokensFrom(b, i)
    decreases |b| - i
  {
    hide Skip, NameEnd, TokensFrom;
    var n, s := |a|, Skip(b, i);
    forall k | n + i <= k < n + s ensures p[k] == SLASH {
      assert b[k - n] == SLASH;
    }
    SkipIs(p, n + i, n + s);
    if s < |b| {
      var e := NameEnd(b, s);
      forall k | n + s <= k < n + e ensures p[k] != SLASH {
        assert b[k - n] != SLASH;
      }
      NameEndIs(p, n + s, n + e);
      assert p[n + s..n + e] == b[s..e];
      TokensShift(p, a, b, e);
      TokensStep(p, n + i, n + s, n + e);
      TokensStep(b, i, s, e);
    } else {
      TokensEnd(p, n + i);
      TokensEnd(b, i);
    }
    assert TokensFrom(p, n + i) == TokensFrom(b, i);
  }

  /** A slash separates. */
  lemma {:induction false} TokensJoined(p: string, a: string, b: string, i: nat)
    requires i <= |a| && p == a + [SLASH] + b
    ensures TokensFrom(p, i) == TokensFrom(a, i) + Tokens(b)
    decreases |a| - i
  {
    hide Skip, NameEnd, TokensFrom;
    var s := Skip(a, i);
    assert forall k :: 0 <= k < |a| ==> p[k] == a[k];
    if s == |a| {
      assert p[|a|] == SLASH;
      TokensEnd(a, i);
      TokensSkipTo(p, i, |a| + 1);
      TokensShift(p, a + [SLASH], b, 0);
      assert [] + Tokens(b) == Tokens(b);
    } else {
      var e := NameEnd(a, s);
      SkipIs(p, i, s);
      NameEndIs(p, s, e);
      assert p[s..e] == a[s..e];
      TokensJoined(p, a, b, e);
      TokensStep(p, i, s, e);
      TokensStep(a, i, s, e);
      FirstAndRest(a[s..e], TokensFrom(a, e), Tokens(b));
    }
    assert TokensFrom(p, i) == TokensFrom(a, i) + Tokens(b);
  }

  lemma FirstAndRest(t: string, a: seq<string>, b: seq<string>)
    ensures [t] + (a + b) == [t] + a + b
  {
  }

  lemma {:induction false} TokensSkipTo(p: string, i: nat, j: nat)
    requires i <= j <= |p| && forall k :: i <= k < j ==> p[k] == SLASH
    ensures TokensFrom(p, i) == TokensFrom(p, j)
    decreases j - i
  {
    if i < j {
      TokensPastSlash(p, i);
      TokensSkipTo(p, i + 1, j);
    }
  }

  lemma TokensOfJoin(a: string, b: string)
    ensures Tokens(a + [SLASH] + b) == Tokens(a) + Tokens(b)
  {
    TokensJoined(a + [SLASH] + b, a, b, 0);
  }

  lemma TokensOfName(t: string)
    requires IsName(t)
    ensures Tokens(t) == [t]
  {
    SkipIs(t, 0, 0);
    NameEndIs(t, 0, |t|);
    assert t[0..|t|] == t && TokensFrom(t, |t|) == [];
  }

  // ---------------------------------------------------------------- printing

  /** nh_tok2str: a slash before every name, one slash for no names. */
  function Print(ts: seq<string>): (s: string)
    ensures |s| >= 1 && s[0] == SLASH
  {
    if ts == [] then [SLASH]
    else (if |ts| == 1 then [] else Print(ts[..|ts| - 1])) + [SLASH] + ts[|ts| - 1]
  }

  lemma NoTokens()
    ensures Tokens([]) == []
  {
  }

  /** Cutting the printed form into names gives the names back. */
  lemma {:induction false} TokensOfPrint(ts: seq<string>)
    requires Names(ts)
    ensures Tokens(Print(ts)) == ts
  {
    hide Tokens;
    NoTokens();
    if ts == [] {
      assert Print(ts) == [] + [SLASH] + [];
      TokensOfJoin([], []);
    } else {
      var n := |ts| - 1;
      var front := if n == 0 then [] else Print(ts[..n]);
      TokensOfJoin(front, ts[n]);
      TokensOfName(ts[n]);
      if n > 0 {
        TokensOfPrint(ts[..n]);
      }
      assert ts == ts[..n] + [ts[n]];
    }
  }

  // ---------------------------------------------------------------- "." and ".."

  /** One name against the names so far: "." adds nothing, ".." takes the last one away, and stays
      where it is at the root. */
  function Visit(stack: seq<string>, t: string): seq<string> {
    if t == "." then stack
    else if t == ".." then (if stack == [] then [] else stack[..|stack| - 1])
    else stack + [t]
  }

  function Walk(stack: seq<string>, ts: seq<string>): seq<string>
    decreases |ts|
  {
    if ts == [] then stack else Walk(Visit(stack, ts[0]), ts[1..])
  }

  /** Names other than "." and "..". */
  ghost predicate Plain(ts: seq<string>) {
    forall i :: 0 <= i < |ts| ==> IsName(ts[i]) && ts[i] != "." && ts[i] != ".."
  }

  lemma {:induction false} WalkConcat(stack: seq<string>, a: seq<string>, b: seq<string>)
    ensures Walk(stack, a + b) == Walk(Walk(stack, a), b)
    decreases |a|
  {
    if a == [] {
      assert a + b == b;
    } else {
      assert (a + b)[1..] == a[1..] + b;
      WalkConcat(Visit(stack, a[0]), a[1..], b);
    }
  }

  lemma {:induction false} WalkPlain(stack: seq<string>, ts: seq<string>)
    requires Plain(ts)
    ensures Walk(stack, ts) == stack + ts
    decreases |ts|
  {
    if ts != [] {
      WalkPlain(stack + [ts[0]], ts[1..]);
      assert stack + [ts[0]] + ts[1..] == stack + ts;
    }
  }

  lemma {:induction false} WalkKeepsPlain(stack: seq<string>, ts: seq<string>)
    requires Plain(stack) && Names(ts)
    ensures Plain(Walk(stack, ts))
    decreases |ts|
  {
    if ts != [] {
      WalkKeepsPlain(Visit(stack, ts[0]), ts[1..]);
    }
  }

  // ---------------------------------------------------------------- absolute names

  /** The path that nh_absolute works on. */
  function FullName(name: string, cwd: string): string {
    if name != [] && name[0] == SLASH then name else cwd + [SLASH] + name
  }

  /** nh_absolute */
  function Absolute(name: string, cwd: string): string {
    Print(Walk([], Tokens(FullName(name, cwd))))
  }

  /** An absolute name with no empty, "." or ".." parts and no slash at the end. */
  ghost predicate Canonical(s: string) {
    Plain(Tokens(s)) && s == Print(Tokens(s))
  }

  lemma PrintIsCanonical(ts: seq<string>)
    requires Plain(ts)
    ensures Canonical(Print(ts)) && Tokens(Print(ts)) == ts
  {
    TokensOfPrint(ts);
  }

  /** nh_absolute always gives a canonical name. */
  lemma AbsoluteIsCanonical(name: string, cwd: string)
    ensures Canonical(Absolute(name, cwd))
    ensures Tokens(Absolute(name, cwd)) == Walk([], Tokens(FullName(name, cwd)))
  {
    TokensAreNames(FullName(name, cwd), 0);
    WalkKeepsPlain([], Tokens(FullName(name, cwd)));
    PrintIsCanonical(Walk([], Tokens(FullName(name, cwd))));
  }

  /** It leaves a path as it is exactly when that is canonical already, whatever the current
      directory; in particular applying it twice is the same as once. */
  lemma AbsoluteFixes(name: string, cwd: string)
    ensures Absolute(name, cwd) == name <==> Canonical(name)
    ensures Absolute(Absolute(name, cwd), cwd) == Absolute(name, cwd)
  {
    AbsoluteIsCanonical(name, cwd);
    if Canonical(name) {
      WalkPlain([], Tokens(name));
      assert [] + Tokens(name) == Tokens(name);
    }
    var a := Absolute(name, cwd);
    WalkPlain([], Tokens(a));
    assert [] + Tokens(a) == Tokens(a);
  }

  /** A relative path from the absolute form of a directory is that directory followed by the
      path. */
  lemma AbsoluteComposes(p: string, d: string, c: string)
    requires p == [] || p[0] != SLASH
    requires d != []
    ensures Absolute(p, Absolute(d, c)) == Absolute(d + [SLASH] + p, c)
  {
    AbsoluteIsCanonical(d, c);
    var a := Absolute(d, c);
    TokensOfJoin(a, p);
    var up := Walk([], Tokens(FullName(d, c)));
    WalkConcat([], up, Tokens(p));
    WalkPlain([], up);
    assert [] + up == up;
    assert Walk([], Tokens(a + [SLASH] + p)) == Walk(up, Tokens(p));
    FullNameOfJoin(p, d, c);
    TokensOfJoin(FullName(d, c), p);
    WalkConcat([], Tokens(FullName(d, c)), Tokens(p));
  }

  lemma FullNameOfJoin(p: string, d: string, c: string)
    requires d != []
    ensures FullName(d + [SLASH] + p, c) == FullName(d, c) + [SLASH] + p
  {
    if d[0] != SLASH {
      assert c + [SLASH] + (d + [SLASH] + p) == c + [SLASH] + d + [SLASH] + p;
    }
  }

  // ---------------------------------------------------------------- step by step

  // Every path is the root or a path with one more name, so these say what the absolute form of any path is.

  /** The names of the absolute form of a path with one more name. */
  lemma NamesOfNext(d: string, t: string, c: string)
    requires d != [] && IsName(t)
    ensures Tokens(Absolute(d + [SLASH] + t, c)) == Walk(Tokens(Absolute(d, c)), [t])
    ensures Canonical(Absolute(d, c)) && Canonical(Absolute(d + [SLASH] + t, c))
  {
    hide Tokens, Walk, Print, Canonical, Absolute;
    AbsoluteIsCanonical(d, c);
    AbsoluteIsCanonical(d + [SLASH] + t, c);
    FullNameOfJoin(t, d, c);
    TokensOfJoin(FullName(d, c), t);
    TokensOfName(t);
    WalkConcat([], Tokens(FullName(d, c)), [t]);
  }

  /** What one more name does to the names left after walking a path. */
  lemma WalkMeans(stack: seq<string>, ts: seq<string>, t: string)
    ensures Walk(stack, []) == stack
    ensures var r, next := Walk(stack, ts), Walk(stack, ts + [t]);
            if t == "." then next == r
            else if t == ".." then |next| == (if r == [] then 0 else |r| - 1) && next <= r
            else next == r + [t]
  {
    WalkConcat(stack, ts, [t]);
    WalkOne(Walk(stack, ts), t);
  }

  lemma WalkOne(stack: seq<string>, t: string)
    ensures Walk(stack, [t]) == Visit(stack, t)
  {
    assert [t][1..] == [];
  }

  /** The root is where "/" leads, and stays there under "..". */
  lemma RootIsRoot(c: string)
    ensures Absolute("/", c) == "/" && Absolute("/..", c) == "/"
  {
    TokensOfJoin([], []);
    TokensOfJoin([], "..");
    TokensOfName("..");
    WalkOne([], "..");
    assert [] + [SLASH] + [] == "/" && [] + [SLASH] + ".." == "/..";
    assert TokensFrom([], 0) == [];
  }

  /** A plain name is one more name at the end. */
  lemma PlainNameGoesDown(d: string, t: string, c: string)
    requires d != [] && IsName(t) && t != "." && t != ".."
    ensures Absolute(d + [SLASH] + t, c) == (if Absolute(d, c) == "/" then [] else Absolute(d, c)) + [SLASH] + t
  {
    hide Tokens, Walk, Absolute;
    NamesOfNext(d, t, c);
    var a, ts := Absolute(d, c), Tokens(Absolute(d, c));
    WalkOne(ts, t);
    assert (ts + [t])[..|ts|] == ts;
    PrintOfNone(a, ts);
  }

  lemma PrintOfNone(a: string, ts: seq<string>)
    requires a == Print(ts) && Plain(ts)
    ensures a == "/" <==> ts == []
  {
    if ts != [] {
      var n := |ts| - 1;
      assert IsName(ts[n]);
      assert a == (if n == 0 then [] else Print(ts[..n])) + [SLASH] + ts[n];
      assert |a| > 1;
    }
  }

  /** A path that starts with a slash does not depend on the current directory, and any other starts there. */
  lemma RelativeStartsThere(p: string, c: string, other: string)
    ensures p != [] && p[0] == '/' ==> Absolute(p, c) == Absolute(p, other)
    ensures (p == [] || p[0] != '/') && c != [] && c[0] == '/' ==> Absolute(p, c) == Absolute(c + "/" + p, other)
  {
  }

  /** A slash at the end changes nothing. */
  lemma SlashStays(d: string, c: string)
    requires d != []
    ensures Absolute(d + "/", c) == Absolute(d, c)
  {
    hide Walk, Skip, NameEnd;
    assert d + "/" == d + [SLASH] + [];
    FullNameOfJoin([], d, c);
    TokensOfJoin(FullName(d, c), []);
    assert Tokens([]) == [];
    assert Tokens(FullName(d, c)) + [] == Tokens(FullName(d, c));
  }

  /** A dot changes nothing. */
  lemma DotStays(d: string, c: string)
    requires d != []
    ensures Absolute(d + "/.", c) == Absolute(d, c)
  {
    hide Tokens, Walk, Absolute;
    assert d + "/." == d + [SLASH] + ".";
    NamesOfNext(d, ".", c);
    WalkOne(Tokens(Absolute(d, c)), ".");
  }

  /** Two dots take the last name away again, whatever comes before it. */
  lemma DotsUndo(d: string, t: string, c: string)
    requires d != [] && IsName(t) && t != "." && t != ".."
    ensures Absolute(d + [SLASH] + t + "/..", c) == Absolute(d, c)
  {
    hide Tokens, Walk, Absolute;
    var down := d + [SLASH] + t;
    assert d + [SLASH] + t + "/.." == down + [SLASH] + "..";
    NamesOfNext(d, t, c);
    NamesOfNext(down, "..", c);
    var ts := Tokens(Absolute(d, c));
    WalkOne(ts, t);
    WalkOne(ts + [t], "..");
    assert (ts + [t])[..|ts|] == ts;
  }

  /** So they lead from every directory to the one it is in. */
  lemma DotsGoUp(d: string, c: string)
    requires d != [] && Absolute(d, c) != "/"
    ensures var a := Absolute(d, c);
            exists up, t :: IsName(t) && a == (if up == "/" then [] else up) + [SLASH] + t && Canonical(up) &&
                Absolute(d + "/..", c) == up
  {
    hide Tokens, Walk, Absolute;
    var a, ts := Absolute(d, c), Tokens(Absolute(d, c));
    assert d + "/.." == d + [SLASH] + "..";
    NamesOfNext(d, "..", c);
    WalkOne(ts, "..");
    assert ts != [];
    var n := |ts| - 1;
    var up, t := Print(ts[..n]), ts[n];
    PrintIsCanonical(ts[..n]);
    PrintOfNone(up, ts[..n]);
    assert IsName(t) && a == (if up == "/" then [] else up) + [SLASH] + t;
  }

  // ---------------------------------------------------------------- sizes

  /** The characters of the names, each with a slash. */
  function Size(ts: seq<string>): nat {
    if ts == [] then 0 else Size(ts[..|ts| - 1]) + |ts[|ts| - 1]| + 1
  }

  lemma {:induction false} SizeCons(t: string, ts: seq<string>)
    ensures Size([t] + ts) == |t| + 1 + Size(ts)
  {
    if ts != [] {
      var n := |ts| - 1;
      SizeCons(t, ts[..n]);
      assert ([t] + ts)[..n + 1] == [t] + ts[..n];
    }
  }

  lemma {:induction false} PrintLength(ts: seq<string>)
    ensures |Print(ts)| == if ts == [] then 1 else Size(ts)
  {
    if |ts| > 1 {
      PrintLength(ts[..|ts| - 1]);
    }
  }

  lemma {:induction false} TokensSize(p: string, i: nat)
    requires i <= |p|
    ensures Size(TokensFrom(p, i)) <= |p| - i + 1
    ensures i < |p| && p[i] == SLASH ==> Size(TokensFrom(p, i)) <= |p| - i
    decreases |p| - i
  {
    var s := Skip(p, i);
    if s < |p| {
      var e := NameEnd(p, s);
      TokensSize(p, e);
      SizeCons(p[s..e], TokensFrom(p, e));
      if e == |p| {
        assert TokensFrom(p, e) == [];
      }
    }
  }

  lemma {:induction false} WalkSize(stack: seq<string>, ts: seq<string>)
    ensures Size(Walk(stack, ts)) <= Size(stack) + Size(ts)
    decreases |ts|
  {
    if ts != [] {
      WalkSize(Visit(stack, ts[0]), ts[1..]);
      SizeCons(ts[0], ts[1..]);
      assert [ts[0]] + ts[1..] == ts;
      assert (stack + [ts[0]])[..|stack|] == stack;
    }
  }

  /** With its terminator the absolute name fits in the len + 2 bytes that nh_absolute allocates. */
  lemma AbsoluteFits(name: string, cwd: string)
    ensures |Absolute(name, cwd)| + 1 <= |FullName(name, cwd)| + 2
  {
    var p := FullName(name, cwd);
    TokensSize(p, 0);
    WalkSize([], Tokens(p));
    PrintLength(Walk([], Tokens(p)));
  }
}

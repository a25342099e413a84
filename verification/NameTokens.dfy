/** The token arrays of lib/naming/namehash.c, in place: nh_pathtok, nh_squash, nh_compress, nh_tok2str
    and nh_absolute, step by step, each computing what NamePath says of strings. */
module NameTokens {
  import opened NamePath

  /** A char pointer in a token list. */
  datatype Token = NULL | Str(s: string)

  /** The list holds the names and ends with NULL. */
  ghost predicate Holds(names: seq<Token>, ts: seq<string>) {
    && |ts| < |names| && names[|ts|] == NULL
    && (forall i :: 0 <= i < |ts| ==> names[i] == Str(ts[i]))
  }

  /** The counting loop of nh_pathtok. */
  method CountTokens(path: string) returns (toks: nat)
    ensures toks == |Tokens(path)|
  {
    var inName := false;
    toks := 0;
    for i := 0 to |path|
      invariant toks + |TokensFrom(path, if inName then NameEnd(path, i) else i)| == |Tokens(path)|
    {
      if path[i] == SLASH && inName {
        inName := false;
      }
      if path[i] != SLASH && !inName {
        inName := true;
        toks := toks + 1;
      }
    }
  }

  /** The inner loop of nh_pathtok. */
  method SkipSlashes(path: string, from: nat) returns (i: nat)
    requires from <= |path|
    ensures i == Skip(path, from) && TokensFrom(path, i) == TokensFrom(path, from)
  {
    i := from;
    while i < |path| && path[i] == SLASH
      invariant i <= |path| && Skip(path, i) == Skip(path, from) && TokensFrom(path, i) == TokensFrom(path, from)
    {
      TokensPastSlash(path, i);
      i := i + 1;
    }
  }

  /** The count is right: the path does not end before the last name that was counted. */
  lemma MoreToCome(path: string, i: nat, ts: seq<string>, pos: nat)
    requires i <= |path| && pos < |ts| && TokensFrom(path, i) == ts[pos..]
    ensures i < |path|
  {
  }

  /** The name that starts at i, and where to go on. */
  lemma NextToken(path: string, i: nat, ts: seq<string>, pos: nat)
    requires i < |path| && path[i] != SLASH && pos < |ts| && TokensFrom(path, i) == ts[pos..]
    ensures var e := NameEnd(path, i);
            path[i..e] == ts[pos] && TokensFrom(path, if e == |path| then e else e + 1) == ts[pos + 1..]
  {
    var e := NameEnd(path, i);
    assert TokensFrom(path, i)[0] == path[i..e] && TokensFrom(path, i)[1..] == TokensFrom(path, e);
    assert ts[pos..][1..] == ts[pos + 1..];
  }

  /** nh_pathtok */
  method nh_pathtok(path: string) returns (list: array<Token>)
    ensures fresh(list) && Holds(list[..], Tokens(path))
  {
    hide TokensFrom, NameEnd;
    var toks := CountTokens(path);
    list := new Token[toks + 1](_ => NULL);
    ghost var ts := Tokens(path);
    var i, pos := 0, 0;
    while pos < toks
      invariant pos <= toks == |ts| && i <= |path| && TokensFrom(path, i) == ts[pos..]
      invariant forall k :: 0 <= k < pos ==> list[k] == Str(ts[k])
    {
      i := SkipSlashes(path, i);
      MoreToCome(path, i, ts, pos);
      if i == |path| {
        break;
      }
      NextToken(path, i, ts, pos);
      var next := NameEnd(path, i);
      list[pos] := Str(path[i..next]);
      i := if next == |path| then next else next + 1;
      pos := pos + 1;
    }
    list[pos] := NULL;
  }

  /** The names without `count` of them that end at `start`, as far as there are that many. */
  function Squashed(ts: seq<string>, start: nat, count: nat): seq<string>
    requires start < |ts|
  {
    (if start + 1 <= count then [] else ts[..start + 1 - count]) + ts[start + 1..]
  }

  /** nh_squash: `count` names that end at `start` go, as far as there are that many. */
  method nh_squash(names: array<Token>, start: nat, total: nat, count: nat, ghost ts: seq<string>)
    requires Holds(names[..], ts) && total == |ts| && start < total && 1 <= count
    modifies names
    ensures Holds(names[..], Squashed(ts, start, count))
    ensures var from := if start + 1 < count then 0 else start + 1 - count;
            && (forall k :: 0 <= k < from ==> names[k] == old(names[k]))
            && (forall k :: from <= k <= total - (start + 1 - from) ==> names[k] == old(names[k + (start + 1 - from)]))
  {
    hide Holds, Squashed;
    ghost var before := names[..];
    HoldsLength(before, ts);
    var m1 := if start < count - 1 then 0 else start - (count - 1);
    var m2 := if start + 1 > total then total else start + 1;
    var mcount := total - m2 + 1;
    forall k | m1 <= k < m1 + mcount {
      names[k] := names[k + (m2 - m1)];
    }
    SquashHolds(before, names[..], ts, start, count);
  }

  lemma HoldsLength(names: seq<Token>, ts: seq<string>)
    requires Holds(names, ts)
    ensures |ts| < |names|
  {
  }

  /** The tokens behind the gap have moved down over it. */
  ghost predicate Squeezed(before: seq<Token>, after: seq<Token>, start: nat, total: nat, count: nat)
    requires start < total < |before| == |after|
  {
    var from := if start + 1 < count then 0 else start + 1 - count;
    && (forall k :: 0 <= k < from ==> after[k] == before[k])
    && (forall k :: from <= k <= total - (start + 1 - from) ==> after[k] == before[k + (start + 1 - from)])
  }

  lemma SquashHolds(before: seq<Token>, after: seq<Token>, ts: seq<string>, start: nat, count: nat)
    requires Holds(before, ts) && start < |ts| && 1 <= count && |before| == |after| && |ts| < |before|
    requires Squeezed(before, after, start, |ts|, count)
    ensures Holds(after, Squashed(ts, start, count))
  {
    var r := Squashed(ts, start, count);
    var from := if start + 1 < count then 0 else start + 1 - count;
    assert |r| == |ts| - (start + 1 - from);
    forall i | 0 <= i < |r| ensures after[i] == Str(r[i]) {
      assert after[i] == before[if i < from then i else i + (start + 1 - from)];
    }
    assert after[|r|] == before[|ts|];
  }

  /** What one round of nh_compress does to the names before and after its position. */
  lemma VisitSquashes(stack: seq<string>, rest: seq<string>)
    requires rest != []
    ensures var all, cur, t := stack + rest, |stack|, rest[0];
            var after := Visit(stack, t) + rest[1..];
            && (t == "." ==> Squashed(all, cur, 1) == after)
            && (t == ".." ==> Squashed(all, cur, 2) == after)
            && (t != "." && t != ".." ==> all == after)
    ensures |Visit(stack, rest[0])| == if rest[0] == "." || (rest[0] == ".." && stack == []) then |stack|
                                       else if rest[0] == ".." then |stack| - 1 else |stack| + 1
    ensures Walk(Visit(stack, rest[0]), rest[1..]) == Walk(stack, rest)
  {
  }

  /** nh_compress: one pass over the list walks the path. */
  method nh_compress(names: array<Token>, ghost ts: seq<string>)
    requires Holds(names[..], ts)
    modifies names
    ensures Holds(names[..], Walk([], ts))
  {
    hide Walk, Visit;
    var num := CountNames(names, ts);
    var cur := 0;
    ghost var stack, rest := [], ts;
    assert [] + ts == ts;
    while names[cur] != NULL
      invariant cur == |stack| && num == |stack| + |rest| && Holds(names[..], stack + rest)
      invariant Walk(stack, rest) == Walk([], ts)
      decreases |rest|
    {
      assert names[..][cur] == Str((stack + rest)[cur]);
      WalkStep(stack, rest);
      cur, num := CompressOne(names, cur, num, stack, rest);
      stack, rest := Visit(stack, rest[0]), rest[1..];
    }
    assert names[..][cur] == NULL;
    WalkDone(stack, rest);
  }

  /** One round of the pass. */
  method CompressOne(names: array<Token>, cur: nat, num: nat, ghost stack: seq<string>, ghost rest: seq<string>)
    returns (next: nat, left: nat)
    requires rest != [] && cur == |stack| && num == |stack| + |rest| && Holds(names[..], stack + rest)
    modifies names
    ensures next == |Visit(stack, rest[0])| && left == next + |rest| - 1
    ensures Holds(names[..], Visit(stack, rest[0]) + rest[1..])
  {
    hide Visit, Squashed, Holds;
    next, left := cur, num;
    ghost var all := stack + rest;
    NameAt(names[..], all, cur);
    VisitSquashes(stack, rest);
    if names[cur].s == "." {
      nh_squash(names, cur, num, 1, all);
      left := num - 1;
    } else if names[cur].s == ".." {
      nh_squash(names, cur, num, 2, all);
      if cur > 0 {
        left := num - 2;
        next := cur - 1;
      } else {
        left := num - 1;
      }
    } else {
      next := cur + 1;
    }
  }

  lemma NameAt(names: seq<Token>, ts: seq<string>, i: nat)
    requires Holds(names, ts) && i < |ts|
    ensures i < |names| && names[i] == Str(ts[i])
  {
  }

  lemma WalkStep(stack: seq<string>, rest: seq<string>)
    requires rest != []
    ensures Walk(Visit(stack, rest[0]), rest[1..]) == Walk(stack, rest)
  {
  }

  lemma WalkDone(stack: seq<string>, rest: seq<string>)
    ensures rest == [] ==> Walk(stack, rest) == stack == stack + rest
  {
  }

  /** The counting loop of nh_compress. */
  method CountNames(names: array<Token>, ghost ts: seq<string>) returns (num: nat)
    requires Holds(names[..], ts)
    ensures num == |ts|
  {
    num := 0;
    while names[num] != NULL
      invariant num <= |ts|
      decreases |ts| - num
    {
      assert names[..][num] == names[num];
      num := num + 1;
    }
    assert forall k :: 0 <= k < |ts| ==> names[..][k] != NULL;
  }

  /** strcat, with the position of the terminator. */
  method strcat(buf: array<char>, at: nat, s: string) returns (end: nat)
    requires at + |s| < buf.Length
    modifies buf
    ensures end == at + |s| && buf[..end] == old(buf[..at]) + s && buf[end] == '\0'
  {
    forall k | 0 <= k < |s| {
      buf[at + k] := s[k];
    }
    end := at + |s|;
    assert forall k :: 0 <= k < |s| ==> buf[..end][at + k] == s[k];
    assert buf[..end] == old(buf[..at]) + s;
    ghost var done := buf[..end];
    buf[end] := '\0';
    assert buf[..end] == done;
  }

  /** nh_tok2str */
  method nh_tok2str(buf: array<char>, tokens: array<Token>, ghost ts: seq<string>) returns (end: nat)
    requires Holds(tokens[..], ts) && |Print(ts)| < buf.Length
    modifies buf
    ensures end == |Print(ts)| && buf[..end] == Print(ts) && buf[end] == '\0'
  {
    end := strcat(buf, 0, [SLASH]);
    var i := 0;
    while tokens[i] != NULL
      invariant i <= |ts| && end < buf.Length && buf[..end] == Print(ts[..i]) && buf[end] == '\0'
      decreases |ts| - i
    {
      assert tokens[..][i] == Str(ts[i]);
      PrintStep(ts, i);
      if i != 0 {
        end := strcat(buf, end, [SLASH]);
      }
      end := strcat(buf, end, tokens[i].s);
      i := i + 1;
    }
    assert tokens[..][i] == NULL;
    assert ts[..i] == ts;
  }

  lemma PrintStep(ts: seq<string>, i: nat)
    requires i < |ts|
    ensures Print(ts[..i + 1]) == (if i == 0 then [SLASH] else Print(ts[..i]) + [SLASH]) + ts[i]
    ensures |Print(ts[..i + 1])| <= |Print(ts)|
  {
    assert ts[..i + 1][..i] == ts[..i];
    PrintPrefix(ts, i + 1);
  }

  lemma {:induction false} PrintPrefix(ts: seq<string>, n: nat)
    requires n <= |ts|
    ensures |Print(ts[..n])| <= |Print(ts)|
  {
    if n < |ts| {
      assert ts[..|ts| - 1][..n] == ts[..n];
      PrintPrefix(ts[..|ts| - 1], n);
    } else {
      assert ts[..n] == ts;
    }
  }

  /** nh_absolute, which allocates len + 2 bytes for its result. */
  method nh_absolute(name: string, cwd: string) returns (absolute: string)
    ensures absolute == Absolute(name, cwd)
  {
    var len := |name|;
    var full_name := name;
    if name == [] || name[0] != SLASH {
      len := len + |cwd| + 1;
      full_name := cwd + [SLASH] + name;
    }
    var tokens := nh_pathtok(full_name);
    ghost var ts := Tokens(full_name);
    nh_compress(tokens, ts);
    AbsoluteFits(name, cwd);
    var buf := new char[len + 2];
    var end := nh_tok2str(buf, tokens, Walk([], ts));
    absolute := buf[..end];
  }
}

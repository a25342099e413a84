/** The procedure table of an object (kernel/src/objects.c), packed into fixed arrays. */
module PdxTables {
  import opened Sequences

  const O_MAX_PDX: nat := 16
  const O_MAX_ENTPT: nat := 192

  type Passwd = nat
  type Proc = nat

  datatype Cap = Cap(address: nat, passwd: Passwd)

  const NULL_CAP := Cap(0, 0)

  /** What the arrays represent: an ordered list of these. */
  datatype Procedure = Procedure(passwd: Passwd, clist: Cap, entries: seq<Proc>)

  /** All entry points, list after list. */
  function Flat(l: seq<Procedure>): seq<Proc> {
    if l == [] then [] else Flat(l[..|l| - 1]) + l[|l| - 1].entries
  }

  /** Where the entry points of procedure i start. */
  function Offset(l: seq<Procedure>, i: nat): nat
    requires i <= |l|
  {
    |Flat(l[..i])|
  }

  ghost predicate DistinctPasswords(l: seq<Procedure>) {
    forall i, j :: 0 <= i < j < |l| ==> l[i].passwd != l[j].passwd
  }

  /** The position of a password, or |l|. */
  function Slot(l: seq<Procedure>, passwd: Passwd): (i: nat)
    ensures i <= |l|
    ensures forall j :: 0 <= j < i ==> l[j].passwd != passwd
    ensures i < |l| ==> l[i].passwd == passwd
  {
    if l == [] || l[0].passwd == passwd then 0 else 1 + Slot(l[1..], passwd)
  }

  function Dropped(l: seq<Procedure>, passwd: Passwd): seq<Procedure> {
    var i := Slot(l, passwd);
    if i < |l| then RemovedAt(l, i) else l
  }

  /** The object that the table belongs to takes entry points in this range, both ends included. */
  predicate AllInside(entries: seq<Proc>, base: nat, end: nat) {
    forall i :: 0 <= i < |entries| ==> base <= entries[i] <= end
  }

  datatype Registered = Registered(ok: bool, list: seq<Procedure>)

  /** object_pdx: the old procedure with the password goes first, and stays away when the new one is
      refused. */
  function Register(l: seq<Procedure>, p: Procedure, base: nat, end: nat): Registered {
    var rest := Dropped(l, p.passwd);
    if |rest| >= O_MAX_PDX then Registered(false, rest)
    else if p.entries == [] then Registered(true, rest)
    else if |Flat(rest)| + |p.entries| >= O_MAX_ENTPT || !AllInside(p.entries, base, end) then Registered(false, rest)
    else Registered(true, rest + [p])
  }

  /** What fits in the arrays. */
  ghost predicate Fits(l: seq<Procedure>) {
    |l| <= O_MAX_PDX && |Flat(l)| < O_MAX_ENTPT && DistinctPasswords(l)
  }

  // ---------------------------------------------------------------- flattening

  lemma {:induction false} FlatConcat(a: seq<Procedure>, b: seq<Procedure>)
    ensures Flat(a + b) == Flat(a) + Flat(b)
  {
    if b == [] {
      assert a + b == a;
    } else {
      assert (a + b)[..|a + b| - 1] == a + b[..|b| - 1];
      FlatConcat(a, b[..|b| - 1]);
    }
  }

  /** The entry points before procedure i, its own, and those after it. */
  lemma FlatAt(l: seq<Procedure>, i: nat)
    requires i < |l|
    ensures Flat(l) == Flat(l[..i]) + l[i].entries + Flat(l[i + 1..])
    ensures Offset(l, i + 1) == Offset(l, i) + |l[i].entries| <= |Flat(l)|
    ensures Flat(l)[Offset(l, i)..Offset(l, i + 1)] == l[i].entries
  {
    hide Flat;
    assert l == l[..i + 1] + l[i + 1..];
    FlatConcat(l[..i + 1], l[i + 1..]);
    LastOfFlat(l, i);
    MiddlePiece(Flat(l[..i]), l[i].entries, Flat(l[i + 1..]));
  }

  lemma LastOfFlat(l: seq<Procedure>, i: nat)
    requires i < |l|
    ensures Flat(l[..i + 1]) == Flat(l[..i]) + l[i].entries
  {
    assert l[..i + 1][..i] == l[..i];
  }

  lemma MiddlePiece<T>(a: seq<T>, b: seq<T>, c: seq<T>)
    ensures (a + b + c)[|a|..|a| + |b|] == b
  {
  }

  /** Taking procedure i out closes the gap in the entry points and moves the later offsets down. */
  lemma FlatRemoved(l: seq<Procedure>, i: nat)
    requires i < |l|
    ensures Flat(RemovedAt(l, i)) == Flat(l[..i]) + Flat(l[i + 1..])
    ensures Flat(l) == Flat(l[..i]) + l[i].entries + Flat(l[i + 1..])
  {
    FlatConcat(l[..i], l[i + 1..]);
    FlatAt(l, i);
  }

  lemma OffsetRemoved(l: seq<Procedure>, i: nat, j: nat)
    requires i < |l| && j < |l|
    ensures Offset(RemovedAt(l, i), j) == if j <= i then Offset(l, j) else Offset(l, j + 1) - |l[i].entries|
  {
    var r := RemovedAt(l, i);
    if j <= i {
      assert r[..j] == l[..j];
    } else {
      assert r[..j] == RemovedAt(l[..j + 1], i);
      FlatRemoved(l[..j + 1], i);
    }
  }

  lemma RemovedFits(l: seq<Procedure>, i: nat)
    requires Fits(l) && i < |l|
    ensures Fits(RemovedAt(l, i))
    ensures forall j :: 0 <= j < |l| - 1 ==> RemovedAt(l, i)[j].passwd != l[i].passwd
  {
    var r := RemovedAt(l, i);
    FlatRemoved(l, i);
    RemovedAtElements(l, i);
    hide RemovedAt, Flat;
    forall j, k | 0 <= j < k < |r| ensures r[j].passwd != r[k].passwd {
      assert r[j] == l[if j < i then j else j + 1] && r[k] == l[if k < i then k else k + 1];
    }
    forall j | 0 <= j < |r| ensures r[j].passwd != l[i].passwd {
      assert r[j] == l[if j < i then j else j + 1];
    }
  }

  lemma DroppedFits(l: seq<Procedure>, passwd: Passwd)
    requires Fits(l)
    ensures Fits(Dropped(l, passwd))
    ensures forall i :: 0 <= i < |Dropped(l, passwd)| ==> Dropped(l, passwd)[i].passwd != passwd
  {
    if Slot(l, passwd) < |l| {
      RemovedFits(l, Slot(l, passwd));
    }
  }

  /** Every table that object_pdx leaves fits, with distinct passwords. */
  lemma RegisterFits(l: seq<Procedure>, p: Procedure, base: nat, end: nat)
    requires Fits(l)
    ensures Fits(Register(l, p, base, end).list)
  {
    DroppedFits(l, p.passwd);
    var rest := Dropped(l, p.passwd);
    FlatConcat(rest, [p]);
    assert Flat([p]) == p.entries;
  }

  /** The procedure is in the list under the password. */
  ghost predicate Lists(l: seq<Procedure>, passwd: Passwd, proc: Proc) {
    exists i :: 0 <= i < |l| && l[i].passwd == passwd && proc in l[i].entries
  }

  /** What an object_pdx call does for lookups: those under other passwords are unaffected, and
      those under its own find the new entry points if it succeeded and nothing otherwise. */
  lemma RegisterLookup(l: seq<Procedure>, p: Procedure, base: nat, end: nat, passwd: Passwd, proc: Proc)
    requires Fits(l)
    ensures var r := Register(l, p, base, end);
            Lists(r.list, passwd, proc) <==>
            if passwd == p.passwd then r.ok && proc in p.entries else Lists(l, passwd, proc)
  {
    var rest, r := Dropped(l, p.passwd), Register(l, p, base, end);
    DroppedLookup(l, p.passwd, passwd, proc);
    if r.list != rest {
      if Lists(rest, passwd, proc) {
        var i :| 0 <= i < |rest| && rest[i].passwd == passwd && proc in rest[i].entries;
        assert r.list[i] == rest[i];
      }
      assert r.list[|rest|] == p;
    }
  }

  /** The procedures under other passwords, in order. */
  function Others(l: seq<Procedure>, passwd: Passwd): seq<Procedure> {
    if l == [] then []
    else (if l[0].passwd == passwd then [] else [l[0]]) + Others(l[1..], passwd)
  }

  /** How many entry points they have together. */
  function Total(l: seq<Procedure>): nat {
    if l == [] then 0 else |l[0].entries| + Total(l[1..])
  }

  lemma {:induction false} OthersAll(l: seq<Procedure>, passwd: Passwd)
    requires forall i :: 0 <= i < |l| ==> l[i].passwd != passwd
    ensures Others(l, passwd) == l
  {
    if l != [] {
      OthersAll(l[1..], passwd);
    }
  }

  /** With distinct passwords there is at most one to be left out. */
  lemma {:induction false} DroppedIsOthers(l: seq<Procedure>, passwd: Passwd)
    requires DistinctPasswords(l)
    ensures Dropped(l, passwd) == Others(l, passwd)
  {
    if l != [] {
      if l[0].passwd == passwd {
        OthersAll(l[1..], passwd);
        assert RemovedAt(l, 0) == l[1..];
      } else {
        DroppedIsOthers(l[1..], passwd);
        assert Slot(l, passwd) == 1 + Slot(l[1..], passwd);
        var i := Slot(l[1..], passwd);
        if i < |l| - 1 {
          assert RemovedAt(l, i + 1) == [l[0]] + RemovedAt(l[1..], i);
        }
      }
    }
  }

  lemma {:induction false} TotalIsFlat(l: seq<Procedure>)
    ensures Total(l) == |Flat(l)|
  {
    if l != [] {
      TotalIsFlat(l[1..]);
      assert l == [l[0]] + l[1..];
      FlatConcat([l[0]], l[1..]);
      assert Flat([l[0]]) == l[0].entries;
    }
  }

  /** When object_pdx succeeds: there is a slot left beside the procedures under other passwords, and either no
      entry points are given, or they fit beside theirs and all lie in the object. */
  ghost predicate Registrable(l: seq<Procedure>, p: Procedure, base: nat, end: nat) {
    var others := Others(l, p.passwd);
    && |others| < 16
    && (|p.entries| == 0 ||
        (Total(others) + |p.entries| < 192 && forall e :: e in p.entries ==> base <= e <= end))
  }

  /** The list afterwards: the other procedures as they were, and the new one at the end, if it succeeded and has
      entry points. */
  ghost predicate RegisteredIn(l: seq<Procedure>, p: Procedure, ok: bool, r: seq<Procedure>) {
    r == Others(l, p.passwd) + (if ok && p.entries != [] then [p] else [])
  }

  lemma InsideIs(entries: seq<Proc>, base: nat, end: nat)
    ensures AllInside(entries, base, end) <==> forall e :: e in entries ==> base <= e <= end
  {
    if AllInside(entries, base, end) {
      forall e | e in entries ensures base <= e <= end {
        var i :| 0 <= i < |entries| && entries[i] == e;
      }
    }
    if forall e :: e in entries ==> base <= e <= end {
      assert forall i :: 0 <= i < |entries| ==> entries[i] in entries;
    }
  }

  lemma RegisterMeans(l: seq<Procedure>, p: Procedure, base: nat, end: nat)
    requires Fits(l)
    ensures var r := Register(l, p, base, end);
            (r.ok <==> Registrable(l, p, base, end)) && RegisteredIn(l, p, r.ok, r.list)
  {
    hide Slot, Flat, Others, Dropped;
    DroppedIsOthers(l, p.passwd);
    TotalIsFlat(Others(l, p.passwd));
    assert Others(l, p.passwd) + [] == Others(l, p.passwd);
    InsideIs(p.entries, base, end);
  }

  lemma DroppedLookup(l: seq<Procedure>, gone: Passwd, passwd: Passwd, proc: Proc)
    requires Fits(l)
    ensures Lists(Dropped(l, gone), passwd, proc) <==> passwd != gone && Lists(l, passwd, proc)
  {
    DroppedFits(l, gone);
    var i, r := Slot(l, gone), Dropped(l, gone);
    if i < |l| {
      RemovedAtElements(l, i);
      if Lists(r, passwd, proc) {
        var j :| 0 <= j < |r| && r[j].passwd == passwd && proc in r[j].entries;
        assert r[j] == l[if j < i then j else j + 1];
      }
      if passwd != gone && Lists(l, passwd, proc) {
        var j :| 0 <= j < |l| && l[j].passwd == passwd && proc in l[j].entries;
        assert r[if j < i then j else j - 1] == l[j];
      }
    }
  }

  // ---------------------------------------------------------------- runs

  /** The table after a run of object_pdx calls on a new object. */
  function After(run: seq<Procedure>, base: nat, end: nat): seq<Procedure> {
    if run == [] then [] else Register(After(run[..|run| - 1], base, end), run[|run| - 1], base, end).list
  }

  /** Over every run the passwords stay distinct and everything fits in the arrays. */
  lemma {:induction false} RunsFit(run: seq<Procedure>, base: nat, end: nat)
    ensures Fits(After(run, base, end))
  {
    if run != [] {
      RunsFit(run[..|run| - 1], base, end);
      RegisterFits(After(run[..|run| - 1], base, end), run[|run| - 1], base, end);
    }
  }

  // ---------------------------------------------------------------- the arrays

  /** The arrays over slots, as values. */
  datatype Slots = Slots(clist: seq<Cap>, passwd: seq<Passwd>, n_entry: seq<int>, x_entry: seq<int>)

  /** All of them have a spare element, which kill_pdx_slot reads when all slots are in use. */
  ghost predicate Sized(t: Slots) {
    |t.clist| == |t.passwd| == |t.n_entry| == |t.x_entry| == O_MAX_PDX + 1
  }

  ghost predicate SlotHolds(t: Slots, l: seq<Procedure>, i: nat)
    requires Sized(t) && i < |l| && i <= O_MAX_PDX
  {
    && t.passwd[i] == l[i].passwd && t.clist[i] == l[i].clist
    && t.n_entry[i] == Offset(l, i) && t.x_entry[i] == Offset(l, i + 1)
  }

  /** Slots in use stand for the list; the others have an empty range. */
  ghost predicate Holds(t: Slots, l: seq<Procedure>) {
    && Sized(t) && |l| <= O_MAX_PDX
    && (forall i :: 0 <= i < |l| ==> SlotHolds(t, l, i))
    && (forall i :: |l| <= i <= O_MAX_PDX ==> t.n_entry[i] == t.x_entry[i])
  }

  /** What a slot in use says. */
  lemma SlotRange(t: Slots, l: seq<Procedure>, i: nat)
    requires Holds(t, l) && i < |l|
    ensures Sized(t) && |l| <= O_MAX_PDX && t.n_entry[i] == |Flat(l[..i])| && t.x_entry[i] == |Flat(l[..i + 1])|
    ensures t.x_entry[i] - t.n_entry[i] == |l[i].entries|
    ensures i + 1 == |l| ==> t.x_entry[i] == |Flat(l)|
  {
    assert SlotHolds(t, l, i);
    FlatAt(l, i);
    assert l[..|l|] == l;
  }

  lemma NothingListed(l: seq<Procedure>)
    ensures l == [] ==> Flat(l) == []
  {
  }

  lemma ListFits(l: seq<Procedure>)
    requires Fits(l)
    ensures |l| <= O_MAX_PDX && |Flat(l)| < O_MAX_ENTPT
  {
  }

  lemma NewFits(l: seq<Procedure>, p: Procedure)
    requires Fits(l) && |l| < O_MAX_PDX && |Flat(l)| + |p.entries| < O_MAX_ENTPT
    requires forall i :: 0 <= i < |l| ==> l[i].passwd != p.passwd
    ensures Fits(l + [p])
  {
    assert (l + [p])[..|l|] == l;
  }

  /** Slot i now holds what the next one held, with the range moved down. */
  ghost predicate MovedDown(t: Slots, t': Slots, i: nat, diff: int)
    requires Sized(t) && Sized(t') && i < O_MAX_PDX
  {
    && t'.clist[i] == t.clist[i + 1] && t'.passwd[i] == t.passwd[i + 1]
    && t'.n_entry[i] == t.n_entry[i + 1] - diff && t'.x_entry[i] == t.x_entry[i + 1] - diff
  }

  ghost predicate Kept(t: Slots, t': Slots, i: nat)
    requires Sized(t) && Sized(t') && i <= O_MAX_PDX
  {
    && t'.clist[i] == t.clist[i] && t'.passwd[i] == t.passwd[i]
    && t'.n_entry[i] == t.n_entry[i] && t'.x_entry[i] == t.x_entry[i]
  }

  /** The slots from the killed one up to a position have taken what the next ones held. */
  ghost predicate Closed(t: Slots, t': Slots, slot: nat, upto: nat, diff: int) {
    && Sized(t) && Sized(t') && slot <= upto <= O_MAX_PDX
    && (forall i :: slot <= i < upto ==> MovedDown(t, t', i, diff))
    && (forall i :: 0 <= i < slot ==> Kept(t, t', i))
    && (forall i :: upto <= i <= O_MAX_PDX ==> Kept(t, t', i))
  }

  lemma ClosedHolds(l: seq<Procedure>, t: Slots, t': Slots, slot: nat)
    requires Holds(t, l) && slot < |l| && Closed(t, t', slot, |l|, |l[slot].entries|)
    ensures Holds(t', RemovedAt(l, slot))
  {
    var r := RemovedAt(l, slot);
    forall i | 0 <= i < |r| ensures SlotHolds(t', r, i) {
      var j := if i < slot then i else i + 1;
      assert SlotHolds(t, l, j);
      assert if i < slot then Kept(t, t', i) else MovedDown(t, t', i, |l[slot].entries|);
      assert r[i] == l[j];
      OffsetRemoved(l, slot, i);
      OffsetRemoved(l, slot, i + 1);
      FlatAt(l, slot);
    }
    forall i | |r| <= i <= O_MAX_PDX ensures t'.n_entry[i] == t'.x_entry[i] {
      assert if i < |l| then MovedDown(t, t', i, |l[slot].entries|) else Kept(t, t', i);
    }
  }

  lemma CloseOne(t: Slots, u: Slots, u': Slots, slot: nat, i: nat, diff: int)
    requires Closed(t, u, slot, i, diff) && i < O_MAX_PDX && Sized(u') && MovedDown(u, u', i, diff)
    requires forall j :: 0 <= j <= O_MAX_PDX && j != i ==> Kept(u, u', j)
    ensures Closed(t, u', slot, i + 1, diff)
  {
    assert Kept(t, u, i + 1);
    forall j | slot <= j < i ensures MovedDown(t, u', j, diff) {
      assert MovedDown(t, u, j, diff) && Kept(u, u', j);
    }
    forall j | 0 <= j < slot || i < j <= O_MAX_PDX ensures Kept(t, u', j) {
      assert Kept(t, u, j) && Kept(u, u', j);
    }
  }

  /** The entry points behind a gap have moved down over it. */
  ghost predicate GapClosed(e: seq<Proc>, e': seq<Proc>, from: nat, diff: nat) {
    && from <= |e| == |e'| && e'[..from] == e[..from]
    && (forall i :: from <= i < |e| - diff ==> e'[i] == e[i + diff])
  }

  /** Moving the rest down over the gap takes the gap out of a prefix of the entry points. */
  lemma EntriesClosed(e: seq<Proc>, e': seq<Proc>, a: seq<Proc>, b: seq<Proc>, c: seq<Proc>)
    requires |e| == |e'| && |a| + |b| + |c| <= |e| && e[..|a| + |b| + |c|] == a + b + c
    requires GapClosed(e, e', |a|, |b|)
    ensures e'[..|a| + |c|] == a + c
  {
    forall i | 0 <= i < |a| + |c| ensures e'[i] == (a + c)[i] {
      if i < |a| {
        assert e'[i] == e'[..|a|][i] && e[..|a|][i] == (a + b + c)[i];
      } else {
        assert e[i + |b|] == (a + b + c)[i + |b|];
      }
    }
  }

  /** The private part of an object's information that holds the table. */
  class PdxTable {
    var n_pdx: nat
    const clist: array<Cap>
    const passwd: array<Passwd>
    const n_entry: array<int>
    const x_entry: array<int>
    const entry: array<Proc>
    ghost var list: seq<Procedure>

    ghost function Table(): Slots
      reads clist, passwd, n_entry, x_entry
    {
      Slots(clist[..], passwd[..], n_entry[..], x_entry[..])
    }

    ghost predicate Shaped()
      reads {}
    {
      && clist.Length == passwd.Length == n_entry.Length == x_entry.Length == O_MAX_PDX + 1
      && entry.Length == O_MAX_ENTPT && n_entry != x_entry && entry != passwd
    }

    ghost predicate Valid()
      reads this, clist, passwd, n_entry, x_entry, entry
    {
      && Shaped() && n_pdx == |list| && Fits(list) && Holds(Table(), list)
      && entry[..|Flat(list)|] == Flat(list)
    }

    constructor ()
      ensures Valid() && list == []
      ensures fresh(clist) && fresh(passwd) && fresh(n_entry) && fresh(x_entry) && fresh(entry)
    {
      clist := new Cap[O_MAX_PDX + 1](_ => NULL_CAP);
      passwd := new Passwd[O_MAX_PDX + 1](_ => 0);
      n_entry := new int[O_MAX_PDX + 1](_ => 0);
      x_entry := new int[O_MAX_PDX + 1](_ => 0);
      entry := new Proc[O_MAX_ENTPT](_ => 0);
      n_pdx, list := 0, [];
    }

    /** The first loop of kill_pdx_slot: the entry points after a gap move down over it. */
    method CloseEntries(from: nat, diff: nat)
      requires Shaped() && from + diff <= O_MAX_ENTPT
      modifies entry
      ensures GapClosed(old(entry[..]), entry[..], from, diff)
    {
      for i := from to O_MAX_ENTPT - diff
        invariant forall j :: from <= j < i ==> entry[j] == old(entry[j + diff])
        invariant forall j :: 0 <= j < from || i <= j < O_MAX_ENTPT ==> entry[j] == old(entry[j])
      {
        entry[i] := entry[i + diff];
      }
    }

    /** The second loop of kill_pdx_slot: the slots after the killed one move down over it. */
    method CloseSlots(slot: nat, diff: int)
      requires Shaped() && slot <= n_pdx <= O_MAX_PDX
      modifies clist, passwd, n_entry, x_entry
      ensures Closed(old(Table()), Table(), slot, n_pdx, diff)
    {
      ghost var t := Table();
      for i := slot to n_pdx
        invariant Closed(t, Table(), slot, i, diff)
      {
        ghost var before := Table();
        assert Kept(t, before, i) && Kept(t, before, i + 1);
        n_entry[i] := n_entry[i + 1] - diff;
        x_entry[i] := x_entry[i + 1] - diff;
        clist[i] := clist[i + 1];
        passwd[i] := passwd[i + 1];
        CloseOne(t, before, Table(), slot, i, diff);
      }
    }

    /** kill_pdx_slot */
    method kill_pdx_slot(slot: nat)
      requires Valid() && slot < n_pdx
      modifies this, clist, passwd, n_entry, x_entry, entry
      ensures Valid() && list == RemovedAt(old(list), slot)
    {
      hide Holds, Fits, Flat, RemovedAt, Closed, DistinctPasswords, GapClosed;
      ghost var l, t := list, Table();
      ghost var e := entry[..];
      SlotRange(t, l, slot);
      FlatAt(l, slot);
      FlatRemoved(l, slot);
      RemovedFits(l, slot);
      ListFits(l);
      var diff := x_entry[slot] - n_entry[slot];
      CloseEntries(n_entry[slot], diff);
      CloseSlots(slot, diff);
      ClosedHolds(l, t, Table(), slot);
      EntriesClosed(e, entry[..], Flat(l[..slot]), l[slot].entries, Flat(l[slot + 1..]));
      list := RemovedAt(l, slot);
      n_pdx := n_pdx - 1;
    }

    /** set_pdx_slot at the first unused slot. When it fails no procedure has changed, although some
        of the entry points may have been copied. */
    method set_pdx_slot(slot: nat, p: Procedure, base: nat, end: nat) returns (ok: bool)
      requires Valid() && slot == n_pdx < O_MAX_PDX
      requires forall i :: 0 <= i < |list| ==> list[i].passwd != p.passwd
      modifies this, clist, passwd, n_entry, x_entry, entry
      ensures Valid()
      ensures ok <==> |Flat(old(list))| + |p.entries| < O_MAX_ENTPT && AllInside(p.entries, base, end)
      ensures list == if ok then old(list) + [p] else old(list)
    {
      hide Holds, Flat, DistinctPasswords;
      ghost var l, t := list, Table();
      var next := 0;
      if slot > 0 {
        SlotRange(t, l, slot - 1);
        next := x_entry[slot - 1];
      }
      NothingListed(l);
      if next + |p.entries| >= O_MAX_ENTPT {
        return false;
      }
      var inside := CopyEntries(next, p.entries, base, end);
      if !inside {
        return false;
      }
      NewFits(l, p);
      n_entry[slot], x_entry[slot] := next, next + |p.entries|;
      clist[slot], passwd[slot] := p.clist, p.passwd;
      AppendedHolds(l, p, t, Table());
      list, n_pdx, ok := l + [p], n_pdx + 1, true;
    }

    /** The copying loop of set_pdx_slot: it stops at an entry point outside the object. */
    method CopyEntries(next: nat, entries: seq<Proc>, base: nat, end: nat) returns (inside: bool)
      requires Shaped() && next + |entries| <= O_MAX_ENTPT
      modifies entry
      ensures entry[..next] == old(entry[..next])
      ensures inside <==> AllInside(entries, base, end)
      ensures inside ==> entry[next..next + |entries|] == entries
    {
      for j := 0 to |entries|
        invariant entry[..next] == old(entry[..next])
        invariant AllInside(entries[..j], base, end)
        invariant entry[next..next + j] == entries[..j]
      {
        if entries[j] < base || entries[j] > end {
          return false;
        }
        entry[next + j] := entries[j];
        assert entries[..j + 1] == entries[..j] + [entries[j]];
      }
      assert entries[..|entries|] == entries;
      inside := true;
    }

    /** object_pdx */
    method object_pdx(p: Procedure, base: nat, end: nat) returns (ok: bool)
      requires Valid()
      modifies this, clist, passwd, n_entry, x_entry, entry
      ensures Valid()
      ensures ok == Register(old(list), p, base, end).ok && list == Register(old(list), p, base, end).list
      ensures ok <==> Registrable(old(list), p, base, end)
      ensures RegisteredIn(old(list), p, ok, list)
    {
      hide Registrable, RegisteredIn, Register, Holds, Flat;
      RegisterMeans(list, p, base, end);
      ok := Replace(p, base, end);
    }

    /** The steps of object_pdx. */
    method Replace(p: Procedure, base: nat, end: nat) returns (ok: bool)
      requires Valid()
      modifies this, clist, passwd, n_entry, x_entry, entry
      ensures Valid()
      ensures ok == Register(old(list), p, base, end).ok && list == Register(old(list), p, base, end).list
    {
      hide Fits, Holds, Flat, RemovedAt, Slot, AllInside;
      ghost var l := list;
      DroppedFits(l, p.passwd);
      var i := FindSlot(p.passwd);
      if i < n_pdx {
        kill_pdx_slot(i);
      }
      assert list == Dropped(l, p.passwd);
      if n_pdx >= O_MAX_PDX {
        return false;
      }
      if p.entries == [] {
        return true;
      }
      ok := set_pdx_slot(n_pdx, p, base, end);
    }

    /** The search loop of object_pdx. */
    method FindSlot(pw: Passwd) returns (i: nat)
      requires Valid()
      ensures i == Slot(list, pw)
    {
      i := 0;
      while i < n_pdx
        invariant i <= n_pdx
        invariant forall j :: 0 <= j < i ==> list[j].passwd != pw
      {
        assert SlotHolds(Table(), list, i);
        if passwd[i] == pw {
          break;
        }
        i := i + 1;
      }
      SlotIs(list, pw, i);
    }

    /** do_validate_passwd_pdx: the slot that lists the entry point under the password. */
    method FindProcedure(pw: Passwd, proc: Proc) returns (found: bool, slot: nat)
      requires Valid()
      ensures found <==> Lists(list, pw, proc)
      ensures found ==> slot == Slot(list, pw) < |list| && proc in list[slot].entries
    {
      for i := 0 to n_pdx
        invariant forall k :: 0 <= k < i && list[k].passwd == pw ==> proc !in list[k].entries
      {
        assert SlotHolds(Table(), list, i);
        if passwd[i] == pw {
          var there := InRange(i, proc);
          if there {
            SlotIs(list, pw, i);
            return true, i;
          }
        }
      }
      found, slot := false, 0;
    }

    /** The inner loop of the lookups: is the entry point in the range of the slot? */
    method InRange(i: nat, proc: Proc) returns (found: bool)
      requires Valid() && i < O_MAX_PDX
      ensures found <==> i < |list| && proc in list[i].entries
    {
      hide Fits, Flat, SlotHolds;
      ghost var es := [];
      if i < |list| {
        es := list[i].entries;
        SlotRange(Table(), list, i);
        ListFits(list);
        EntriesAt(list, i, entry[..]);
      } else {
        assert Table().n_entry[i] == Table().x_entry[i];
      }
      var from := n_entry[i];
      for j := from to x_entry[i]
        invariant proc !in es[..j - from]
      {
        assert entry[j] == es[j - from];
        assert es[..j + 1 - from] == es[..j - from] + [es[j - from]];
        if entry[j] == proc {
          return true;
        }
      }
      assert es[..|es|] == es;
      found := false;
    }

    /** object_pdx_get_clist. It looks at all slots, also those not in use, and still finds the
        capability list of exactly the procedures in the table. */
    method object_pdx_get_clist(proc: Proc, pw: Passwd) returns (cap: Cap)
      requires Valid()
      ensures cap == if Lists(list, pw, proc) then Cap(list[Slot(list, pw)].clist.address, pw) else NULL_CAP
    {
      cap := NULL_CAP;
      for i := 0 to O_MAX_PDX
        invariant cap == if ListsUpTo(list, i, pw, proc) then Cap(list[Slot(list, pw)].clist.address, pw) else NULL_CAP
      {
        if passwd[i] == pw {
          var there := InRange(i, proc);
          if there {
            assert SlotHolds(Table(), list, i);
            SlotIs(list, pw, i);
            cap := Cap(clist[i].address, pw);
          }
        } else if i < |list| {
          assert SlotHolds(Table(), list, i);
        }
      }
    }
  }

  /** The same among the first n procedures. */
  ghost predicate ListsUpTo(l: seq<Procedure>, n: nat, passwd: Passwd, proc: Proc) {
    exists i :: 0 <= i < n && i < |l| && l[i].passwd == passwd && proc in l[i].entries
  }

  /** Where the entry points of procedure i are in the array. */
  lemma EntriesAt(l: seq<Procedure>, i: nat, e: seq<Proc>)
    requires i < |l| && |Flat(l)| <= |e| && e[..|Flat(l)|] == Flat(l)
    ensures 0 <= Offset(l, i) <= Offset(l, i + 1) <= |e| && e[Offset(l, i)..Offset(l, i + 1)] == l[i].entries
  {
    FlatAt(l, i);
    assert e[Offset(l, i)..Offset(l, i + 1)] == e[..|Flat(l)|][Offset(l, i)..Offset(l, i + 1)];
  }

  /** The new procedure is in the first unused slot and the rest is as before. */
  lemma AppendedHolds(l: seq<Procedure>, p: Procedure, t: Slots, t': Slots)
    requires Holds(t, l) && Sized(t') && |l| < O_MAX_PDX
    requires t'.passwd[|l|] == p.passwd && t'.clist[|l|] == p.clist
    requires t'.n_entry[|l|] == |Flat(l)| && t'.x_entry[|l|] == |Flat(l)| + |p.entries|
    requires forall i :: 0 <= i <= O_MAX_PDX && i != |l| ==> Kept(t, t', i)
    ensures Holds(t', l + [p]) && Flat(l + [p]) == Flat(l) + p.entries
  {
    var r := l + [p];
    assert r[..|l|] == l && r[..|r|] == r;
    forall i | 0 <= i < |r| ensures SlotHolds(t', r, i) {
      if i < |l| {
        assert r[..i] == l[..i] && r[..i + 1] == l[..i + 1];
        assert SlotHolds(t, l, i) && Kept(t, t', i);
      }
    }
    forall i | |r| <= i <= O_MAX_PDX ensures t'.n_entry[i] == t'.x_entry[i] {
      assert Kept(t, t', i);
    }
  }

  lemma {:induction false} SlotIs(l: seq<Procedure>, pw: Passwd, i: nat)
    requires i <= |l|
    requires i < |l| ==> l[i].passwd == pw
    requires forall j :: 0 <= j < i ==> l[j].passwd != pw
    ensures Slot(l, pw) == i
  {
    if i > 0 {
      SlotIs(l[1..], pw, i - 1);
    }
  }
}

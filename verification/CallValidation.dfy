/** The validation cache and procedure calls (accesses with M_PDX). */
module CallValidation {
  import opened Extents
  import opened VCaches
  import opened Validation
  import PdxTables

  /** A capability of the APD names the object, with a password under which the procedure is listed. */
  ghost predicate Calls(w: World, obj: Extent, proc: nat, i: nat, j: nat) {
    && i < |w.clists| && w.clists[i].CapList? && j < |w.clists[i].caps|
    && Matches(obj, w.clists[i].caps[j].address)
    && obj in w.prot && Lists(w.prot[obj], w.clists[i].caps[j].passwd, proc)
  }

  ghost predicate Callable(w: World, obj: Extent, proc: nat) {
    exists i, j :: Calls(w, obj, proc, i, j)
  }

  predicate IsCall(q: Query) {
    q.access & M_PDX != 0 && Askable(q.access)
  }

  // ---------------------------------------------------------------- the scan

  lemma {:induction false} ScanFinds(w: World, obj: Extent, i: nat, j: nat, q: Query, a: nat, b: nat)
    requires Sane(w) && IsCall(q) && Calls(w, obj, q.addr, a, b)
    requires i < a || (i == a && j <= b)
    ensures Scanned(w, obj, i, j, q).Granted?
    decreases |w.clists| - i, if i < |w.clists| && w.clists[i].CapList? then |w.clists[i].caps| - j else 0
  {
    if w.clists[i].NoList? || j >= |w.clists[i].caps| {
      ScanFinds(w, obj, i + 1, 0, q, a, b);
    } else if !Matches(obj, w.clists[i].caps[j].address) || !Lists(w.prot[obj], w.clists[i].caps[j].passwd, q.addr) {
      ScanFinds(w, obj, i, j + 1, q, a, b);
    }
  }

  lemma {:induction false} FoundCalls(w: World, obj: Extent, i: nat, j: nat, q: Query)
    requires Sane(w) && IsCall(q) && obj in w.prot && Scanned(w, obj, i, j, q).Granted?
    ensures var g := Scanned(w, obj, i, j, q);
            Calls(w, obj, q.addr, g.cap.list, g.cap.index) && g.access == q.access && Matches(obj, g.cap.cap.address)
    decreases |w.clists| - i, if i < |w.clists| && w.clists[i].CapList? then |w.clists[i].caps| - j else 0
  {
    if w.clists[i].NoList? || j >= |w.clists[i].caps| {
      FoundCalls(w, obj, i + 1, 0, q);
    } else if !Matches(obj, w.clists[i].caps[j].address) || !Lists(w.prot[obj], w.clists[i].caps[j].passwd, q.addr) {
      FoundCalls(w, obj, i, j + 1, q);
    }
  }

  /** The capability is before another one in the order of the scan. */
  predicate Before(a: nat, b: nat, i: nat, j: nat) {
    a < i || (a == i && b < j)
  }

  /** Which capability grants a call: the first one that can, from a position on; and the slot is that of its
      password. A call is never refused outright. */
  lemma {:induction false} FirstCaller(w: World, obj: Extent, i: nat, j: nat, q: Query)
    requires Sane(w) && IsCall(q) && obj in w.prot
    ensures var g := Scanned(w, obj, i, j, q);
            && !g.Refused?
            && (g.Granted? ==>
                  && Calls(w, obj, q.addr, g.cap.list, g.cap.index)
                  && g.cap.cap == w.clists[g.cap.list].caps[g.cap.index]
                  && (forall a: nat, b: nat :: !Before(a, b, i, j) && Before(a, b, g.cap.list, g.cap.index) ==>
                      !Calls(w, obj, q.addr, a, b))
                  && RightSlot(w.prot[obj].pdx, g.pdxSlot, g.cap.cap.passwd, q.addr))
    decreases |w.clists| - i, if i < |w.clists| && w.clists[i].CapList? then |w.clists[i].caps| - j else 0
  {
    hide RightSlot;
    if i < |w.clists| {
      if w.clists[i].NoList? || j >= |w.clists[i].caps| {
        FirstCaller(w, obj, i + 1, 0, q);
      } else {
        var cap := w.clists[i].caps[j];
        if !Matches(obj, cap.address) || !Lists(w.prot[obj], cap.passwd, q.addr) {
          FirstCaller(w, obj, i, j + 1, q);
        } else {
          SlotIsRight(w.prot[obj].pdx, cap.passwd, q.addr);
        }
      }
    }
  }

  /** The slot holds a procedure with the password, and when passwords are distinct one that has the entry point. */
  ghost predicate RightSlot(l: seq<PdxTables.Procedure>, slot: int, pw: Passwd, proc: nat) {
    && 0 <= slot < |l| && l[slot].passwd == pw
    && (PdxTables.DistinctPasswords(l) ==> proc in l[slot].entries)
  }

  lemma SlotIsRight(l: seq<PdxTables.Procedure>, pw: Passwd, proc: nat)
    requires PdxTables.Lists(l, pw, proc)
    ensures RightSlot(l, PdxTables.Slot(l, pw), pw, proc)
  {
    var k :| 0 <= k < |l| && l[k].passwd == pw && proc in l[k].entries;
    var s := PdxTables.Slot(l, pw);
    assert s <= k;
  }

  /** The scan grants a call exactly when some capability of the APD names the object that the procedure is
      in, with a password under which it is listed. */
  lemma ScanMeans(w: World, q: Query)
    requires Sane(w) && IsCall(q)
    ensures Slow(w, q).Granted? <==> Scan(w.objs, q.addr) != [] && Callable(w, Scan(w.objs, q.addr)[0], q.addr)
  {
    var r := Scan(w.objs, q.addr);
    if r != [] {
      var obj := r[0];
      assert obj in w.prot;
      if Callable(w, obj, q.addr) {
        var i, j :| Calls(w, obj, q.addr, i, j);
        ScanFinds(w, obj, 0, 0, q, i, j);
      }
      if Slow(w, q).Granted? {
        FoundCalls(w, obj, 0, 0, q);
      }
    }
  }

  // ---------------------------------------------------------------- what is cached

  /** The scan grants some call on the object through a capability with this address. */
  ghost predicate GrantsAt(w: World, obj: Extent, a: nat)
    requires Sane(w)
  {
    exists q :: GrantsCall(w, obj, a, q)
  }

  ghost predicate GrantsCall(w: World, obj: Extent, a: nat, q: Query)
    requires Sane(w)
  {
    IsCall(q) && Scan(w.objs, q.addr) == [obj] && Slow(w, q).Granted? && Slow(w, q).cap.cap.address == a
  }

  ghost predicate CallEntry(w: World, e: Entry, i: Info)
    requires Sane(w)
  {
    e.base == e.limit && e.base != 0 ==> i.obj in w.objs && Matches(i.obj, e.base) && GrantsAt(w, i.obj, e.base)
  }

  ghost predicate CallsBacked(w: World, c: Cache)
    requires Sane(w)
  {
    VCaches.Sized(c) && forall i :: 0 <= i < VCACHE_SIZE ==> CallEntry(w, c.entries[i], c.infos[i])
  }

  lemma DropKeepsCalls(w: World, c: Cache, r: Cache)
    requires Sane(w) && CallsBacked(w, c) && VCaches.Sized(r) && r.infos == c.infos
    requires forall i :: 0 <= i < VCACHE_SIZE ==> r.entries[i] == c.entries[i] || r.entries[i] == EMPTY
    ensures CallsBacked(w, r)
  {
    forall i | 0 <= i < VCACHE_SIZE ensures CallEntry(w, r.entries[i], r.infos[i]) {
      assert CallEntry(w, c.entries[i], c.infos[i]);
    }
  }

  /** What is added after a scan. */
  lemma NewCallEntry(w: World, q: Query, later: Time)
    requires Sane(w) && Askable(q.access) && Slow(w, q).Granted?
    ensures var s, obj := Slow(w, q), Scan(w.objs, q.addr)[0];
            CallEntry(w, RangeOf(obj, s.access, s.cap), Info(later, s.access, obj, s.cap, s.pdxSlot))
  {
    var s, obj := Slow(w, q), Scan(w.objs, q.addr)[0];
    assert obj in w.prot && obj.base < obj.end;
    if q.access & M_PDX == 0 {
      GrantedEntitles(w, obj, 0, 0, q);
    } else {
      FoundCalls(w, obj, 0, 0, q);
      assert GrantsCall(w, obj, s.cap.cap.address, q);
    }
  }

  lemma ValidateKeepsCalls(w: World, c: Cache, q: Query, later: Time)
    requires Sane(w) && CallsBacked(w, c) && Askable(q.access)
    ensures CallsBacked(w, Validate(w, c, q, later).cache)
  {
    var a, s := Check(c, q), Slow(w, q);
    DropKeepsCalls(w, c, a.cache);
    if !a.Hit? && s.Granted? {
      NewCallEntry(w, q, later);
    }
  }

  lemma {:induction false} RunsKeepCalls(w: World, c: Cache, run: seq<Event>)
    requires Sane(w) && VCaches.Sized(c) && AllAskable(run)
    ensures CallsBacked(w, After(w, c, run))
  {
    if run != [] {
      var earlier := run[..|run| - 1];
      RunsKeepCalls(w, c, earlier);
      var before := After(w, c, earlier);
      match run[|run| - 1]
      case Ask(q, later) => ValidateKeepsCalls(w, before, q, later);
      case FlushAddr(addr) => DropKeepsCalls(w, before, FlushedAddr(before, addr));
    }
  }

  // ---------------------------------------------------------------- hits

  /** A call that hits in the cache gets the answer of the scan exactly when some capability of the APD lets
      it be called. */
  lemma CallHitAgrees(w: World, c: Cache, q: Query)
    requires Sane(w) && CallsBacked(w, c) && IsCall(q) && Check(c, q).Hit?
    ensures var obj := c.infos[Check(c, q).slot].obj;
            [obj] == Uncached(w, q) <==> Callable(w, obj, q.addr)
  {
    var s := Check(c, q).slot;
    var obj := c.infos[s].obj;
    assert CallEntry(w, c.entries[s], c.infos[s]);
    var o :| 0 <= o < |w.objs| && w.objs[o] == obj;
    ScanUnique(w.objs, q.addr, o);
    ScanMeans(w, q);
  }

  /** Every capability through which a call can be granted has the address of something that can be called
      itself. */
  ghost predicate Aimed(w: World)
    requires Sane(w)
  {
    forall obj, a :: a != 0 && GrantsAt(w, obj, a) ==> Callable(w, obj, a)
  }

  /** The cache is invisible to calls in every run since a flush. */
  ghost predicate InvisibleToCalls(w: World, c: Cache)
    requires Sane(w) && VCaches.Sized(c)
  {
    forall run, q, later :: AllAskable(run) && IsCall(q) ==>
        Validate(w, After(w, c, run), q, later).obj == Uncached(w, q)
  }

  lemma AimedIsInvisible(w: World, c: Cache, run: seq<Event>, q: Query, later: Time)
    requires Sane(w) && VCaches.Sized(c) && Aimed(w) && AllAskable(run) && IsCall(q)
    ensures Validate(w, After(w, c, run), q, later).obj == Uncached(w, q)
  {
    RunsKeepCalls(w, c, run);
    var before := After(w, c, run);
    if Check(before, q).Hit? {
      var s := Check(before, q).slot;
      assert CallEntry(w, before.entries[s], before.infos[s]);
      CallHitAgrees(w, before, q);
    }
  }

  /** The run that fails otherwise: a call through a capability with the address of something that cannot be
      called, and then a call of that. */
  lemma SecondCallHits(w: World, c: Cache, obj: Extent, a: nat, q: Query)
    requires Sane(w) && VCaches.Sized(c) && a != 0 && GrantsCall(w, obj, a, q) && !Callable(w, obj, a)
    ensures var run, q' := [Ask(q, q.now)], Query(a, q.access, q.now);
            && AllAskable(run) && IsCall(q')
            && Validate(w, After(w, c, run), q', q.now).obj == [obj] && Uncached(w, q') == []
  {
    hide Check, Scanned, VictimOf, Scan, FirstGood, Purged;
    var run, q' := [Ask(q, q.now)], Query(a, q.access, q.now);
    var s, empty := Slow(w, q), Flushed(c);
    FoundIsProtected(w, q);
    FoundCalls(w, obj, 0, 0, q);
    assert run[..0] == [];
    EmptyMisses(c, q);
    var slot := VictimOf(empty, q.now);
    var full := Filled(empty, slot, obj, s.access, s.cap, s.pdxSlot, q.now);
    assert After(w, c, run) == full;
    SelfGrants(q.access);
    assert Good(full, slot, q') && full.last == slot;
    LastHits(full, q');
    var o :| 0 <= o < |w.objs| && w.objs[o] == obj;
    ScanUnique(w.objs, a, o);
    ScanMeans(w, q');
  }

  lemma EmptyMisses(c: Cache, q: Query)
    requires VCaches.Sized(c)
    ensures Check(Flushed(c), q) == Miss(Flushed(c))
  {
    var empty := Flushed(c);
    assert forall i :: 0 <= i < VCACHE_SIZE ==> empty.entries[i] == EMPTY;
    assert q.addr != 0 ==> Purged(empty, VCACHE_SIZE, q).entries == empty.entries;
  }

  lemma LastHits(c: Cache, q: Query)
    requires VCaches.Sized(c) && q.addr != 0 && Good(c, c.last, q)
    ensures Check(c, q) == Hit(c.last, c)
  {
  }

  lemma SelfGrants(r: Access)
    ensures Grants(r, r)
  {
  }

  /** The cache is invisible to calls exactly when every capability through which a call can be granted has
      the address of something that can be called itself. */
  lemma CallsExactly(w: World, c: Cache)
    requires Sane(w) && VCaches.Sized(c)
    ensures InvisibleToCalls(w, c) <==> Aimed(w)
  {
    if Aimed(w) {
      forall run, q, later | AllAskable(run) && IsCall(q)
        ensures Validate(w, After(w, c, run), q, later).obj == Uncached(w, q)
      {
        AimedIsInvisible(w, c, run, q, later);
      }
    } else {
      var obj, a :| a != 0 && GrantsAt(w, obj, a) && !Callable(w, obj, a);
      var q :| GrantsCall(w, obj, a, q);
      SecondCallHits(w, c, obj, a, q);
    }
  }

  /** For instance: a procedure at 5000 in the object from 4096, called through a capability for 4096. The
      call of 5000 is granted, and makes a call of 4096 hit, where nothing can be called. */
  lemma UnaimedExample(w: World, obj: Extent, c: Cache)
    requires obj == Extent(4096, 8192, 1) && w.objs == [obj] && VCaches.Sized(c)
    requires w.prot == map[obj := Protection([], [], [PdxTables.Procedure(7, PdxTables.NULL_CAP, [5000])])]
    requires w.clists == [CapList([PdxTables.Cap(4096, 7)])]
    ensures Sane(w) && !Aimed(w)
    ensures var run, q := [Ask(Query(5000, M_PDX, 0), 0)], Query(4096, M_PDX, 0);
            Validate(w, After(w, c, run), q, 0).obj == [obj] && Uncached(w, q) == []
  {
    var q, p := Query(5000, M_PDX, 0), w.prot[obj].pdx[0];
    ScanUnique(w.objs, 5000, 0);
    assert p.entries[0] == 5000 && 5000 in p.entries;
    assert Calls(w, obj, 5000, 0, 0);
    ScanMeans(w, q);
    FoundCalls(w, obj, 0, 0, q);
    assert GrantsCall(w, obj, 4096, q);
    forall i, j ensures !Calls(w, obj, 4096, i, j) {
      assert 4096 !in p.entries;
    }
    SecondCallHits(w, c, obj, 4096, q);
  }
}

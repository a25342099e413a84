/** The validation cache when passwords may deny. */
module Denials {
  import opened Extents
  import opened VCaches
  import opened Validation
  import opened CallValidation
  import PdxTables

  /** An access other than a call, that asks for something. */
  predicate PlainAccess(a: Access) {
    a != 0 && a & M_PDX == 0 && a & M_NOT == 0
  }

  /** What the scan of the capability lists finds for an access to an object, whatever the address. */
  ghost function Found(w: World, obj: Extent, a: Access): Outcome
    requires Sane(w) && obj in w.prot
  {
    Scanned(w, obj, 0, 0, Query(obj.base, a, 0))
  }

  lemma {:induction false} SameScan(w: World, obj: Extent, i: nat, j: nat, q: Query, r: Query)
    requires Sane(w) && obj in w.prot && q.access == r.access && q.access & M_PDX == 0
    ensures Scanned(w, obj, i, j, q) == Scanned(w, obj, i, j, r)
    decreases |w.clists| - i, if i < |w.clists| && w.clists[i].CapList? then |w.clists[i].caps| - j else 0
  {
    hide Std;
    if i < |w.clists| {
      if w.clists[i].NoList? || j >= |w.clists[i].caps| {
        SameScan(w, obj, i + 1, 0, q, r);
      } else {
        SameScan(w, obj, i, j + 1, q, r);
      }
    }
  }

  /** The validation without a cache is that scan, at every address of an object. */
  lemma UncachedIsFound(w: World, obj: Extent, q: Query)
    requires Sane(w) && obj in w.objs && Matches(obj, q.addr) && q.access & M_PDX == 0
    ensures obj in w.prot && Scan(w.objs, q.addr) == [obj] && Slow(w, q) == Found(w, obj, q.access)
  {
    hide Scanned;
    var o :| 0 <= o < |w.objs| && w.objs[o] == obj;
    ScanUnique(w.objs, q.addr, o);
    SameScan(w, obj, 0, 0, q, Query(obj.base, q.access, 0));
  }

  // ---------------------------------------------------------------- asking for less

  predicate PartOf(b: Access, a: Access) {
    b & !a == 0
  }

  /** A denial of a part is one of the whole, and what covers the whole covers the part. */
  lemma Parts(b: Access, a: Access, r: Access)
    requires PartOf(b, a)
    ensures Denies(r, b) ==> Denies(r, a)
    ensures Allows(r, a) ==> Allows(r, b)
  {
  }

  /** Passwords that do not deny an access do not deny a part of it, and those that allow it allow the part. */
  lemma {:induction false} StdOfPart(p: Protection, i: nat, pw: Passwd, a: Access, b: Access)
    requires |p.passwds| == |p.rights| && i <= |p.passwds| && PartOf(b, a)
    ensures var s, r := Std(p, i, pw, a).verdict, Std(p, i, pw, b).verdict;
            (s == ALLOWED ==> r == ALLOWED) && (s == UNKNOWN ==> r != DENIED)
    decreases |p.passwds| - i
  {
    hide PartOf, Denies, Allows;
    if i < |p.passwds| {
      Parts(b, a, p.rights[i]);
      StdOfPart(p, i + 1, pw, a, b);
    }
  }

  lemma {:induction false} ScanOfPart(w: World, obj: Extent, i: nat, j: nat, q: Query, r: Query)
    requires Sane(w) && obj in w.prot && q.access & M_PDX == 0 && r.access & M_PDX == 0 && PartOf(r.access, q.access)
    requires Scanned(w, obj, i, j, q).Granted?
    ensures Scanned(w, obj, i, j, r).Granted?
    decreases |w.clists| - i, if i < |w.clists| && w.clists[i].CapList? then |w.clists[i].caps| - j else 0
  {
    hide Std, Matches, PartOf;
    if i < |w.clists| {
      if w.clists[i].NoList? || j >= |w.clists[i].caps| {
        ScanOfPart(w, obj, i + 1, 0, q, r);
      } else {
        StdOfPart(w.prot[obj], 0, w.clists[i].caps[j].passwd, q.access, r.access);
        if Scanned(w, obj, i, j + 1, q).Granted? {
          ScanOfPart(w, obj, i, j + 1, q, r);
        }
      }
    }
  }

  // ---------------------------------------------------------------- what is cached

  /** The scan reports these rights for some access to the object. */
  ghost predicate Reported(w: World, obj: Extent, rights: Access)
    requires Sane(w)
  {
    obj in w.prot && exists a :: PlainAccess(a) && Found(w, obj, a).Granted? && Found(w, obj, a).access == rights
  }

  /** Reported rights are plain themselves and cover the access. */
  lemma ReportedIsPlain(w: World, obj: Extent, a: Access)
    requires Sane(w) && obj in w.prot && PlainAccess(a) && Found(w, obj, a).Granted?
    ensures PlainAccess(Found(w, obj, a).access) && PartOf(a, Found(w, obj, a).access)
  {
    hide Scanned;
    GrantedEntitles(w, obj, 0, 0, Query(obj.base, a, 0));
    NotNothing(a, Found(w, obj, a).access);
  }

  lemma NotNothing(a: Access, r: Access)
    requires a != 0 && a & !r == 0
    ensures r != 0
  {
  }

  /** An entry for a range is that of an object with rights that the scan reports for it. */
  ghost predicate TrueEntry(w: World, e: Entry, i: Info)
    requires Sane(w)
  {
    e.base < e.limit ==> i.obj in w.objs && e == Entry(i.obj.base, i.obj.end) && Reported(w, i.obj, i.rights)
  }

  ghost predicate Truthful(w: World, c: Cache)
    requires Sane(w)
  {
    VCaches.Sized(c) && forall i :: 0 <= i < VCACHE_SIZE ==> TrueEntry(w, c.entries[i], c.infos[i])
  }

  lemma DropKeepsTrue(w: World, c: Cache, r: Cache)
    requires Sane(w) && Truthful(w, c) && VCaches.Sized(r) && r.infos == c.infos
    requires forall i :: 0 <= i < VCACHE_SIZE ==> r.entries[i] == c.entries[i] || r.entries[i] == EMPTY
    ensures Truthful(w, r)
  {
    hide TrueEntry;
    forall i | 0 <= i < VCACHE_SIZE ensures TrueEntry(w, r.entries[i], r.infos[i]) {
      assert TrueEntry(w, c.entries[i], c.infos[i]);
      EmptyIsTrue(w, r.infos[i]);
    }
  }

  lemma EmptyIsTrue(w: World, i: Info)
    requires Sane(w)
    ensures TrueEntry(w, EMPTY, i)
  {
  }

  /** The accesses that a run asks for: calls as well, but never nothing. */
  predicate AllAsk(run: seq<Event>) {
    forall i :: 0 <= i < |run| && run[i].Ask? ==> Askable(run[i].q.access) && run[i].q.access != 0
  }

  lemma NewEntryTrue(w: World, q: Query, later: Time)
    requires Sane(w) && Askable(q.access) && q.access != 0 && Slow(w, q).Granted?
    ensures var s, obj := Slow(w, q), Scan(w.objs, q.addr)[0];
            TrueEntry(w, RangeOf(obj, s.access, s.cap), Info(later, s.access, obj, s.cap, s.pdxSlot))
  {
    hide Scanned;
    var s, obj := Slow(w, q), Scan(w.objs, q.addr)[0];
    if q.access & M_PDX == 0 {
      UncachedIsFound(w, obj, q);
      ReportedIsPlain(w, obj, q.access);
    } else {
      FoundIsProtected(w, q);
      GrantedCall(w, obj, 0, 0, q);
    }
  }

  lemma ValidateKeepsTrue(w: World, c: Cache, q: Query, later: Time)
    requires Sane(w) && Truthful(w, c) && Askable(q.access) && q.access != 0
    ensures Truthful(w, Validate(w, c, q, later).cache)
  {
    hide TrueEntry, Slow, Scan;
    var a, s := Check(c, q), Slow(w, q);
    DropKeepsTrue(w, c, a.cache);
    if !a.Hit? && s.Granted? {
      NewEntryTrue(w, q, later);
    }
  }

  lemma {:induction false} RunsTruthful(w: World, c: Cache, run: seq<Event>)
    requires Sane(w) && VCaches.Sized(c) && AllAsk(run)
    ensures Truthful(w, After(w, c, run))
  {
    hide Validate, TrueEntry, Sane;
    if run == [] {
      forall i | 0 <= i < VCACHE_SIZE ensures TrueEntry(w, Flushed(c).entries[i], Flushed(c).infos[i]) {
        EmptyIsTrue(w, c.infos[i]);
      }
    } else {
      var earlier := run[..|run| - 1];
      RunsTruthful(w, c, earlier);
      var before := After(w, c, earlier);
      match run[|run| - 1]
      case Ask(q, later) => ValidateKeepsTrue(w, before, q, later);
      case FlushAddr(addr) => DropKeepsTrue(w, before, FlushedAddr(before, addr));
    }
  }

  // ---------------------------------------------------------------- the exact condition

  /** Whenever the scan grants an access to an object and reports certain rights for it, it grants all these
      rights together, too. (An object that is the address 0 alone is never looked for in the cache.) */
  ghost predicate Steady(w: World)
    requires Sane(w)
  {
    forall obj, a :: obj in w.objs && obj.end > 1 && PlainAccess(a) && Found(w, obj, a).Granted? ==>
        Found(w, obj, Found(w, obj, a).access).Granted?
  }

  /** The cache is invisible in every run since a flush, to every access other than calls that asks for
      something. */
  ghost predicate Invisible(w: World, c: Cache)
    requires Sane(w) && VCaches.Sized(c)
  {
    forall run, q: Query, later :: AllAsk(run) && PlainAccess(q.access) ==>
        Validate(w, After(w, c, run), q, later).obj == Uncached(w, q)
  }

  /** A hit answers what the scan answers when the rights in the entry are granted together. */
  lemma SteadyHit(w: World, c: Cache, q: Query)
    requires Sane(w) && Truthful(w, c) && Steady(w) && PlainAccess(q.access) && Check(c, q).Hit?
    ensures [c.infos[Check(c, q).slot].obj] == Uncached(w, q)
  {
    hide Found, Check, Scan, Slow;
    var s := Check(c, q).slot;
    HitIsGood(c, q);
    var obj, rights := c.infos[s].obj, c.infos[s].rights;
    assert TrueEntry(w, c.entries[s], c.infos[s]);
    UncachedIsFound(w, obj, q);
    var a :| PlainAccess(a) && Found(w, obj, a).Granted? && Found(w, obj, a).access == rights;
    ReportedIsPlain(w, obj, a);
    ComplementCommutes(rights, q.access);
    FoundOfPart(w, obj, rights, q.access);
  }

  lemma HitIsGood(c: Cache, q: Query)
    requires VCaches.Sized(c) && Check(c, q).Hit? && q.access & M_PDX == 0
    ensures var s := Check(c, q).slot;
            && s < VCACHE_SIZE && c.entries[s].base <= q.addr < c.entries[s].limit && q.addr != 0
            && Grants(c.infos[s].rights, q.access)
  {
  }

  lemma FoundOfPart(w: World, obj: Extent, a: Access, b: Access)
    requires Sane(w) && obj in w.prot && PlainAccess(a) && PlainAccess(b) && PartOf(b, a) && Found(w, obj, a).Granted?
    ensures Found(w, obj, b).Granted?
  {
    ScanOfPart(w, obj, 0, 0, Query(obj.base, a, 0), Query(obj.base, b, 0));
  }

  /** The run that shows the cache otherwise: the access is granted, and then the reported rights are asked for
      together. */
  lemma UnsteadyHits(w: World, c: Cache, obj: Extent, a: Access, now: Time)
    requires Sane(w) && VCaches.Sized(c) && obj in w.objs && obj.end > 1 && PlainAccess(a) && obj in w.prot
    requires Found(w, obj, a).Granted? && !Found(w, obj, Found(w, obj, a).access).Granted?
    ensures var r := Found(w, obj, a).access;
            var run, q := [Ask(Query(obj.end - 1, a, now), now)], Query(obj.end - 1, r, now);
            && AllAsk(run) && PlainAccess(r)
            && Validate(w, After(w, c, run), q, now).obj == [obj] && Uncached(w, q) == []
  {
    hide Check, Scanned, VictimOf, Scan, FirstGood, Purged, Found, Slow;
    var r, first := Found(w, obj, a).access, Query(obj.end - 1, a, now);
    var run, q := [Ask(first, now)], Query(obj.end - 1, r, now);
    ReportedIsPlain(w, obj, a);
    ObjectHasRange(w, obj);
    UncachedIsFound(w, obj, first);
    UncachedIsFound(w, obj, q);
    assert run[..0] == [];
    EmptyMisses(c, first);
    var s, empty := Slow(w, first), Flushed(c);
    var slot := VictimOf(empty, now);
    var full := Filled(empty, slot, obj, s.access, s.cap, s.pdxSlot, now);
    assert After(w, c, run) == full;
    SelfGrants(r);
    assert Good(full, slot, q) && full.last == slot;
    LastHits(full, q);
  }

  lemma ObjectHasRange(w: World, obj: Extent)
    requires Sane(w) && obj in w.objs
    ensures obj.base < obj.end
  {
  }

  /** The cache is invisible to every access that is not a call, in every run since a flush, if and only if the
      scan grants together what it reports together. */
  lemma DenialsExactly(w: World, c: Cache)
    requires Sane(w) && VCaches.Sized(c)
    ensures Invisible(w, c) <==> Steady(w)
  {
    hide Found, Validate, Check, Uncached;
    if Steady(w) {
      forall run, q: Query, later | AllAsk(run) && PlainAccess(q.access)
        ensures Validate(w, After(w, c, run), q, later).obj == Uncached(w, q)
      {
        SteadyIsInvisible(w, c, run, q, later);
      }
    } else {
      var obj, a :| obj in w.objs && obj.end > 1 && PlainAccess(a) && obj in w.prot && Found(w, obj, a).Granted? &&
        !Found(w, obj, Found(w, obj, a).access).Granted?;
      UnsteadyHits(w, c, obj, a, 0);
    }
  }

  lemma SteadyIsInvisible(w: World, c: Cache, run: seq<Event>, q: Query, later: Time)
    requires Sane(w) && VCaches.Sized(c) && Steady(w) && AllAsk(run) && PlainAccess(q.access)
    ensures Validate(w, After(w, c, run), q, later).obj == Uncached(w, q)
  {
    hide Steady, AllAsk, Check, Truthful, PlainAccess;
    RunsTruthful(w, c, run);
    var before := After(w, c, run);
    if Check(before, q).Hit? {
      SteadyHit(w, before, q);
    }
  }

  /** Where no password denies anything the condition holds. */
  lemma NoDenialsSteady(w: World)
    requires Sane(w) && NoDenials(w)
    ensures Steady(w)
  {
    hide Scanned;
    forall obj, a | obj in w.objs && obj.end > 1 && PlainAccess(a) && Found(w, obj, a).Granted?
      ensures Found(w, obj, Found(w, obj, a).access).Granted?
    {
      ReportedIsPlain(w, obj, a);
      GrantedEntitles(w, obj, 0, 0, Query(obj.base, a, 0));
      var r := Found(w, obj, a).access;
      var i, j, k :| Entitles(w, obj, r, i, j, k);
      WholeOfItself(r);
      ScanAllows(w, obj, 0, 0, Query(obj.base, r, 0), i, j, k, r);
    }
  }

  lemma WholeOfItself(r: Access)
    ensures r & !r == 0
  {
  }

  /** For instance: one password that denies reading and gives reading and writing. Writing is granted, and the
      entry for it answers a read that the scan denies. */
  lemma UnsteadyExample(w: World, obj: Extent, c: Cache)
    requires obj == Extent(4096, 8192, 1) && w.objs == [obj] && VCaches.Sized(c)
    requires w.prot == map[obj := Protection([7, 7], [M_NOT | M_READ, M_READ | M_WRITE], [])]
    requires w.clists == [CapList([PdxTables.Cap(4096, 7)])]
    ensures Sane(w) && !Steady(w)
    ensures var run, q := [Ask(Query(8191, M_WRITE, 0), 0)], Query(8191, M_READ | M_WRITE, 0);
            Validate(w, After(w, c, run), q, 0).obj == [obj] && Uncached(w, q) == []
  {
    hide Validate, After, Uncached;
    var both := M_READ | M_WRITE;
    assert Std(w.prot[obj], 0, 7, M_WRITE) == Judgement(ALLOWED, both, -1);
    assert Std(w.prot[obj], 0, 7, both).verdict == DENIED;
    assert Found(w, obj, M_WRITE) == Granted(CapPtr(0, 0, PdxTables.Cap(4096, 7)), both, -1);
    assert Found(w, obj, both).Refused?;
    UnsteadyHits(w, c, obj, M_WRITE, 0);
  }
}

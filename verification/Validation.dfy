/** Access validation, and its cache. */
module Validation {
  import opened Extents
  import opened VCaches
  import PdxTables

  type Passwd = PdxTables.Passwd
  type Cap = PdxTables.Cap

  /** The passwords of an object with their rights, and its procedures. */
  datatype Protection = Protection(passwds: seq<Passwd>, rights: seq<Access>, pdx: seq<PdxTables.Procedure>)

  /** A slot of the APD: a capability list, or something that is none. */
  datatype ListSlot = NoList | CapList(caps: seq<Cap>)

  datatype World = World(objs: seq<Extent>, prot: map<Extent, Protection>, clists: seq<ListSlot>)

  /** The objects are those of an object table, and every password has its rights. These never include M_PDX
      (object_passwd masks it out), but may be negative. */
  ghost predicate Sane(w: World) {
    && Ordered(w.objs)
    && (forall i :: 0 <= i < |w.objs| ==> w.objs[i] in w.prot)
    && (forall o :: o in w.prot ==> Formed(w.prot[o]))
  }

  ghost predicate Formed(p: Protection) {
    |p.passwds| == |p.rights| && forall i :: 0 <= i < |p.rights| ==> p.rights[i] & M_PDX == 0
  }

  /** No password denies anything. */
  ghost predicate NoDenials(w: World) {
    forall o :: o in w.prot ==> Positive(w.prot[o])
  }

  ghost predicate Positive(p: Protection) {
    Formed(p) && forall i :: 0 <= i < |p.rights| ==> p.rights[i] & M_NOT == 0
  }

  datatype Verdict = ALLOWED | DENIED | UNKNOWN

  datatype Judgement = Judgement(verdict: Verdict, access: Access, pdxSlot: int)

  /** What one entry for a password does with an access. */
  predicate Denies(r: Access, a: Access) {
    a & r != 0 && r & M_NOT != 0
  }

  predicate Allows(r: Access, a: Access) {
    a & !r == 0
  }

  /** do_validate_passwd_std from password i on. */
  function Std(p: Protection, i: nat, pw: Passwd, access: Access): Judgement
    requires i <= |p.passwds| == |p.rights|
    decreases |p.passwds| - i
  {
    if i == |p.passwds| then Judgement(UNKNOWN, access, -1)
    else if p.passwds[i] != pw then Std(p, i + 1, pw, access)
    else if Denies(p.rights[i], access) then Judgement(DENIED, access, -1)
    else if Allows(p.rights[i], access) then Judgement(ALLOWED, p.rights[i], -1)
    else Std(p, i + 1, pw, access)
  }

  // ---------------------------------------------------------------- what a verdict means

  /** The entry is for the password and has a right that was asked for as one that is not to be had. */
  predicate Forbids(p: Protection, k: nat, pw: Passwd, access: Access)
    requires k < |p.passwds| == |p.rights|
  {
    p.passwds[k] == pw && p.rights[k] & access != 0 && p.rights[k] & M_NOT != 0
  }

  /** The entry is for the password and has all rights that were asked for. */
  predicate GivesAll(p: Protection, k: nat, pw: Passwd, access: Access)
    requires k < |p.passwds| == |p.rights|
  {
    p.passwds[k] == pw && p.rights[k] & access == access
  }

  /** No entry before entry k forbids the access or covers it. */
  ghost predicate Undecided(p: Protection, k: nat, pw: Passwd, access: Access)
    requires k <= |p.passwds| == |p.rights|
  {
    forall n :: 0 <= n < k ==> !Forbids(p, n, pw, access) && !GivesAll(p, n, pw, access)
  }

  /** The first entry that matters denies the access; or it allows it with the given rights. */
  ghost predicate Denied(p: Protection, pw: Passwd, access: Access) {
    |p.passwds| == |p.rights| &&
    exists k :: 0 <= k < |p.passwds| && Undecided(p, k, pw, access) && Forbids(p, k, pw, access)
  }

  ghost predicate Allowed(p: Protection, pw: Passwd, access: Access, rights: Access) {
    |p.passwds| == |p.rights| &&
    exists k :: 0 <= k < |p.passwds| && Undecided(p, k, pw, access) && !Forbids(p, k, pw, access) &&
        GivesAll(p, k, pw, access) && p.rights[k] == rights
  }

  lemma BitsAre(r: Access, a: Access)
    ensures r & a == a <==> Allows(r, a)
    ensures r & a != 0 && r & M_NOT != 0 <==> Denies(r, a)
  {
  }

  lemma StdStep(p: Protection, i: nat, pw: Passwd, access: Access)
    requires i < |p.passwds| == |p.rights|
    ensures Std(p, i, pw, access) == if Forbids(p, i, pw, access) then Judgement(DENIED, access, -1)
                                     else if GivesAll(p, i, pw, access) then Judgement(ALLOWED, p.rights[i], -1)
                                     else Std(p, i + 1, pw, access)
  {
    hide Denies, Allows;
    BitsAre(p.rights[i], access);
  }

  /** From an undecided position on the verdict is that of the first entry that matters. */
  lemma {:induction false} StdVerdict(p: Protection, i: nat, pw: Passwd, access: Access)
    requires i <= |p.passwds| == |p.rights| && Undecided(p, i, pw, access)
    ensures var r := Std(p, i, pw, access);
            && (r.verdict == DENIED <==> Denied(p, pw, access))
            && (r.verdict == ALLOWED <==> Allowed(p, pw, access, r.access))
            && (forall rights :: Allowed(p, pw, access, rights) ==> r.verdict == ALLOWED && r.access == rights)
    decreases |p.passwds| - i
  {
    hide Std, Forbids, GivesAll;
    if i < |p.passwds| {
      StdStep(p, i, pw, access);
      if !Forbids(p, i, pw, access) && !GivesAll(p, i, pw, access) {
        StdVerdict(p, i + 1, pw, access);
      }
    } else {
      StdEnds(p, i, pw, access);
    }
  }

  lemma StdEnds(p: Protection, i: nat, pw: Passwd, access: Access)
    requires i == |p.passwds| == |p.rights|
    ensures Std(p, i, pw, access).verdict == UNKNOWN
  {
  }

  ghost predicate Lists(p: Protection, pw: Passwd, proc: nat) {
    PdxTables.Lists(p.pdx, pw, proc)
  }

  /** do_validate_passwd */
  ghost function Judge(p: Protection, pw: Passwd, access: Access, proc: nat): Judgement
    requires |p.passwds| == |p.rights|
  {
    if access & M_PDX == 0 then Std(p, 0, pw, access)
    else if Lists(p, pw, proc) then Judgement(ALLOWED, access, PdxTables.Slot(p.pdx, pw))
    else Judgement(UNKNOWN, access, -1)
  }

  datatype Outcome = Nothing | Refused(cap: CapPtr) | Granted(cap: CapPtr, access: Access, pdxSlot: int)

  /** The nested loops of do_validate_obj from capability j of list i on. */
  ghost function Scanned(w: World, obj: Extent, i: nat, j: nat, q: Query): Outcome
    requires obj in w.prot && |w.prot[obj].passwds| == |w.prot[obj].rights|
    decreases |w.clists| - i, if i < |w.clists| && w.clists[i].CapList? then |w.clists[i].caps| - j else 0
  {
    if i >= |w.clists| then Nothing
    else if w.clists[i].NoList? || j >= |w.clists[i].caps| then Scanned(w, obj, i + 1, 0, q)
    else
      var cap := w.clists[i].caps[j];
      if !Matches(obj, cap.address) then Scanned(w, obj, i, j + 1, q)
      else
        var r := Judge(w.prot[obj], cap.passwd, q.access, q.addr);
        match r.verdict
        case ALLOWED => Granted(CapPtr(i, j, cap), r.access, r.pdxSlot)
        case DENIED => Refused(CapPtr(i, j, cap))
        case UNKNOWN => Scanned(w, obj, i, j + 1, q)
  }

  /** What do_validate_obj finds without a cache. */
  ghost function Slow(w: World, q: Query): Outcome
    requires Sane(w)
  {
    var r := Scan(w.objs, q.addr);
    if r == [] then Nothing else Scanned(w, r[0], 0, 0, q)
  }

  /** The object it returns then. */
  ghost function Uncached(w: World, q: Query): seq<Extent>
    requires Sane(w)
  {
    if Slow(w, q).Granted? then Scan(w.objs, q.addr) else []
  }

  // ---------------------------------------------------------------- what the scan means

  /** Capability j of list i is for the object. */
  ghost predicate IsFor(w: World, obj: Extent, i: nat, j: nat) {
    && i < |w.clists| && w.clists[i].CapList? && j < |w.clists[i].caps|
    && obj.base <= w.clists[i].caps[j].address < obj.end
  }

  ghost predicate DeniesAt(w: World, obj: Extent, i: nat, j: nat, access: Access) {
    IsFor(w, obj, i, j) && obj in w.prot && Denied(w.prot[obj], w.clists[i].caps[j].passwd, access)
  }

  ghost predicate AllowsAt(w: World, obj: Extent, i: nat, j: nat, access: Access, rights: Access) {
    IsFor(w, obj, i, j) && obj in w.prot && Allowed(w.prot[obj], w.clists[i].caps[j].passwd, access, rights)
  }

  ghost predicate DecidesAt(w: World, obj: Extent, i: nat, j: nat, access: Access) {
    DeniesAt(w, obj, i, j, access) || exists rights :: AllowsAt(w, obj, i, j, access, rights)
  }

  /** No capability before this one, in the order of the lists and in each list, allows or denies the access. */
  ghost predicate Clear(w: World, obj: Extent, i: nat, j: nat, access: Access) {
    forall a: nat, b: nat :: a < i || (a == i && b < j) ==> !DecidesAt(w, obj, a, b, access)
  }

  /** The answer is that of the first capability that allows or denies; with none there is no answer. */
  ghost predicate Answers(w: World, obj: Extent, access: Access, r: Outcome) {
    match r
    case Nothing => Clear(w, obj, |w.clists|, 0, access)
    case Refused(c) =>
      && DeniesAt(w, obj, c.list, c.index, access) && Clear(w, obj, c.list, c.index, access)
      && c.cap == w.clists[c.list].caps[c.index]
    case Granted(c, rights, slot) =>
      && AllowsAt(w, obj, c.list, c.index, access, rights) && Clear(w, obj, c.list, c.index, access)
      && c.cap == w.clists[c.list].caps[c.index] && slot == -1
  }

  lemma ClearNext(w: World, obj: Extent, i: nat, j: nat, access: Access)
    requires Clear(w, obj, i, j, access) && i < |w.clists|
    ensures !DecidesAt(w, obj, i, j, access) ==> Clear(w, obj, i, j + 1, access)
    ensures w.clists[i].NoList? || j >= |w.clists[i].caps| ==> Clear(w, obj, i + 1, 0, access)
  {
  }

  /** What the one capability does. */
  lemma CapVerdict(w: World, obj: Extent, i: nat, j: nat, q: Query)
    requires Sane(w) && obj in w.prot && q.access & M_PDX == 0
    requires i < |w.clists| && w.clists[i].CapList? && j < |w.clists[i].caps|
    ensures var cap, r := w.clists[i].caps[j], Std(w.prot[obj], 0, w.clists[i].caps[j].passwd, q.access);
            if !Matches(obj, cap.address) || r.verdict == UNKNOWN then !DecidesAt(w, obj, i, j, q.access)
            else if r.verdict == DENIED then DeniesAt(w, obj, i, j, q.access)
            else AllowsAt(w, obj, i, j, q.access, r.access) && r.pdxSlot == -1
  {
    hide Std, Denied, Allowed;
    StdVerdict(w.prot[obj], 0, w.clists[i].caps[j].passwd, q.access);
    StdSlot(w.prot[obj], 0, w.clists[i].caps[j].passwd, q.access);
  }

  lemma {:induction false} StdSlot(p: Protection, i: nat, pw: Passwd, access: Access)
    requires i <= |p.passwds| == |p.rights|
    ensures Std(p, i, pw, access).pdxSlot == -1
    decreases |p.passwds| - i
  {
    hide Denies, Allows;
    if i < |p.passwds| {
      StdSlot(p, i + 1, pw, access);
    }
  }

  lemma {:induction false} ScanVerdict(w: World, obj: Extent, i: nat, j: nat, q: Query)
    requires Sane(w) && obj in w.prot && q.access & M_PDX == 0 && Clear(w, obj, i, j, q.access)
    requires i <= |w.clists|
    ensures Answers(w, obj, q.access, Scanned(w, obj, i, j, q))
    decreases |w.clists| - i, if i < |w.clists| && w.clists[i].CapList? then |w.clists[i].caps| - j else 0
  {
    hide Std, Clear, DecidesAt, DeniesAt, AllowsAt, Matches;
    if i < |w.clists| {
      ClearNext(w, obj, i, j, q.access);
      if w.clists[i].NoList? || j >= |w.clists[i].caps| {
        ScanVerdict(w, obj, i + 1, 0, q);
      } else {
        CapVerdict(w, obj, i, j, q);
        if !DecidesAt(w, obj, i, j, q.access) {
          ScanVerdict(w, obj, i, j + 1, q);
        }
      }
    } else {
      ClearAll(w, obj, i, j, q.access);
    }
  }

  lemma ClearAll(w: World, obj: Extent, i: nat, j: nat, access: Access)
    requires Clear(w, obj, i, j, access)
    ensures Clear(w, obj, i, 0, access)
  {
  }

  /** The capability allows the access and no denial comes before it. */
  ghost predicate Wins(w: World, obj: Extent, i: nat, j: nat, access: Access, rights: Access) {
    AllowsAt(w, obj, i, j, access, rights) &&
    forall a: nat, b: nat :: a < i || (a == i && b < j) ==> !DeniesAt(w, obj, a, b, access)
  }

  /** The APD may have the access. */
  ghost predicate Permitted(w: World, obj: Extent, access: Access) {
    exists i, j, rights :: Wins(w, obj, i, j, access, rights)
  }

  /** A password does not both allow and deny an access. */
  lemma NotBoth(p: Protection, pw: Passwd, access: Access, rights: Access)
    requires Denied(p, pw, access)
    ensures !Allowed(p, pw, access, rights)
  {
    hide Forbids, GivesAll;
    StdVerdict(p, 0, pw, access);
  }

  /** Without a cache an access other than a call is granted exactly when some capability for the object allows
      it before any denies it; after a denial nothing is granted. */
  lemma UncachedMeans(w: World, q: Query, obj: Extent)
    requires Sane(w) && q.access & M_PDX == 0
    ensures Uncached(w, q) == [obj] <==> obj in w.objs && obj.base <= q.addr < obj.end && Permitted(w, obj, q.access)
    ensures |Uncached(w, q)| <= 1
  {
    hide Scanned, Answers, Permitted;
    var r := Scan(w.objs, q.addr);
    if r != [] {
      ScanVerdict(w, r[0], 0, 0, q);
      FirstAnswer(w, r[0], q.access, Scanned(w, r[0], 0, 0, q));
    }
    if obj in w.objs && Matches(obj, q.addr) {
      var o :| 0 <= o < |w.objs| && w.objs[o] == obj;
      ScanUnique(w.objs, q.addr, o);
    }
  }

  lemma FirstAnswer(w: World, obj: Extent, access: Access, r: Outcome)
    requires Answers(w, obj, access, r)
    ensures r.Granted? <==> Permitted(w, obj, access)
  {
    hide Denied, Allowed;
    if r.Granted? {
      assert forall a: nat, b: nat :: DeniesAt(w, obj, a, b, access) ==> DecidesAt(w, obj, a, b, access);
      assert Wins(w, obj, r.cap.list, r.cap.index, access, r.access);
    } else if Permitted(w, obj, access) {
      var i, j, rights :| Wins(w, obj, i, j, access, rights);
      assert DecidesAt(w, obj, i, j, access);
      if r.Refused? {
        NotBothAt(w, obj, i, j, access, rights);
      }
    }
  }

  lemma NotBothAt(w: World, obj: Extent, i: nat, j: nat, access: Access, rights: Access)
    requires AllowsAt(w, obj, i, j, access, rights)
    ensures !DeniesAt(w, obj, i, j, access)
  {
    hide Denied, Allowed;
    if DeniesAt(w, obj, i, j, access) {
      NotBoth(w.prot[obj], w.clists[i].caps[j].passwd, access, rights);
    }
  }

  datatype Validated = Validated(obj: seq<Extent>, cache: Cache)

  /** do_validate_obj with the cache; an answer found by the scan is added at time `later`. */
  ghost function Validate(w: World, c: Cache, q: Query, later: Time): (v: Validated)
    requires Sane(w) && VCaches.Sized(c)
    ensures VCaches.Sized(v.cache)
  {
    var a := Check(c, q);
    if a.Hit? then Validated([c.infos[a.slot].obj], a.cache)
    else
      var s := Slow(w, q);
      if s.Granted? then
        var obj := Scan(w.objs, q.addr)[0];
        Validated([obj], Filled(a.cache, VictimOf(a.cache, later), obj, s.access, s.cap, s.pdxSlot, later))
      else Validated([], a.cache)
  }

  // ---------------------------------------------------------------- agreement

  /** Some capability of the APD names the object with a password that has these rights. */
  ghost predicate Entitled(w: World, obj: Extent, rights: Access) {
    exists i, j, k :: Entitles(w, obj, rights, i, j, k)
  }

  ghost predicate Entitles(w: World, obj: Extent, rights: Access, i: nat, j: nat, k: nat) {
    && i < |w.clists| && w.clists[i].CapList? && j < |w.clists[i].caps|
    && Matches(obj, w.clists[i].caps[j].address)
    && obj in w.prot && k < |w.prot[obj].passwds| == |w.prot[obj].rights|
    && w.prot[obj].passwds[k] == w.clists[i].caps[j].passwd
    && w.prot[obj].rights[k] == rights
  }

  /** An entry with a non-empty range is that of an object to which the APD is entitled. */
  ghost predicate BackedEntry(w: World, e: Entry, i: Info) {
    e.base < e.limit ==>
      && i.obj in w.objs && e == Entry(i.obj.base, i.obj.end)
      && Entitled(w, i.obj, i.rights)
  }

  ghost predicate Backed(w: World, c: Cache) {
    && VCaches.Sized(c)
    && (forall i :: 0 <= i < VCACHE_SIZE ==> BackedEntry(w, c.entries[i], c.infos[i]))
    && (forall i :: 0 <= i < VCACHE_SIZE && c.entries[i] != EMPTY ==> c.infos[i].rights & M_NOT == 0)
  }

  /** A password with enough rights is found, or one before it is. */
  lemma {:induction false} StdAllows(p: Protection, i: nat, k: nat, access: Access)
    requires Positive(p) && i <= k < |p.passwds| && access & !p.rights[k] == 0
    ensures Std(p, i, p.passwds[k], access).verdict == ALLOWED
    decreases k - i
  {
    assert p.rights[i] & M_NOT == 0;
    if i < k {
      StdAllows(p, i + 1, k, access);
    }
  }

  /** With no negative rights the verdict is ALLOWED exactly when some password has all the rights
      asked for, and what is granted are the rights of one of those. */
  lemma {:induction false} StdMeans(p: Protection, i: nat, pw: Passwd, access: Access)
    requires Positive(p) && i <= |p.passwds|
    ensures var r := Std(p, i, pw, access);
            && r.verdict != DENIED
            && (r.verdict == ALLOWED ==>
                  exists k :: i <= k < |p.passwds| && p.passwds[k] == pw && p.rights[k] == r.access &&
                      access & !r.access == 0)
            && (forall k :: i <= k < |p.passwds| && p.passwds[k] == pw && access & !p.rights[k] == 0 ==>
                r.verdict == ALLOWED)
    decreases |p.passwds| - i
  {
    forall k | i <= k < |p.passwds| && p.passwds[k] == pw && access & !p.rights[k] == 0
      ensures Std(p, i, pw, access).verdict == ALLOWED
    {
      StdAllows(p, i, k, access);
    }
    if i < |p.passwds| {
      assert p.rights[i] & M_NOT == 0;
      StdMeans(p, i + 1, pw, access);
      if p.passwds[i] == pw && access & !p.rights[i] == 0 {
        assert p.rights[i] == Std(p, i, pw, access).access;
      }
    }
  }

  /** The scan grants an access if some capability further on has a password with enough rights. */
  lemma {:induction false} ScanAllows(w: World, obj: Extent, i: nat, j: nat, q: Query, a: nat, b: nat, k: nat,
      rights: Access)
    requires Sane(w) && NoDenials(w) && q.access & M_PDX == 0 && q.access & !rights == 0
    requires Entitles(w, obj, rights, a, b, k)
    requires i < a || (i == a && j <= b)
    ensures Scanned(w, obj, i, j, q).Granted?
    decreases |w.clists| - i, if i < |w.clists| && w.clists[i].CapList? then |w.clists[i].caps| - j else 0
  {
    if w.clists[i].NoList? || j >= |w.clists[i].caps| {
      ScanAllows(w, obj, i + 1, 0, q, a, b, k, rights);
    } else {
      var cap := w.clists[i].caps[j];
      if Matches(obj, cap.address) {
        StdMeans(w.prot[obj], 0, cap.passwd, q.access);
        if i == a && j == b {
          StdAllows(w.prot[obj], 0, k, q.access);
        } else if Std(w.prot[obj], 0, cap.passwd, q.access).verdict == UNKNOWN {
          ScanAllows(w, obj, i, j + 1, q, a, b, k, rights);
        }
      } else {
        ScanAllows(w, obj, i, j + 1, q, a, b, k, rights);
      }
    }
  }

  /** Every hit is right: the object it returns is the one that the scan of the capability lists
      would return for the same address and access. */
  lemma HitAgrees(w: World, c: Cache, q: Query)
    requires Sane(w) && NoDenials(w) && Backed(w, c) && q.access & M_PDX == 0 && Check(c, q).Hit?
    ensures [c.infos[Check(c, q).slot].obj] == Uncached(w, q)
  {
    var s := Check(c, q).slot;
    var obj, rights := c.infos[s].obj, c.infos[s].rights;
    assert BackedEntry(w, c.entries[s], c.infos[s]);
    var o :| 0 <= o < |w.objs| && w.objs[o] == obj;
    ScanUnique(w.objs, q.addr, o);
    var a, b, k :| Entitles(w, obj, rights, a, b, k);
    ComplementCommutes(rights, q.access);
    ScanAllows(w, obj, 0, 0, q, a, b, k, rights);
  }

  lemma ComplementCommutes(r: Access, a: Access)
    ensures Grants(r, a) <==> a & !r == 0
  {
  }

  /** The rights that a password check reports are those of an entry for the password, cover what was asked for,
      and are not negative unless nothing was asked for. */
  lemma {:induction false} StdReports(p: Protection, i: nat, pw: Passwd, access: Access)
    requires Formed(p) && i <= |p.passwds| && Std(p, i, pw, access).verdict == ALLOWED
    ensures var r := Std(p, i, pw, access).access;
            && (exists k :: i <= k < |p.passwds| && p.passwds[k] == pw && p.rights[k] == r)
            && r & M_PDX == 0 && access & !r == 0 && (access != 0 ==> r & M_NOT == 0)
    decreases |p.passwds| - i
  {
    if p.passwds[i] == pw && access & !p.rights[i] == 0 {
      assert p.rights[i] == Std(p, i, pw, access).access;
      Covered(access, p.rights[i]);
    } else {
      StdReports(p, i + 1, pw, access);
    }
  }

  lemma Covered(a: Access, r: Access)
    requires a & !r == 0
    ensures a != 0 ==> a & r != 0
  {
  }

  /** What the scan grants can be cached: the rights it reports are those of a password that a
      capability of the APD names. */
  lemma {:induction false} GrantedEntitles(w: World, obj: Extent, i: nat, j: nat, q: Query)
    requires Sane(w) && obj in w.prot && q.access & M_PDX == 0
    requires Scanned(w, obj, i, j, q).Granted?
    ensures var r := Scanned(w, obj, i, j, q).access;
            && Entitled(w, obj, r) && r & M_PDX == 0 && q.access & !r == 0
            && (q.access != 0 || NoDenials(w) ==> r & M_NOT == 0)
    decreases |w.clists| - i, if i < |w.clists| && w.clists[i].CapList? then |w.clists[i].caps| - j else 0
  {
    hide Std, Matches;
    if w.clists[i].NoList? || j >= |w.clists[i].caps| {
      GrantedEntitles(w, obj, i + 1, 0, q);
    } else {
      var cap := w.clists[i].caps[j];
      var p := w.prot[obj];
      if Matches(obj, cap.address) && Std(p, 0, cap.passwd, q.access).verdict != UNKNOWN {
        StdReports(p, 0, cap.passwd, q.access);
        var r := Std(p, 0, cap.passwd, q.access);
        var k :| 0 <= k < |p.passwds| && p.passwds[k] == cap.passwd && p.rights[k] == r.access;
        assert Entitles(w, obj, r.access, i, j, k);
      } else {
        GrantedEntitles(w, obj, i, j + 1, q);
      }
    }
  }

  /** A procedure call is granted with the access that was asked for. */
  lemma {:induction false} GrantedCall(w: World, obj: Extent, i: nat, j: nat, q: Query)
    requires Sane(w) && obj in w.prot && q.access & M_PDX != 0
    requires Scanned(w, obj, i, j, q).Granted?
    ensures Scanned(w, obj, i, j, q).access == q.access
    decreases |w.clists| - i, if i < |w.clists| && w.clists[i].CapList? then |w.clists[i].caps| - j else 0
  {
    if w.clists[i].NoList? || j >= |w.clists[i].caps| {
      GrantedCall(w, obj, i + 1, 0, q);
    } else if !(Matches(obj, w.clists[i].caps[j].address) && Lists(w.prot[obj], w.clists[i].caps[j].passwd, q.addr)) {
      GrantedCall(w, obj, i, j + 1, q);
    }
  }

  /** What vcache_add asserts of its callers: no negative right, and no M_PDX beside others. */
  predicate Askable(access: Access) {
    access & M_NOT == 0 && (access & M_PDX == 0 || access & M_OWNER == 0)
  }

  /** The same for what a validation in this world adds: where there are denials, an access that asks for nothing
      may be granted by a negative right. */
  ghost predicate Cacheable(w: World, access: Access) {
    Askable(access) && (access != 0 || NoDenials(w))
  }

  /** Validation keeps the cache backed, whatever it adds, evicts or drops. */
  lemma ValidateKeepsBacked(w: World, c: Cache, q: Query, later: Time)
    requires Sane(w) && Backed(w, c) && Cacheable(w, q.access)
    ensures Backed(w, Validate(w, c, q, later).cache)
  {
    var a, s := Check(c, q), Slow(w, q);
    PurgeKeepsBacked(w, c, q);
    if !a.Hit? && s.Granted? {
      var obj := Scan(w.objs, q.addr)[0];
      var i := Info(later, s.access, obj, s.cap, s.pdxSlot);
      var e := RangeOf(obj, s.access, s.cap);
      NewEntryBacked(w, q, later);
      hide Backed, BackedEntry, Slow, Check, Filled;
      FillKeepsBacked(w, a.cache, VictimOf(a.cache, later), e, i);
    }
  }

  lemma NewEntryBacked(w: World, q: Query, later: Time)
    requires Sane(w) && Cacheable(w, q.access) && Slow(w, q).Granted?
    ensures var s, obj := Slow(w, q), Scan(w.objs, q.addr)[0];
            var i := Info(later, s.access, obj, s.cap, s.pdxSlot);
            BackedEntry(w, RangeOf(obj, s.access, s.cap), i) && i.rights & M_NOT == 0
  {
    var s, obj := Slow(w, q), Scan(w.objs, q.addr)[0];
    if q.access & M_PDX == 0 {
      GrantedEntitles(w, obj, 0, 0, q);
    } else {
      GrantedCall(w, obj, 0, 0, q);
    }
  }

  lemma FillKeepsBacked(w: World, c: Cache, slot: nat, e: Entry, i: Info)
    requires Backed(w, c) && slot < VCACHE_SIZE && BackedEntry(w, e, i) && i.rights & M_NOT == 0
    ensures Backed(w, Cache(slot, c.entries[slot := e], c.infos[slot := i]))
  {
  }

  lemma PurgeKeepsBacked(w: World, c: Cache, q: Query)
    requires Backed(w, c)
    ensures Backed(w, Check(c, q).cache)
  {
    var r := Check(c, q).cache;
    DropKeepsBacked(w, c, r);
  }

  lemma DropKeepsBacked(w: World, c: Cache, r: Cache)
    requires Backed(w, c) && VCaches.Sized(r) && r.infos == c.infos
    requires forall i :: 0 <= i < VCACHE_SIZE ==> r.entries[i] == c.entries[i] || r.entries[i] == EMPTY
    ensures Backed(w, r)
  {
    forall i | 0 <= i < VCACHE_SIZE ensures BackedEntry(w, r.entries[i], r.infos[i]) {
      assert BackedEntry(w, c.entries[i], c.infos[i]);
    }
  }

  /** So does dropping the entries for an address; and a flush makes any cache backed, whatever
      the objects, passwords and capability lists are from then on. */
  lemma FlushBacks(w: World, c: Cache, addr: nat)
    requires VCaches.Sized(c)
    ensures Backed(w, Flushed(c))
    ensures Backed(w, c) ==> Backed(w, FlushedAddr(c, addr))
  {
  }

  // ---------------------------------------------------------------- runs

  datatype Event = Ask(q: Query, later: Time) | FlushAddr(addr: nat)

  predicate AllAskable(run: seq<Event>) {
    forall i :: 0 <= i < |run| && run[i].Ask? ==> Askable(run[i].q.access)
  }

  ghost predicate AllCacheable(w: World, run: seq<Event>) {
    forall i :: 0 <= i < |run| && run[i].Ask? ==> Cacheable(w, run[i].q.access)
  }

  /** The cache after a flush and a run of validations and address flushes. */
  ghost function After(w: World, c: Cache, run: seq<Event>): (r: Cache)
    requires Sane(w) && VCaches.Sized(c)
    ensures VCaches.Sized(r)
  {
    if run == [] then Flushed(c)
    else
      var before := After(w, c, run[..|run| - 1]);
      match run[|run| - 1]
      case Ask(q, later) => Validate(w, before, q, later).cache
      case FlushAddr(addr) => FlushedAddr(before, addr)
  }

  lemma {:induction false} RunsBacked(w: World, c: Cache, run: seq<Event>)
    requires Sane(w) && VCaches.Sized(c) && AllCacheable(w, run)
    ensures Backed(w, After(w, c, run))
  {
    if run == [] {
      FlushBacks(w, c, 0);
    } else {
      var earlier := run[..|run| - 1];
      RunsBacked(w, c, earlier);
      match run[|run| - 1]
      case Ask(q, later) => ValidateKeepsBacked(w, After(w, c, earlier), q, later);
      case FlushAddr(addr) => FlushBacks(w, After(w, c, earlier), addr);
    }
  }

  /** When no password denies anything: after every run since the last flush, validation answers what the scan
      without a cache answers, for every address and every access other than a procedure call. */
  lemma CacheIsInvisible(w: World, c: Cache, run: seq<Event>, q: Query, later: Time)
    requires Sane(w) && NoDenials(w) && VCaches.Sized(c) && AllAskable(run) && q.access & M_PDX == 0
    ensures Validate(w, After(w, c, run), q, later).obj == Uncached(w, q)
  {
    RunsBacked(w, c, run);
    var before := After(w, c, run);
    if Check(before, q).Hit? {
      HitAgrees(w, before, q);
    }
  }

  // ---------------------------------------------------------------- the loops

  /** do_validate_passwd_std */
  method do_validate_passwd_std(p: Protection, pw: Passwd, access: Access) returns (r: Judgement)
    requires |p.passwds| == |p.rights|
    ensures r == Std(p, 0, pw, access)
    ensures r.verdict == DENIED <==> Denied(p, pw, access)
    ensures forall rights :: Allowed(p, pw, access, rights) <==> r.verdict == ALLOWED && r.access == rights
  {
    StdVerdict(p, 0, pw, access);
    var i := 0;
    while i < |p.passwds|
      invariant i <= |p.passwds| && Std(p, 0, pw, access) == Std(p, i, pw, access)
    {
      if p.passwds[i] == pw {
        var rights := p.rights[i];
        if access & rights != 0 && rights & M_NOT != 0 {
          return Judgement(DENIED, access, -1);
        }
        if access & !rights == 0 {
          return Judgement(ALLOWED, rights, -1);
        }
      }
      i := i + 1;
    }
    r := Judgement(UNKNOWN, access, -1);
  }

  /** The arrays of the objects hold the procedures of the world. */
  ghost predicate Represents(tables: map<Extent, PdxTables.PdxTable>, w: World, o: Extent)
    requires o in w.prot
    reads if o in tables then {tables[o], tables[o].clist, tables[o].passwd, tables[o].n_entry, tables[o].x_entry,
          tables[o].entry} else {}
  {
    o in tables && tables[o].Valid() && tables[o].list == w.prot[o].pdx
  }

  /** do_validate_passwd */
  method do_validate_passwd(tables: map<Extent, PdxTables.PdxTable>, w: World, o: Extent, pw: Passwd, q: Query)
    returns (r: Judgement)
    requires o in w.prot && |w.prot[o].passwds| == |w.prot[o].rights| && Represents(tables, w, o)
    ensures r == Judge(w.prot[o], pw, q.access, q.addr)
  {
    if q.access & M_PDX == 0 {
      r := do_validate_passwd_std(w.prot[o], pw, q.access);
    } else {
      var found, slot := tables[o].FindProcedure(pw, q.addr);
      r := if found then Judgement(ALLOWED, q.access, slot) else Judgement(UNKNOWN, q.access, -1);
    }
  }

  /** The nested loops of do_validate_obj. */
  method ScanLists(tables: map<Extent, PdxTables.PdxTable>, w: World, o: Extent, q: Query) returns (r: Outcome)
    requires o in w.prot && |w.prot[o].passwds| == |w.prot[o].rights| && Represents(tables, w, o)
    ensures r == Scanned(w, o, 0, 0, q)
  {
    for i := 0 to |w.clists|
      invariant Scanned(w, o, 0, 0, q) == Scanned(w, o, i, 0, q)
    {
      if w.clists[i].CapList? {
        var caps := w.clists[i].caps;
        for j := 0 to |caps|
          invariant Scanned(w, o, 0, 0, q) == Scanned(w, o, i, j, q)
        {
          if Matches(o, caps[j].address) {
            var v := do_validate_passwd(tables, w, o, caps[j].passwd, q);
            match v.verdict {
              case ALLOWED => return Granted(CapPtr(i, j, caps[j]), v.access, v.pdxSlot);
              case UNKNOWN =>
              case DENIED => return Refused(CapPtr(i, j, caps[j]));
            }
          }
        }
      }
    }
    r := Nothing;
  }

  /** The object is returned that contains the address, if the APD may have the access. */
  ghost predicate Rightful(w: World, q: Query, obj: seq<Extent>) {
    forall o :: obj == [o] <==> o in w.objs && o.base <= q.addr < o.end && Permitted(w, o, q.access)
  }

  lemma MissMeans(w: World, c: Cache, q: Query, later: Time)
    requires Sane(w) && VCaches.Sized(c) && q.access & M_PDX == 0 && Check(c, q).Miss?
    ensures Rightful(w, q, Validate(w, c, q, later).obj)
  {
    hide Check, Scanned, Permitted;
    var obj := Validate(w, c, q, later).obj;
    forall o ensures obj == [o] <==> o in w.objs && o.base <= q.addr < o.end && Permitted(w, o, q.access) {
      UncachedMeans(w, q, o);
    }
  }

  /** do_validate_obj */
  method do_validate_obj(vcache: VCache, tables: map<Extent, PdxTables.PdxTable>, w: World, q: Query, later: Time)
    returns (obj: seq<Extent>)
    requires vcache.Valid() && Sane(w) && Cacheable(w, q.access)
    requires forall o :: o in w.prot ==> Represents(tables, w, o)
    modifies vcache, vcache.cache_obj, vcache.cache_inf
    ensures old(vcache.Valid()) && vcache.Valid()
    ensures obj == Validate(w, old(vcache.State()), q, later).obj
    ensures vcache.State() == Validate(w, old(vcache.State()), q, later).cache
    ensures q.access & M_PDX == 0 && Check(old(vcache.State()), q).Miss? ==> Rightful(w, q, obj)
  {
    hide Rightful, Validate, Slow, Uncached, Answers, Filled, VictimOf;
    obj := Decide(vcache, tables, w, q, later);
    if q.access & M_PDX == 0 && Check(old(vcache.State()), q).Miss? {
      MissMeans(w, old(vcache.State()), q, later);
    }
  }

  /** The steps of do_validate_obj. */
  method Decide(vcache: VCache, tables: map<Extent, PdxTables.PdxTable>, w: World, q: Query, later: Time)
    returns (obj: seq<Extent>)
    requires vcache.Valid() && Sane(w) && Cacheable(w, q.access)
    requires forall o :: o in w.prot ==> Represents(tables, w, o)
    modifies vcache, vcache.cache_obj, vcache.cache_inf
    ensures old(vcache.Valid()) && vcache.Valid()
    ensures obj == Validate(w, old(vcache.State()), q, later).obj
    ensures vcache.State() == Validate(w, old(vcache.State()), q, later).cache
  {
    hide Good, Purged, FirstGood, Scanned, Scan, Sane, Victim, Check, Represents, RangeOf, VictimOf, Filled;
    ghost var c := vcache.State();
    var hit, slot := vcache.vcache_check(q);
    if hit {
      return [vcache.cache_inf[slot].obj];
    }
    obj := Scan(w.objs, q.addr);
    if obj == [] {
      return;
    }
    FoundIsProtected(w, q);
    var r := ScanLists(tables, w, obj[0], q);
    if r.Granted? {
      GrantedIsCacheable(w, q);
      ghost var s := vcache.vcache_add(obj[0], r.access, r.cap, r.pdxSlot, later);
      VictimUnique(Check(c, q).cache, later, s, VictimOf(Check(c, q).cache, later));
    } else {
      obj := [];
    }
  }

  lemma FoundIsProtected(w: World, q: Query)
    requires Sane(w) && Scan(w.objs, q.addr) != []
    ensures var o := Scan(w.objs, q.addr)[0]; o in w.prot && |w.prot[o].passwds| == |w.prot[o].rights|
  {
  }

  /** The assertions of vcache_add hold. */
  lemma GrantedIsCacheable(w: World, q: Query)
    requires Sane(w) && Cacheable(w, q.access) && Slow(w, q).Granted?
    ensures Askable(Slow(w, q).access)
  {
    var obj := Scan(w.objs, q.addr)[0];
    if q.access & M_PDX == 0 {
      GrantedEntitles(w, obj, 0, 0, q);
    } else {
      GrantedCall(w, obj, 0, 0, q);
    }
  }
}

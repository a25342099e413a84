/** The validation cache of kernel/src/vcache.c. */
module VCaches {
  import opened Extents
  import PdxTables

  type Access = bv8

  const M_EXECUTE: Access := 1
  const M_WRITE: Access := 2
  const M_READ: Access := 4
  const M_DESTROY: Access := 8
  const M_PDX: Access := 16
  const M_NOT: Access := 32
  const M_OWNER: Access := M_EXECUTE | M_READ | M_WRITE | M_DESTROY

  const VCACHE_SIZE: nat := 16
  const VCACHE_TIMEOUT: nat := 60

  const TIME_MODULUS: nat := 0x1_0000_0000_0000_0000
  type Time = t: nat | t < 0x1_0000_0000_0000_0000

  /** A capability and where it is: the index of its capability list and its index in that. */
  datatype CapPtr = CapPtr(list: nat, index: nat, cap: PdxTables.Cap)

  /** vcache_entry and vcache_info */
  datatype Entry = Entry(base: nat, limit: nat)
  datatype Info = Info(timestamp: Time, rights: Access, obj: Extent, cap: CapPtr, pdxSlot: int)

  const EMPTY := Entry(0, 0)

  datatype Cache = Cache(last: nat, entries: seq<Entry>, infos: seq<Info>)

  predicate Sized(c: Cache) {
    |c.entries| == |c.infos| == VCACHE_SIZE && c.last < VCACHE_SIZE
  }

  /** What a check asks for, and when. */
  datatype Query = Query(addr: nat, access: Access, now: Time)

  predicate Covers(e: Entry, q: Query) {
    if q.access & M_PDX != 0 then q.addr == e.base && q.addr == e.limit else e.base <= q.addr < e.limit
  }

  /** Unsigned 64-bit subtraction, compared with the timeout. */
  predicate TimedOut(i: Info, now: Time) {
    (now - i.timestamp + TIME_MODULUS) % TIME_MODULUS > VCACHE_TIMEOUT
  }

  predicate Grants(rights: Access, access: Access) {
    !rights & access == 0
  }

  /** check_entry answers true. */
  predicate Good(c: Cache, i: nat, q: Query)
    requires Sized(c) && i < VCACHE_SIZE
  {
    Covers(c.entries[i], q) && !TimedOut(c.infos[i], q.now) && Grants(c.infos[i].rights, q.access)
  }

  /** check_entry empties the entry. */
  predicate Stale(c: Cache, i: nat, q: Query)
    requires Sized(c) && i < VCACHE_SIZE
  {
    Covers(c.entries[i], q) && TimedOut(c.infos[i], q.now)
  }

  /** The range of the entry has the address; for a call the entry has to be filed at just that address. */
  predicate InRange(e: Entry, q: Query) {
    (q.access & M_PDX == 0 && e.base <= q.addr && q.addr < e.limit) ||
    (q.access & M_PDX != 0 && e.base == q.addr && e.limit == q.addr)
  }

  /** At most 60 units of time have passed since the entry was made, on a clock that wraps round at 2^64. */
  predicate Recent(i: Info, now: Time) {
    i.timestamp <= now <= i.timestamp + 60 || now + 0x1_0000_0000_0000_0000 <= i.timestamp + 60
  }

  /** The entry is in range and recent, and has all the rights asked for. */
  predicate Answers(e: Entry, i: Info, q: Query) {
    InRange(e, q) && Recent(i, q.now) && q.access & i.rights == q.access
  }

  lemma AnswersIs(c: Cache, i: nat, q: Query)
    requires Sized(c) && i < VCACHE_SIZE
    ensures Good(c, i, q) <==> Answers(c.entries[i], c.infos[i], q)
    ensures Stale(c, i, q) <==> InRange(c.entries[i], q) && !Recent(c.infos[i], q.now)
  {
    GrantedParts(c.infos[i].rights, q.access);
  }

  /** The stale entries before a position, and the last one used, are emptied. */
  function Purged(c: Cache, upto: nat, q: Query): (p: Cache)
    requires Sized(c) && upto <= VCACHE_SIZE
    ensures Sized(p) && p.last == c.last && p.infos == c.infos
  {
    c.(entries := seq(VCACHE_SIZE, i requires 0 <= i < VCACHE_SIZE =>
      if (i < upto || i == c.last) && Stale(c, i, q) then EMPTY else c.entries[i]))
  }

  /** The first good entry from a position on, or VCACHE_SIZE. */
  function FirstGood(c: Cache, from: nat, q: Query): (i: nat)
    requires Sized(c) && from <= VCACHE_SIZE
    ensures from <= i <= VCACHE_SIZE
    ensures i < VCACHE_SIZE ==> Good(c, i, q)
    ensures forall j :: from <= j < i ==> !Good(c, j, q)
    decreases VCACHE_SIZE - from
  {
    if from == VCACHE_SIZE || Good(c, from, q) then from else FirstGood(c, from + 1, q)
  }

  /** The slot that answers a check, and the cache after it. */
  datatype Answer = Miss(cache: Cache) | Hit(slot: nat, cache: Cache)

  /** vcache_check */
  function Check(c: Cache, q: Query): (a: Answer)
    requires Sized(c)
    ensures Sized(a.cache)
    ensures a.Hit? ==> a.slot < VCACHE_SIZE && Good(c, a.slot, q)
  {
    var k := FirstGood(c, 0, q);
    if q.addr == 0 then Miss(c)
    else if Good(c, c.last, q) then Hit(c.last, c)
    else if k < VCACHE_SIZE then Hit(k, Purged(c, k, q).(last := k))
    else Miss(Purged(c, VCACHE_SIZE, q))
  }

  /** A check misses exactly when no entry is good: the shortcut through the last entry used
      changes no answer. */
  lemma CheckComplete(c: Cache, q: Query)
    requires Sized(c) && q.addr != 0
    ensures Check(c, q).Hit? <==> exists i :: 0 <= i < VCACHE_SIZE && Good(c, i, q)
  {
  }

  /** The entries that are as they were, and those that were emptied, each of which was in range and too old. */
  ghost predicate OnlyOldGone(c: Cache, r: Cache, q: Query)
    requires Sized(c) && Sized(r)
  {
    r.infos == c.infos &&
    forall i :: 0 <= i < VCACHE_SIZE ==>
        r.entries[i] == c.entries[i] ||
        (r.entries[i] == Entry(0, 0) && InRange(c.entries[i], q) && !Recent(c.infos[i], q.now))
  }

  /** A check finds an entry exactly when one answers: the last one used if that does, else the first. */
  lemma CheckMeans(c: Cache, q: Query)
    requires Sized(c)
    ensures var r := Check(c, q);
            && (q.addr == 0 ==> r == Miss(c))
            && (q.addr != 0 ==>
                  (r.Hit? <==> exists i :: 0 <= i < VCACHE_SIZE && Answers(c.entries[i], c.infos[i], q)))
            && (r.Hit? ==>
                  && r.slot < VCACHE_SIZE && Answers(c.entries[r.slot], c.infos[r.slot], q) && r.cache.last == r.slot
                  && (Answers(c.entries[c.last], c.infos[c.last], q) ==> r.slot == c.last)
                  && (r.slot != c.last ==>
                        forall i :: 0 <= i < r.slot ==> !Answers(c.entries[i], c.infos[i], q)))
  {
    hide Answers, Good, Stale, Purged;
    forall i: nat | i < VCACHE_SIZE ensures Good(c, i, q) <==> Answers(c.entries[i], c.infos[i], q) {
      AnswersIs(c, i, q);
    }
  }

  /** Only entries that are in range and too old are emptied by a check, and after a miss all of them are. */
  lemma CheckEmpties(c: Cache, q: Query)
    requires Sized(c)
    ensures OnlyOldGone(c, Check(c, q).cache, q)
    ensures Check(c, q).Miss? && q.addr != 0 ==>
              forall i :: 0 <= i < VCACHE_SIZE && InRange(c.entries[i], q) && !Recent(c.infos[i], q.now) ==>
                  Check(c, q).cache.entries[i] == Entry(0, 0)
  {
    hide InRange, Recent, Good, Stale;
    forall i: nat | i < VCACHE_SIZE
      ensures Stale(c, i, q) <==> InRange(c.entries[i], q) && !Recent(c.infos[i], q.now)
    {
      AnswersIs(c, i, q);
    }
  }

  // ---------------------------------------------------------------- adding

  /** The first empty entry, or VCACHE_SIZE. */
  function FirstEmpty(c: Cache, from: nat): (i: nat)
    requires Sized(c) && from <= VCACHE_SIZE
    ensures from <= i <= VCACHE_SIZE
    ensures i < VCACHE_SIZE ==> c.entries[i].base == 0
    ensures forall j :: from <= j < i ==> c.entries[j].base != 0
    decreases VCACHE_SIZE - from
  {
    if from == VCACHE_SIZE || c.entries[from].base == 0 then from else FirstEmpty(c, from + 1)
  }

  lemma EmptyStep(c: Cache, i: nat)
    requires Sized(c) && i < VCACHE_SIZE
    ensures FirstEmpty(c, i) == if c.entries[i].base == 0 then i else FirstEmpty(c, i + 1)
  {
  }

  /** The slot is the first with the smallest timestamp below the bound, or 0 if there is none. */
  ghost predicate Oldest(c: Cache, n: nat, bound: nat, slot: nat)
    requires Sized(c) && n <= VCACHE_SIZE
  {
    && slot < VCACHE_SIZE
    && if exists j :: 0 <= j < n && c.infos[j].timestamp < bound then
         && slot < n && c.infos[slot].timestamp < bound
         && (forall j :: 0 <= j < n ==> c.infos[slot].timestamp <= c.infos[j].timestamp)
         && (forall j :: 0 <= j < slot ==> c.infos[slot].timestamp < c.infos[j].timestamp)
       else slot == 0
  }

  /** The slot that vcache_add uses: an empty one if there is any, else the oldest. */
  ghost predicate Victim(c: Cache, now: Time, slot: nat)
    requires Sized(c)
  {
    var k := FirstEmpty(c, 0);
    if k < VCACHE_SIZE then slot == k else Oldest(c, VCACHE_SIZE, (now + 1) % TIME_MODULUS, slot)
  }

  /** There is exactly one such slot. */
  lemma VictimUnique(c: Cache, now: Time, s: nat, t: nat)
    requires Sized(c) && Victim(c, now, s) && Victim(c, now, t)
    ensures s == t
  {
  }

  /** The oldest among the first n. */
  ghost function OldestOf(c: Cache, n: nat, bound: nat): (slot: nat)
    requires Sized(c) && n <= VCACHE_SIZE
    ensures Oldest(c, n, bound, slot)
  {
    if n == 0 then 0
    else
      var slot := OldestOf(c, n - 1, bound);
      if c.infos[n - 1].timestamp < bound
         && ((exists j :: 0 <= j < n - 1 && c.infos[j].timestamp < bound) ==>
             c.infos[n - 1].timestamp < c.infos[slot].timestamp)
      then n - 1 else slot
  }

  ghost function VictimOf(c: Cache, now: Time): (slot: nat)
    requires Sized(c)
    ensures slot < VCACHE_SIZE && Victim(c, now, slot)
  {
    var k := FirstEmpty(c, 0);
    if k < VCACHE_SIZE then k else OldestOf(c, VCACHE_SIZE, (now + 1) % TIME_MODULUS)
  }

  /** The range an entry is for: the object, or the target address of a procedure. */
  function RangeOf(obj: Extent, access: Access, cap: CapPtr): Entry {
    if access & M_PDX != 0 then Entry(cap.cap.address, cap.cap.address) else Entry(obj.base, obj.end)
  }

  /** vcache_add, once the slot is chosen. */
  function Filled(c: Cache, slot: nat, obj: Extent, access: Access, cap: CapPtr, pdxSlot: int, now: Time): (r: Cache)
    requires Sized(c) && slot < VCACHE_SIZE
    ensures Sized(r)
  {
    Cache(slot, c.entries[slot := RangeOf(obj, access, cap)], c.infos[slot := Info(now, access, obj, cap, pdxSlot)])
  }

  /** The cache after vcache_add at time t. */
  ghost function Added(c: Cache, obj: Extent, access: Access, cap: CapPtr, pdxSlot: int, t: Time): (r: Cache)
    requires Sized(c)
    ensures Sized(r)
  {
    Filled(c, VictimOf(c, t), obj, access, cap, pdxSlot, t)
  }

  /** What was added answers for the next 60 units of time, wrapping round at 2^64: every access to the object
      that asks for no more than the granted rights. */
  lemma AnswersForAMinute(c: Cache, obj: Extent, access: Access, cap: CapPtr, pdxSlot: int, t: Time, q: Query, n: nat)
    requires Sized(c) && n <= 60 && q.now == (t + n) % 0x1_0000_0000_0000_0000
    requires access & M_PDX == 0 && q.access & M_PDX == 0 && q.access & access == q.access
    requires q.addr != 0 && obj.base <= q.addr < obj.end
    ensures var r := Added(c, obj, access, cap, pdxSlot, t);
            Check(r, q) == Hit(VictimOf(c, t), r) && r.infos[VictimOf(c, t)].obj == obj
  {
    hide FirstGood, Purged, VictimOf;
    Elapsed(t, n);
    GrantedParts(access, q.access);
  }

  /** A later check never gets an answer from it, and empties it. */
  lemma NoLaterAnswer(c: Cache, obj: Extent, access: Access, cap: CapPtr, pdxSlot: int, t: Time, q: Query, n: nat)
    requires Sized(c) && 60 < n < 0x1_0000_0000_0000_0000 && q.now == (t + n) % 0x1_0000_0000_0000_0000
    requires access & M_PDX == 0 && q.access & M_PDX == 0
    requires q.addr != 0 && obj.base <= q.addr < obj.end
    ensures var r := Check(Added(c, obj, access, cap, pdxSlot, t), q);
            (r.Hit? ==> r.slot != VictimOf(c, t)) && r.cache.entries[VictimOf(c, t)] == Entry(0, 0)
  {
    hide VictimOf;
    Elapsed(t, n);
  }

  lemma Elapsed(t: Time, n: nat)
    requires n < 0x1_0000_0000_0000_0000
    ensures ((t + n) % 0x1_0000_0000_0000_0000 - t) % 0x1_0000_0000_0000_0000 == n
    ensures ((t + n) % TIME_MODULUS - t + TIME_MODULUS) % TIME_MODULUS == n
  {
  }

  lemma GrantedParts(rights: Access, a: Access)
    ensures Grants(rights, a) <==> a & rights == a
  {
  }

  function AllEmpty(): (r: seq<Entry>)
    ensures |r| == VCACHE_SIZE && forall i :: 0 <= i < VCACHE_SIZE ==> r[i] == EMPTY
  {
    seq(VCACHE_SIZE, _ => EMPTY)
  }

  /** vcache_flush */
  function Flushed(c: Cache): (r: Cache)
    requires Sized(c)
    ensures Sized(r)
  {
    Cache(0, AllEmpty(), c.infos)
  }

  /** vcache_flush_addr */
  function FlushedAddr(c: Cache, addr: nat): (r: Cache)
    requires Sized(c)
    ensures Sized(r)
  {
    c.(entries := seq(VCACHE_SIZE, i requires 0 <= i < VCACHE_SIZE =>
      if c.entries[i].base <= addr < c.entries[i].limit then EMPTY else c.entries[i]))
  }

  /** Which entries still answer a check at an address after that address was flushed: none for accesses other
      than calls, and for calls all that were filed at the address, since their range includes nothing. */
  lemma FlushLeavesCalls(c: Cache, i: nat, q: Query)
    requires Sized(c) && i < VCACHE_SIZE && q.addr != 0
    ensures Good(FlushedAddr(c, q.addr), i, q) <==> q.access & M_PDX != 0 && Good(c, i, q)
    ensures q.access & M_PDX != 0 && Good(c, i, q) ==> c.entries[i] == Entry(q.addr, q.addr)
  {
  }

  /** So a check at a flushed address hits if and only if it is for a call and would have hit before. */
  lemma CheckAfterFlush(c: Cache, q: Query)
    requires Sized(c) && q.addr != 0
    ensures Check(FlushedAddr(c, q.addr), q).Hit? <==> q.access & M_PDX != 0 && Check(c, q).Hit?
  {
    hide Good, FlushedAddr, Check;
    CheckComplete(c, q);
    CheckComplete(FlushedAddr(c, q.addr), q);
    forall i: nat | i < VCACHE_SIZE
      ensures Good(FlushedAddr(c, q.addr), i, q) <==> q.access & M_PDX != 0 && Good(c, i, q)
    {
      FlushLeavesCalls(c, i, q);
    }
  }

  class VCache {
    var last: nat
    const cache_obj: array<Entry>
    const cache_inf: array<Info>

    ghost function State(): Cache
      reads this, cache_obj, cache_inf
    {
      Cache(last, cache_obj[..], cache_inf[..])
    }

    ghost predicate Valid()
      reads this, cache_obj, cache_inf
    {
      Sized(State())
    }

    constructor (zero: Info)
      ensures Valid() && fresh(cache_obj) && fresh(cache_inf)
      ensures State() == Flushed(State())
    {
      last := 0;
      cache_obj := new Entry[VCACHE_SIZE](_ => EMPTY);
      cache_inf := new Info[VCACHE_SIZE](_ => zero);
    }

    method vcache_flush()
      requires Valid()
      modifies this, cache_obj
      ensures Valid() && State() == Flushed(old(State()))
      ensures last == 0 && forall i :: 0 <= i < VCACHE_SIZE ==> cache_obj[i] == Entry(0, 0)
    {
      last := 0;
      for i := 0 to VCACHE_SIZE
        invariant last == 0 && forall j :: 0 <= j < i ==> cache_obj[j] == EMPTY
      {
        cache_obj[i] := EMPTY;
      }
      assert cache_obj[..] == AllEmpty();
    }

    method vcache_flush_addr(addr: nat)
      requires Valid()
      modifies cache_obj
      ensures Valid() && State() == FlushedAddr(old(State()), addr)
      ensures forall i :: 0 <= i < VCACHE_SIZE ==>
                cache_obj[i] == if old(cache_obj[i].base) <= addr < old(cache_obj[i].limit) then Entry(0, 0)
                                else old(cache_obj[i])
    {
      ghost var c := State();
      for i := 0 to VCACHE_SIZE
        invariant forall j :: 0 <= j < i ==> cache_obj[j] == FlushedAddr(c, addr).entries[j]
        invariant forall j :: i <= j < VCACHE_SIZE ==> cache_obj[j] == c.entries[j]
      {
        if cache_obj[i].base <= addr < cache_obj[i].limit {
          cache_obj[i] := EMPTY;
        }
      }
      assert State() == FlushedAddr(c, addr);
    }

    /** check_entry */
    method check_entry(i: nat, q: Query) returns (good: bool)
      requires Valid() && i < VCACHE_SIZE
      modifies cache_obj
      ensures Valid() && good == Good(old(State()), i, q)
      ensures State() == old(State()).(entries := Emptied(old(State()), i, q))
      ensures good <==> Answers(old(cache_obj[i]), old(cache_inf[i]), q)
      ensures cache_obj[i] == if InRange(old(cache_obj[i]), q) && !Recent(old(cache_inf[i]), q.now) then Entry(0, 0)
                              else old(cache_obj[i])
    {
      AnswersIs(State(), i, q);
      if !Covers(cache_obj[i], q) {
        return false;
      }
      if TimedOut(cache_inf[i], q.now) {
        cache_obj[i] := EMPTY;
        return false;
      }
      good := Grants(cache_inf[i].rights, q.access);
    }

    /** vcache_check */
    method vcache_check(q: Query) returns (hit: bool, slot: nat)
      requires Valid()
      modifies this, cache_obj
      ensures Valid() && State() == Check(old(State()), q).cache
      ensures hit == Check(old(State()), q).Hit? && (hit ==> slot == Check(old(State()), q).slot)
    {
      ghost var c := State();
      if q.addr == 0 {
        return false, 0;
      }
      hit := check_entry(last, q);
      if hit {
        return true, last;
      }
      PurgeLast(c, q);
      hide Good, Stale, Purged;
      slot := 0;
      while slot < VCACHE_SIZE
        invariant slot <= VCACHE_SIZE && Valid() && State() == Purged(c, slot, q)
        invariant FirstGood(c, 0, q) == FirstGood(c, slot, q) && !Good(c, c.last, q)
      {
        PurgeStep(c, slot, q);
        hit := check_entry(slot, q);
        if hit {
          last := slot;
          return;
        }
        slot := slot + 1;
      }
      return false, 0;
    }

    /** The choice of a slot in vcache_add. */
    method ChooseSlot(now: Time) returns (slot: nat)
      requires Valid()
      ensures slot < VCACHE_SIZE && Victim(State(), now, slot)
    {
      hide FirstEmpty;
      ghost var c := State();
      slot := 0;
      var bound := (now + 1) % TIME_MODULUS;
      var oldest := bound;
      var i := 0;
      while i < VCACHE_SIZE
        invariant i <= VCACHE_SIZE && FirstEmpty(c, 0) == FirstEmpty(c, i)
        invariant Oldest(c, i, bound, slot)
        invariant oldest ==
                  if exists j :: 0 <= j < i && c.infos[j].timestamp < bound then c.infos[slot].timestamp else bound
      {
        EmptyStep(c, i);
        if cache_obj[i].base == 0 {
          return i;
        }
        if cache_inf[i].timestamp < oldest {
          oldest, slot := cache_inf[i].timestamp, i;
        }
        i := i + 1;
      }
    }

    /** vcache_add */
    method vcache_add(obj: Extent, access: Access, cap: CapPtr, pdxSlot: int, now: Time) returns (ghost slot: nat)
      requires Valid()
      requires access & M_NOT == 0 && (access & M_PDX == 0 || access & M_OWNER == 0)
      modifies this, cache_obj, cache_inf
      ensures old(Valid()) && Valid() && slot < VCACHE_SIZE && Victim(old(State()), now, slot)
      ensures State() == Filled(old(State()), slot, obj, access, cap, pdxSlot, now)
      ensures last == slot && cache_inf[slot] == Info(now, access, obj, cap, pdxSlot)
      ensures cache_obj[slot] == if access & M_PDX != 0 then Entry(cap.cap.address, cap.cap.address)
                                 else Entry(obj.base, obj.end)
      ensures forall i :: 0 <= i < VCACHE_SIZE && i != slot ==>
                cache_obj[i] == old(cache_obj[i]) && cache_inf[i] == old(cache_inf[i])
    {
      var s := ChooseSlot(now);
      cache_obj[s] := RangeOf(obj, access, cap);
      cache_inf[s] := Info(now, access, obj, cap, pdxSlot);
      last, slot := s, s;
    }
  }

  /** Emptying one entry, if it is stale. */
  function Emptied(c: Cache, i: nat, q: Query): seq<Entry>
    requires Sized(c) && i < VCACHE_SIZE
  {
    if Stale(c, i, q) then c.entries[i := EMPTY] else c.entries
  }

  lemma PurgeLast(c: Cache, q: Query)
    requires Sized(c)
    ensures c.(entries := Emptied(c, c.last, q)) == Purged(c, 0, q)
  {
    assert Emptied(c, c.last, q) == Purged(c, 0, q).entries;
  }

  /** Emptying the stale entries before a slot does not change what the slot answers, and one step
      of the loop empties one more. */
  lemma PurgeStep(c: Cache, i: nat, q: Query)
    requires Sized(c) && i < VCACHE_SIZE && q.addr != 0
    ensures var p := Purged(c, i, q);
            && (Good(p, i, q) <==> Good(c, i, q))
            && p.(entries := Emptied(p, i, q)) == Purged(c, i + 1, q)
            && (Good(p, i, q) ==> Emptied(p, i, q) == p.entries)
  {
    var p := Purged(c, i, q);
    assert Emptied(p, i, q) == Purged(c, i + 1, q).entries;
  }
}

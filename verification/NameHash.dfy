/** The name table of lib/naming/namehash.c: a chain of entries under absolute names. */
module NameHashes {
  import opened Sequences
  import opened NamePath
  import opened NameTokens

  // nh_hash gives 0 for every name, so there is one chain.

  datatype Binding = Binding(name: string, value: nat)

  /** The position of a name, or |bs|. */
  function IndexOf(bs: seq<Binding>, name: string): (i: nat)
    ensures i <= |bs|
    ensures forall j :: 0 <= j < i ==> bs[j].name != name
    ensures i < |bs| ==> bs[i].name == name
  {
    if bs == [] || bs[0].name == name then 0 else 1 + IndexOf(bs[1..], name)
  }

  predicate Bound(bs: seq<Binding>, name: string) {
    IndexOf(bs, name) < |bs|
  }

  /** Every name is there once, and is absolute. */
  ghost predicate Keyed(bs: seq<Binding>) {
    && (forall i :: 0 <= i < |bs| ==> Canonical(bs[i].name))
    && (forall i, j :: 0 <= i < j < |bs| ==> bs[i].name != bs[j].name)
  }

  lemma {:induction false} IndexIs(bs: seq<Binding>, name: string, i: nat)
    requires i <= |bs|
    requires forall j :: 0 <= j < i ==> bs[j].name != name
    requires i < |bs| ==> bs[i].name == name
    ensures IndexOf(bs, name) == i
  {
    if i > 0 {
      IndexIs(bs[1..], name, i - 1);
    }
  }

  datatype Changed = Changed(ok: bool, bindings: seq<Binding>)

  /** nh_insert: at the end of the chain, unless the name is there. */
  function Insert(bs: seq<Binding>, name: string, value: nat): Changed {
    if Bound(bs, name) then Changed(false, bs) else Changed(true, bs + [Binding(name, value)])
  }

  /** nh_delete */
  function Delete(bs: seq<Binding>, name: string): Changed {
    if Bound(bs, name) then Changed(true, RemovedAt(bs, IndexOf(bs, name))) else Changed(false, bs)
  }

  /** nh_modify */
  function Modify(bs: seq<Binding>, name: string, value: nat): Changed {
    if Bound(bs, name) then Changed(true, bs[IndexOf(bs, name) := Binding(name, value)]) else Changed(false, bs)
  }

  /** nh_find */
  function Find(bs: seq<Binding>, name: string): seq<nat> {
    if Bound(bs, name) then [bs[IndexOf(bs, name)].value] else []
  }

  /** The name is bound. */
  ghost predicate Has(bs: seq<Binding>, name: string) {
    exists i :: 0 <= i < |bs| && bs[i].name == name
  }

  /** An insertion succeeds exactly when the name is not bound, and puts it last. */
  lemma InsertMeans(bs: seq<Binding>, name: string, value: nat)
    ensures var r := Insert(bs, name, value);
            (r.ok <==> !Has(bs, name)) && r.bindings == bs + if r.ok then [Binding(name, value)] else []
  {
  }

  /** A deletion succeeds exactly when it is, and takes one binding with that name out of the chain. */
  lemma DeleteMeans(bs: seq<Binding>, name: string)
    ensures var r := Delete(bs, name);
            && (r.ok <==> Has(bs, name)) && (!r.ok ==> r.bindings == bs)
            && (r.ok ==> exists i :: 0 <= i < |bs| && bs[i].name == name && r.bindings == bs[..i] + bs[i + 1..])
  {
    if Bound(bs, name) {
      assert Delete(bs, name).bindings == bs[..IndexOf(bs, name)] + bs[IndexOf(bs, name) + 1..];
    }
  }

  /** A modification succeeds exactly when it is, and changes the value of one binding with that name. */
  lemma ModifyMeans(bs: seq<Binding>, name: string, value: nat)
    ensures var r := Modify(bs, name, value);
            && (r.ok <==> Has(bs, name)) && (!r.ok ==> r.bindings == bs)
            && (r.ok ==>
                  exists i :: 0 <= i < |bs| && bs[i].name == name && r.bindings == bs[i := Binding(name, value)])
  {
    if Bound(bs, name) {
      assert Modify(bs, name, value).bindings == bs[IndexOf(bs, name) := Binding(name, value)];
    }
  }

  /** A lookup finds the value of a binding with that name, if there is one. */
  lemma FindMeans(bs: seq<Binding>, name: string)
    ensures Find(bs, name) == [] <==> !Has(bs, name)
    ensures Has(bs, name) ==> exists i :: 0 <= i < |bs| && bs[i].name == name && Find(bs, name) == [bs[i].value]
  {
    if Bound(bs, name) {
      assert Find(bs, name) == [bs[IndexOf(bs, name)].value];
    }
  }

  /** What an operation under one name does to lookups: those of other names are unaffected. */
  lemma InsertFind(bs: seq<Binding>, name: string, value: nat, n: string)
    requires Keyed(bs) && Canonical(name)
    ensures Keyed(Insert(bs, name, value).bindings)
    ensures Find(Insert(bs, name, value).bindings, n) == if n == name && !Bound(bs, name) then [value] else Find(bs, n)
  {
    var r := Insert(bs, name, value).bindings;
    if !Bound(bs, name) {
      if Bound(bs, n) {
        IndexIs(r, n, IndexOf(bs, n));
      } else {
        IndexIs(r, n, if n == name then |bs| else |bs| + 1);
      }
    }
  }

  lemma DeleteFind(bs: seq<Binding>, name: string, n: string)
    requires Keyed(bs)
    ensures Keyed(Delete(bs, name).bindings)
    ensures Find(Delete(bs, name).bindings, n) == if n == name then [] else Find(bs, n)
  {
    if Bound(bs, name) {
      RemovedKeyed(bs, IndexOf(bs, name));
      RemovedIndex(bs, IndexOf(bs, name), n);
    }
  }

  lemma RemovedKeyed(bs: seq<Binding>, i: nat)
    requires Keyed(bs) && i < |bs|
    ensures Keyed(RemovedAt(bs, i))
  {
    var r := RemovedAt(bs, i);
    RemovedAtElements(bs, i);
    hide RemovedAt;
    forall j | 0 <= j < |r| ensures Canonical(r[j].name) {
      assert r[j] == bs[if j < i then j else j + 1];
    }
    forall j, l | 0 <= j < l < |r| ensures r[j].name != r[l].name {
      assert r[j] == bs[if j < i then j else j + 1] && r[l] == bs[if l < i then l else l + 1];
    }
  }

  lemma RemovedIndex(bs: seq<Binding>, i: nat, n: string)
    requires Keyed(bs) && i < |bs|
    ensures var k, r := IndexOf(bs, n), RemovedAt(bs, i);
            if k == i then IndexOf(r, n) == |r|
            else IndexOf(r, n) == (if k > i then k - 1 else k) && (k < |bs| ==> r[IndexOf(r, n)] == bs[k])
  {
    var k, r := IndexOf(bs, n), RemovedAt(bs, i);
    RemovedAtElements(bs, i);
    hide RemovedAt, Canonical;
    var at := if k == i then |r| else if k > i then k - 1 else k;
    forall j | 0 <= j < at ensures r[j].name != n {
      assert r[j] == bs[if j < i then j else j + 1];
    }
    IndexIs(r, n, at);
  }

  lemma ModifyFind(bs: seq<Binding>, name: string, value: nat, n: string)
    requires Keyed(bs)
    ensures Keyed(Modify(bs, name, value).bindings)
    ensures Find(Modify(bs, name, value).bindings, n) == if n == name && Bound(bs, name) then [value] else Find(bs, n)
  {
    if Bound(bs, name) {
      var r := Modify(bs, name, value).bindings;
      IndexIs(r, n, IndexOf(bs, n));
    }
  }

  /** hashent_t */
  class HashEntry {
    const name: string
    var child: nat
    var next: HashEntry?

    constructor (name: string, child: nat)
      ensures this.name == name && this.child == child && this.next == null
    {
      this.name, this.child, this.next := name, child, null;
    }
  }

  class NameHash {
    var table: HashEntry?  // the one chain in use
    ghost var entries: seq<HashEntry>
    ghost var bindings: seq<Binding>
    ghost var Repr: set<HashEntry>

    ghost predicate Linked()
      reads this, Repr`next
    {
      && (forall i :: 0 <= i < |entries| ==> entries[i] in Repr)
      && table == ItemOr<HashEntry?>(entries, 0, null) && Distinct(entries)
      && (forall i {:trigger entries[i].next} :: 0 <= i < |entries| ==>
            entries[i].next == ItemOr<HashEntry?>(entries, i + 1, null))
    }

    ghost predicate Hold()
      reads this, entries`child
    {
      && |bindings| == |entries|
      && (forall i :: 0 <= i < |entries| ==>
          entries[i].name == bindings[i].name && entries[i].child == bindings[i].value)
    }

    ghost predicate Valid()
      reads this, Repr
    {
      Linked() && Hold() && Keyed(bindings)
    }

    constructor ()
      ensures Valid() && bindings == [] && fresh(Repr)
    {
      table, entries, bindings, Repr := null, [], [], {};
    }

    /** The search loop of all operations: the entry with the name and the one before it. */
    method Search(absolute: string) returns (ent: HashEntry?, prev: HashEntry?, ghost i: nat)
      requires Valid()
      ensures i == IndexOf(bindings, absolute) && ent == ItemOr<HashEntry?>(entries, i, null)
      ensures prev == if i == 0 then null else entries[i - 1]
    {
      hide Keyed, Distinct;
      ent, prev, i := table, null, 0;
      ghost var bs := bindings;
      while ent != null && ent.name != absolute
        invariant i <= |entries| && ent == ItemOr<HashEntry?>(entries, i, null)
        invariant prev == if i == 0 then null else entries[i - 1]
        invariant forall j :: 0 <= j < i ==> bs[j].name != absolute
        decreases |entries| - i
      {
        prev, ent, i := ent, ent.next, i + 1;
      }
      IndexIs(bs, absolute, i);
    }

    method nh_find(name: string, cwd: string) returns (found: bool, value: nat)
      requires Valid()
      ensures found == Bound(bindings, Absolute(name, cwd))
      ensures Find(bindings, Absolute(name, cwd)) == if found then [value] else []
    {
      var absolute := nh_absolute(name, cwd);
      var ent, prev, i := Search(absolute);
      found := ent != null;
      value := if found then ent.child else 0;
    }

    method nh_modify(name: string, value: nat, cwd: string) returns (ok: bool)
      requires Valid()
      modifies this, Repr
      ensures Valid() && Repr == old(Repr)
      ensures Changed(ok, bindings) == Modify(old(bindings), Absolute(name, cwd), value)
    {
      hide Absolute, Canonical, Keyed, Find, Distinct;
      var absolute := nh_absolute(name, cwd);
      var ent, prev, i := Search(absolute);
      if ent == null {
        return false;
      }
      ModifyFind(bindings, absolute, value, absolute);
      SetChild(ent, i, value);
      ok := true;
    }

    /** Overwrite the value of an entry. */
    method SetChild(ent: HashEntry, ghost i: nat, value: nat)
      requires Linked() && Hold() && i < |entries| && ent == entries[i]
      modifies this`bindings, ent
      ensures Linked() && Hold() && bindings == old(bindings)[i := Binding(old(bindings[i]).name, value)]
    {
      hide Distinct;
      DistinctAt(entries, i);
      ent.child := value;
      bindings := bindings[i := Binding(bindings[i].name, value)];
    }

    method nh_insert(name: string, value: nat, cwd: string) returns (ok: bool)
      requires Valid()
      modifies this, Repr
      ensures Valid() && fresh(Repr - old(Repr))
      ensures Changed(ok, bindings) == Insert(old(bindings), Absolute(name, cwd), value)
    {
      hide Absolute, Canonical, Keyed, Find;
      var absolute := nh_absolute(name, cwd);
      var ent, prev, i := Search(absolute);
      if ent != null {
        return false;
      }
      AbsoluteIsCanonical(name, cwd);
      InsertFind(bindings, absolute, value, absolute);
      AppendEntry(prev, absolute, value);
      ok := true;
    }

    /** A new entry at the end of the chain. */
    method AppendEntry(prev: HashEntry?, absolute: string, value: nat)
      requires Linked() && Hold() && prev == if entries == [] then null else entries[|entries| - 1]
      modifies this, Repr
      ensures Linked() && Hold() && fresh(Repr - old(Repr))
      ensures bindings == old(bindings) + [Binding(absolute, value)]
    {
      var enew := new HashEntry(absolute, value);
      ghost var es, n := entries, |entries|;
      if n > 0 {
        DistinctAt(es, n - 1);
      }
      if prev == null {
        table := enew;
      } else {
        prev.next := enew;
      }
      entries, bindings, Repr := es + [enew], bindings + [Binding(absolute, value)], Repr + {enew};
      forall j | 0 <= j < |entries|
        ensures entries[j] in Repr && entries[j].next == ItemOr<HashEntry?>(entries, j + 1, null)
      {
        assert j < n ==> entries[j] == es[j];
      }
    }

    method nh_delete(name: string, cwd: string) returns (ok: bool)
      requires Valid()
      modifies this, Repr
      ensures Valid() && Repr == old(Repr)
      ensures Changed(ok, bindings) == Delete(old(bindings), Absolute(name, cwd))
    {
      var absolute := nh_absolute(name, cwd);
      var ent, prev, i := Search(absolute);
      if ent == null {
        return false;
      }
      DeleteFind(bindings, absolute, absolute);
      Unlink(ent, prev, i);
      ok := true;
    }

    /** Take an entry out of the chain. */
    method Unlink(ent: HashEntry, prev: HashEntry?, ghost i: nat)
      requires Linked() && Hold() && i < |entries| && ent == entries[i]
      requires prev == if i == 0 then null else entries[i - 1]
      modifies this, Repr
      ensures Linked() && Hold() && Repr == old(Repr)
      ensures bindings == RemovedAt(old(bindings), i)
    {
      hide Distinct, RemovedAt;
      RemovedAtElements(entries, i);
      RemovedAtElements(bindings, i);
      Bypass(ent, prev, i);
      bindings := RemovedAt(bindings, i);
    }

    /** Lead the links past an entry. */
    method Bypass(ent: HashEntry, prev: HashEntry?, ghost i: nat)
      requires Linked() && i < |entries| && ent == entries[i]
      requires prev == if i == 0 then null else entries[i - 1]
      modifies this`table, this`entries, Repr`next
      ensures Linked() && entries == RemovedAt(old(entries), i)
    {
      hide Distinct, RemovedAt;
      ghost var es, es' := entries, RemovedAt(entries, i);
      RemovedAtElements(es, i);
      DistinctRemoved(es, i);
      if i > 0 {
        DistinctAt(es, i - 1);
      }
      if prev == null {
        table := ent.next;
      } else {
        prev.next := ent.next;
      }
      entries := es';
      forall j | 0 <= j < |es'| ensures es'[j] in Repr && es'[j].next == ItemOr<HashEntry?>(es', j + 1, null) {
        assert es'[j] == es[if j < i then j else j + 1];
      }
    }
  }
}

// A persistent pool is edited: persistentPoolModified of allocationswatcher.go with RemoveAddressFromAllocation of
// ipallocations, all writes succeeding.
module PoolEdit {
  import opened Types
  import opened Availability
  import opened Allocations
  import opened Cluster
  import opened Ledger
  import opened LedgerResults
  import opened PoolsManager
  import opened ControllerSteps

  // ---- what the handler computes ----

  function EntriesWithout(entries: seq<Entry>, address: string): seq<Entry> {
    if entries == [] then []
    else
      var n := |entries| - 1;
      EntriesWithout(entries[..n], address) + (if entries[n].address != address then [entries[n]] else [])
  }

  function RemoveAddress(o: IPAllocation, address: string): IPAllocation {
    var left := EntriesWithout(o.entries, address);
    if |left| != |o.entries| then o.(entries := left, status := AddrDeleted) else o
  }

  // The two changes that take addresses away: a pool is edited, or it is removed.
  datatype Change = Modified(pool: Pool) | Removed(pool: Pool)

  // An edited pool disowns the entries that name it for an address it no longer declares; a removed pool disowns every
  // entry with one of its addresses, whatever pool the entry names.
  predicate Disowned(change: Change, e: Entry) {
    match change
    case Modified(pool) => e.pool == pool.name && e.address !in pool.addresses
    case Removed(pool) => e.address in pool.addresses
  }

  // The inner loop ranges over the entries the allocation had at first, while the allocation shrinks.
  function Strip(o: IPAllocation, entries: seq<Entry>, change: Change): IPAllocation {
    if entries == [] then o
    else
      var n := |entries| - 1;
      var before := Strip(o, entries[..n], change);
      if Disowned(change, entries[n]) then RemoveAddress(before, entries[n].address) else before
  }

  // A removal does not look at the type of the allocation.
  function Edited(o: IPAllocation, change: Change): IPAllocation {
    if change.Removed? || o.kind == Persistent then Strip(o, o.entries, change) else o
  }

  function EditedAllocs(allocs: map<Key, IPAllocation>, change: Change): map<Key, IPAllocation> {
    map k | k in allocs :: Edited(allocs[k], change)
  }

  // The state after the handler; the store already holds the edited pool.
  ghost function PoolModified(s: State, pool: Pool): State {
    var allocs := EditedAllocs(s.allocs, Modified(pool));
    s.(allocs := allocs, avail := Recompute(s.avail, pool, OwnedIn(allocs)))
  }

  // The handler of a removal leaves the availability as it is.
  ghost function PoolRemoved(s: State, pool: Pool): State {
    s.(allocs := EditedAllocs(s.allocs, Removed(pool)))
  }

  // ---- the handler ----

  method RemoveAddressFromAllocation(o: IPAllocation, removedAddress: string) returns (updated: IPAllocation)
    ensures updated == RemoveAddress(o, removedAddress)
  {
    var addrAllocations: seq<Entry> := [];
    for i := 0 to |o.entries|
      invariant addrAllocations == EntriesWithout(o.entries[..i], removedAddress)
    {
      assert o.entries[..i + 1][..i] == o.entries[..i];
      if o.entries[i].address != removedAddress {
        addrAllocations := addrAllocations + [o.entries[i]];
      }
    }
    assert o.entries[..|o.entries|] == o.entries;
    if |addrAllocations| != |o.entries| {
      return o.(entries := addrAllocations, status := AddrDeleted);
    }
    return o;
  }

  method StripAllocation(o: IPAllocation, change: Change) returns (allocation: IPAllocation)
    ensures allocation == Strip(o, o.entries, change)
  {
    allocation := o;
    for i := 0 to |o.entries|
      invariant allocation == Strip(o, o.entries[..i], change)
    {
      assert o.entries[..i + 1][..i] == o.entries[..i];
      if change.Removed? || o.entries[i].pool == change.pool.name {
        var declares := Contains(change.pool.addresses, o.entries[i].address);
        if change.Removed? == declares {
          allocation := RemoveAddressFromAllocation(allocation, o.entries[i].address);
        }
      }
    }
    assert o.entries[..|o.entries|] == o.entries;
  }

  // An edit skips allocations of the other type.
  method EditAllocation(o: IPAllocation, change: Change) returns (allocation: IPAllocation)
    ensures allocation == Edited(o, change)
  {
    allocation := o;
    if change.Removed? || o.kind == Persistent {
      allocation := StripAllocation(o, change);
    }
  }

  // `order` is the listing of the store.
  method PersistentPoolModified(c: Controller, pool: Pool, order: seq<Key>)
    requires c.Valid() && Elements(order) == c.allocs.Keys && Distinct(order)
    modifies c`allocs, c.manager`availablesPools, c.manager.Repr()
    ensures c.Valid() && fresh(c.manager.Repr() - old(c.manager.Repr()))
    ensures c.Abs() == PoolModified(old(c.Abs()), pool)
  {
    StripAll(c, Modified(pool), order);
    var listed := seq(|order|, i requires 0 <= i < |order| && order[i] in c.allocs reads c => c.allocs[order[i]]);
    ListingOwns(c.allocs, order, listed);
    c.manager.ProcessIPAvailability(pool, listed);
  }

  // persistentPoolRemoved with deallocateDeletedAddresses.
  method PersistentPoolRemoved(c: Controller, pool: Pool, order: seq<Key>)
    requires c.Valid() && Elements(order) == c.allocs.Keys && Distinct(order)
    modifies c`allocs
    ensures c.Valid()
    ensures c.Abs() == PoolRemoved(old(c.Abs()), pool)
  {
    StripAll(c, Removed(pool), order);
  }

  method StripAll(c: Controller, change: Change, order: seq<Key>)
    requires Elements(order) == c.allocs.Keys && Distinct(order)
    modifies c`allocs
    ensures c.allocs == EditedAllocs(old(c.allocs), change)
    ensures forall i :: 0 <= i < |order| ==> order[i] in c.allocs
  {
    ghost var before := c.allocs;
    forall i | 0 <= i < |order|
      ensures order[i] in before
    {
      assert order[i] in Elements(order);
    }
    for i := 0 to |order|
      invariant c.allocs.Keys == before.Keys
      invariant forall k :: k in before ==>
          c.allocs[k] == if k in order[..i] then Edited(before[k], change) else before[k]
    {
      var allocation := EditAllocation(c.allocs[order[i]], change);
      c.allocs := c.allocs[order[i] := allocation];
      assert order[..i + 1] == order[..i] + [order[i]];
    }
    assert order[..|order|] == order;
    forall k | k in before
      ensures c.allocs[k] == Edited(before[k], change)
    {
      assert k in Elements(order);
    }
  }

  lemma ListingOwns(allocs: map<Key, IPAllocation>, order: seq<Key>, listed: seq<IPAllocation>)
    requires Elements(order) == allocs.Keys && |listed| == |order|
    requires forall i :: 0 <= i < |order| ==> order[i] in allocs && listed[i] == allocs[order[i]]
    ensures AllocatedAddresses(listed) == OwnedIn(allocs)
  {
    forall k | k in allocs
      ensures allocs[k] in listed
    {
      assert k in Elements(order);
      var i :| 0 <= i < |order| && order[i] == k;
      assert listed[i] == allocs[k];
    }
    forall o | o in listed
      ensures exists k :: k in allocs && allocs[k] == o
    {
      var i :| 0 <= i < |listed| && listed[i] == o;
      assert order[i] in allocs;
    }
  }

  // ---- what is left of an allocation ----

  ghost function Gone(entries: seq<Entry>, change: Change): set<string> {
    set e | e in entries && Disowned(change, e) :: e.address
  }

  function KeepEntries(entries: seq<Entry>, gone: set<string>): seq<Entry> {
    if entries == [] then []
    else
      var n := |entries| - 1;
      KeepEntries(entries[..n], gone) + (if entries[n].address !in gone then [entries[n]] else [])
  }

  lemma {:induction false} KeepEntriesAre(entries: seq<Entry>, gone: set<string>)
    ensures forall e :: e in KeepEntries(entries, gone) <==> e in entries && e.address !in gone
  {
    if entries != [] {
      var n := |entries| - 1;
      assert entries == entries[..n] + [entries[n]];
      KeepEntriesAre(entries[..n], gone);
    }
  }

  lemma WithoutLast(entries: seq<Entry>, e: Entry, address: string)
    ensures EntriesWithout(entries + [e], address)
        == EntriesWithout(entries, address) + (if e.address != address then [e] else [])
  {
    assert (entries + [e])[..|entries|] == entries;
  }

  lemma {:induction false} KeepWithout(entries: seq<Entry>, gone: set<string>, address: string)
    ensures EntriesWithout(KeepEntries(entries, gone), address) == KeepEntries(entries, gone + {address})
  {
    if entries != [] {
      var n := |entries| - 1;
      KeepWithout(entries[..n], gone, address);
      var rest := KeepEntries(entries[..n], gone);
      if entries[n].address in gone {
        assert KeepEntries(entries, gone) == rest;
      } else {
        WithoutLast(rest, entries[n], address);
      }
    }
  }

  lemma {:induction false} KeepAllEntries(entries: seq<Entry>)
    ensures KeepEntries(entries, {}) == entries
  {
    if entries != [] {
      KeepAllEntries(entries[..|entries| - 1]);
    }
  }

  lemma {:induction false} WithoutSameLength(entries: seq<Entry>, address: string)
    ensures |EntriesWithout(entries, address)| <= |entries|
    ensures |EntriesWithout(entries, address)| == |entries| ==> EntriesWithout(entries, address) == entries
  {
    if entries != [] {
      var n := |entries| - 1;
      var shorter, last := entries[..n], entries[n];
      assert entries == shorter + [last];
      WithoutSameLength(shorter, address);
      WithoutLast(shorter, last, address);
    }
  }

  // What the loop leaves: the entries, in order, whose address it did not find to be gone.
  lemma {:induction false} StripMeaning(o: IPAllocation, entries: seq<Entry>, change: Change)
    ensures var r := Strip(o, entries, change);
            && r.entries == KeepEntries(o.entries, Gone(entries, change))
            && r.kind == o.kind
            && (r == o || r.status == AddrDeleted)
            && (Gone(entries, change) == {} ==> r == o)
  {
    if entries == [] {
      assert Gone(entries, change) == {};
      KeepAllEntries(o.entries);
    } else {
      var n := |entries| - 1;
      var e := entries[n];
      assert entries == entries[..n] + [e];
      StripMeaning(o, entries[..n], change);
      var before := Strip(o, entries[..n], change);
      if Disowned(change, e) {
        assert Gone(entries, change) == Gone(entries[..n], change) + {e.address};
        KeepWithout(o.entries, Gone(entries[..n], change), e.address);
        WithoutSameLength(before.entries, e.address);
      } else {
        assert Gone(entries, change) == Gone(entries[..n], change);
      }
    }
  }

  // The entries that do not name an address the pool gave up, in order.
  function OwnChoice(entries: seq<Entry>, change: Change): seq<Entry> {
    if entries == [] then []
    else
      var n := |entries| - 1;
      OwnChoice(entries[..n], change) + (if Disowned(change, entries[n]) then [] else [entries[n]])
  }

  lemma {:induction false} KeepIsOwnChoice(entries: seq<Entry>, gone: set<string>, change: Change)
    requires forall e :: e in entries ==> (e.address in gone <==> Disowned(change, e))
    ensures KeepEntries(entries, gone) == OwnChoice(entries, change)
  {
    if entries != [] {
      KeepIsOwnChoice(entries[..|entries| - 1], gone, change);
    }
  }

  // An allocation the change looks at keeps, in order and unchanged, exactly the entries that are not disowned, when
  // its addresses are distinct; in any case no disowned entry is left. It is marked when it had one, and not touched
  // otherwise.
  lemma EditedEntries(o: IPAllocation, change: Change)
    requires change.Removed? || o.kind == Persistent
    ensures forall e :: e in Edited(o, change).entries ==> e in o.entries && !Disowned(change, e)
    ensures Distinct(AddressList(o.entries)) ==> Edited(o, change).entries == OwnChoice(o.entries, change)
    ensures AddressesOf(Edited(o, change).entries) == AddressesOf(o.entries) - Gone(o.entries, change)
    ensures Edited(o, change).kind == o.kind
    ensures (exists e :: e in o.entries && Disowned(change, e)) ==> Edited(o, change).status == AddrDeleted
    ensures (forall e :: e in o.entries ==> !Disowned(change, e)) ==> Edited(o, change) == o
  {
    StripMeaning(o, o.entries, change);
    KeepEntriesAre(o.entries, Gone(o.entries, change));
    if e :| e in o.entries && Disowned(change, e) {
      assert e.address in Gone(o.entries, change);
      assert e !in Edited(o, change).entries;
    }
    if Distinct(AddressList(o.entries)) {
      GoneIffDisowned(o.entries, change);
      KeepIsOwnChoice(o.entries, Gone(o.entries, change), change);
    }
  }

  // An edited pool does not concern allocations of the other type.
  lemma OtherTypeStays(o: IPAllocation, pool: Pool)
    requires o.kind != Persistent
    ensures Edited(o, Modified(pool)) == o
  {
  }

  lemma GoneIffDisowned(entries: seq<Entry>, change: Change)
    requires Distinct(AddressList(entries))
    ensures forall e :: e in entries ==> (e.address in Gone(entries, change) <==> Disowned(change, e))
  {
    forall e | e in entries && e.address in Gone(entries, change)
      ensures Disowned(change, e)
    {
      var f :| f in entries && Disowned(change, f) && f.address == e.address;
      var i :| 0 <= i < |entries| && entries[i] == e;
      var j :| 0 <= j < |entries| && entries[j] == f;
      assert AddressList(entries)[i] == AddressList(entries)[j];
    }
  }

  // ---- what is available afterwards ----

  lemma AddOrReplaceFreeIn(av: seq<Pool>, p: Pool, name: string)
    requires WellFormed(av)
    ensures WellFormed(AddOrReplace(av, p))
    ensures FreeIn(AddOrReplace(av, p), name)
            == if p.addresses != [] && name == p.name then Elements(p.addresses) else FreeIn(av, name)
  {
    var after := AddOrReplace(av, p);
    var i := IndexOfName(av, p.name);
    if p.addresses != [] {
      assert after[i] == p;
      assert forall j :: 0 <= j < |av| && j != i ==> after[j] == av[j] && av[j].name != p.name;
      forall a
        ensures a in FreeIn(after, name) <==> a in (if name == p.name then Elements(p.addresses) else FreeIn(av, name))
      {
        if name != p.name && a in FreeIn(av, name) {
          var q :| q in av && q.name == name && a in q.addresses;
          var j :| 0 <= j < |av| && av[j] == q;
          assert after[j] == q;
        }
        if a in FreeIn(after, name) {
          var q :| q in after && q.name == name && a in q.addresses;
          var j :| 0 <= j < |after| && after[j] == q;
          assert j != i ==> q in av;
        }
        assert p in after;
      }
    }
  }

  // Recomputing a pool leaves what other pools offer alone; the pool then offers exactly what it declares and nobody
  // has, if and only if that is something or the pool offered nothing before.
  lemma RecomputedFreeIff(av: seq<Pool>, pool: Pool, taken: set<string>)
    requires WellFormed(av)
    ensures var after := Recompute(av, pool, taken);
            var left := Elements(pool.addresses) - taken;
            && WellFormed(after)
            && (forall name :: name != pool.name ==> FreeIn(after, name) == FreeIn(av, name))
            && (FreeIn(after, pool.name) == left <==> left != {} || FreeIn(av, pool.name) == {})
  {
    var p := pool.(addresses := FreeAddresses(pool.addresses, taken));
    FreeLeft(pool, taken);
    forall name
      ensures FreeIn(Recompute(av, pool, taken), name)
              == if p.addresses != [] && name == p.name then Elements(p.addresses) else FreeIn(av, name)
    {
      AddOrReplaceFreeIn(av, p, name);
    }
    AddOrReplaceFreeIn(av, p, pool.name);
  }

  // The same across the handler, from what the allocations had before it: after an edit the pool offers exactly what it
  // declares and no allocation had.
  lemma EditedAvailabilityIff(s: State, i: nat, pool: Pool)
    requires LedgerAgrees(s) && i < |s.pools| && s.pools[i].name == pool.name
    ensures var t := PoolModified(s.(pools := s.pools[i := pool]), pool);
            var left := Elements(pool.addresses) - OwnedIn(s.allocs);
            && WellFormed(t.avail)
            && (forall name :: name != pool.name ==> FreeIn(t.avail, name) == FreeIn(s.avail, name))
            && (FreeIn(t.avail, pool.name) == left <==> left != {} || FreeIn(s.avail, pool.name) == {})
  {
    EditedTaken(s, i, pool);
    RecomputedFreeIff(s.avail, pool, OwnedIn(EditedAllocs(s.allocs, Modified(pool))));
  }

  // Of what the edited pool declares, the allocations have the same after the edit.
  lemma EditedTaken(s: State, i: nat, pool: Pool)
    requires LedgerAgrees(s) && i < |s.pools| && s.pools[i].name == pool.name
    ensures Elements(pool.addresses) - OwnedIn(EditedAllocs(s.allocs, Modified(pool)))
        == Elements(pool.addresses) - OwnedIn(s.allocs)
  {
    forall a | a in pool.addresses
      ensures a in OwnedIn(EditedAllocs(s.allocs, Modified(pool))) <==> a in OwnedIn(s.allocs)
    {
      EditedOwned(s, i, pool, a);
    }
  }

  // ---- the ledger across an edit ----

  // The namespaces that hold addresses of the pool after the edit are still allowed to.
  ghost predicate StillAllowed(s: State, pool: Pool) {
    forall k, e :: k in s.allocs && e in s.allocs[k].entries && e.pool == pool.name && e.address in pool.addresses ==>
        pool.Allows(k.namespace)
  }

  lemma EditedBacked(s: State, i: nat, pool: Pool, k: Key, e: Entry)
    requires LedgerAgrees(s) && i < |s.pools| && s.pools[i].name == pool.name && StillAllowed(s, pool)
    requires k in s.allocs && e in Edited(s.allocs[k], Modified(pool)).entries
    ensures e in s.allocs[k].entries && Backed(s.pools[i := pool], k.namespace, e)
  {
    EditedEntries(s.allocs[k], Modified(pool));
    assert Backed(s.pools, k.namespace, e);
    var d :| d in s.pools && Serves(d, k.namespace, e.address) && d.name == e.pool;
    var j :| 0 <= j < |s.pools| && s.pools[j] == d;
    var after := s.pools[i := pool];
    if e.pool == pool.name {
      assert after[i] == pool && Serves(pool, k.namespace, e.address);
    } else {
      assert j != i && after[j] == d;
    }
  }

  lemma EditedOwners(s: State, change: Change, k: Key, a: string)
    requires LedgerAgrees(s)
    ensures Owns(EditedAllocs(s.allocs, change), k, a) ==> Owns(s.allocs, k, a)
    ensures Owns(s.allocs, k, a) && !Owns(EditedAllocs(s.allocs, change), k, a) ==>
        exists e :: e in s.allocs[k].entries && e.address == a && Disowned(change, e)
  {
    if k in s.allocs {
      EditedEntries(s.allocs[k], change);
    }
  }

  // An address that is not of the old pool, or that the new pool declares, keeps its owner.
  lemma EditedOwned(s: State, i: nat, pool: Pool, a: string)
    requires LedgerAgrees(s) && i < |s.pools| && s.pools[i].name == pool.name
    requires a !in s.pools[i].addresses || a in pool.addresses
    ensures a in OwnedIn(EditedAllocs(s.allocs, Modified(pool))) <==> a in OwnedIn(s.allocs)
  {
    var allocs := EditedAllocs(s.allocs, Modified(pool));
    OwnedOwns(allocs, a);
    OwnedOwns(s.allocs, a);
    forall k
      ensures Owns(allocs, k, a) <==> Owns(s.allocs, k, a)
    {
      EditedOwners(s, Modified(pool), k, a);
    }
  }

  // No address of the pool is in a deletion that is not handled yet.
  ghost predicate NothingAwaits(s: State, d: Pool) {
    forall a :: a in d.addresses ==> !IsAwaiting(s, a)
  }

  // Then none of the edited pool is either: what awaits release is of another pool, and stays there.
  lemma StillNothingAwaits(s: State, i: nat, pool: Pool, j: nat, e: Entry)
    requires LedgerAgrees(s) && i < |s.pools| && s.pools[i].name == pool.name && DisjointPools(s.pools[i := pool])
    requires NothingAwaits(s, s.pools[i])
    requires j < |s.deleted| && e in s.deleted[j].allocation.entries
    ensures e.address !in pool.addresses && Backed(s.pools[i := pool], s.deleted[j].key.namespace, e)
  {
    var after := s.pools[i := pool];
    assert s.deleted[j] in s.deleted && Backed(s.pools, s.deleted[j].key.namespace, e);
    var d :| d in s.pools && Serves(d, s.deleted[j].key.namespace, e.address) && d.name == e.pool;
    var m :| 0 <= m < |s.pools| && s.pools[m] == d;
    assert Awaits(s.deleted, j, e.address);
    assert m != i && after[m] == d && after[i] == pool;
  }

  // The free addresses after the edit: outside the pool as before, inside it what it declares and nobody has.
  lemma EditedFree(s: State, i: nat, pool: Pool)
    requires LedgerAgrees(s) && i < |s.pools| && s.pools[i].name == pool.name && DisjointPools(s.pools[i := pool])
    requires NothingAwaits(s, s.pools[i])
    ensures var allocs := EditedAllocs(s.allocs, Modified(pool));
            FreeOf(s.(pools := s.pools[i := pool], allocs := allocs))
            == FreeOf(s) - Elements(s.pools[i].addresses) + (Elements(pool.addresses) - OwnedIn(allocs))
  {
    var after := s.pools[i := pool];
    var d := s.pools[i];
    var allocs := EditedAllocs(s.allocs, Modified(pool));
    assert after[i] == pool;
    forall a
      ensures a in DeclaredAddresses(after) <==>
          a in DeclaredAddresses(s.pools) - Elements(d.addresses) + Elements(pool.addresses)
    {
      if a in DeclaredAddresses(s.pools) && a !in d.addresses {
        var q :| q in s.pools && a in q.addresses;
        var j :| 0 <= j < |s.pools| && s.pools[j] == q;
        assert after[j] == q;
      }
      if a in DeclaredAddresses(after) && a !in pool.addresses {
        var j :| 0 <= j < |after| && a in after[j].addresses;
        assert j != i && s.pools[j] == after[j];
      }
      assert pool in after;
    }
    forall a | a in d.addresses || a in pool.addresses
      ensures a !in PendingIn(s.deleted)
    {
      PendingAwaits(s.deleted, a);
      forall m, e | 0 <= m < |s.deleted| && e in s.deleted[m].allocation.entries
        ensures e.address != a
      {
        StillNothingAwaits(s, i, pool, m, e);
        assert Awaits(s.deleted, m, e.address);
      }
    }
    forall a
      ensures a in FreeOf(s.(pools := after, allocs := allocs)) <==>
          a in FreeOf(s) - Elements(d.addresses) + (Elements(pool.addresses) - OwnedIn(allocs))
    {
      if a !in d.addresses || a in pool.addresses {
        EditedOwned(s, i, pool, a);
      }
    }
  }

  // The availability list read against the edited store: it lacks only the edited pool's own entry.
  lemma OthersStillCopies(s: State, i: nat, pool: Pool, p: Pool)
    requires LedgerAgrees(s) && i < |s.pools| && s.pools[i].name == pool.name && p in s.avail && p.name != pool.name
    ensures CopyOfDeclared(s.pools[i := pool], p)
  {
    assert CopyOfDeclared(s.pools, p);
    var d :| d in s.pools && d.name == p.name && p == d.(addresses := p.addresses)
        && (forall a :: a in p.addresses ==> a in d.addresses);
    var j :| 0 <= j < |s.pools| && s.pools[j] == d;
    assert s.pools[i := pool][j] == d;
  }

  lemma NewEntryAside(av: seq<Pool>, p: Pool, q: Pool)
    requires WellFormed(av) && q in AddOrReplace(av, p) && q != p
    requires p.addresses == [] ==> IndexOfName(av, p.name) == |av|
    ensures q in av && q.name != p.name
  {
    var after := AddOrReplace(av, p);
    var j :| 0 <= j < |after| && after[j] == q;
  }

  ghost predicate LeavesOffer(s: State, pool: Pool, taken: set<string>) {
    Elements(pool.addresses) - taken != {} || FreeIn(s.avail, pool.name) == {}
  }

  lemma RecomputedCopies(s: State, i: nat, pool: Pool, taken: set<string>)
    requires LedgerAgrees(s) && i < |s.pools| && s.pools[i].name == pool.name && LeavesOffer(s, pool, taken)
    ensures forall q :: q in Recompute(s.avail, pool, taken) ==> CopyOfDeclared(s.pools[i := pool], q)
  {
    var after := s.pools[i := pool];
    var p := pool.(addresses := FreeAddresses(pool.addresses, taken));
    EntryIffFree(s.avail, pool.name);
    FreeLeft(pool, taken);
    assert after[i] == pool;
    forall q | q in Recompute(s.avail, pool, taken)
      ensures CopyOfDeclared(after, q)
    {
      if q == p {
        assert pool in after && p == pool.(addresses := p.addresses);
      } else {
        NewEntryAside(s.avail, p, q);
        OthersStillCopies(s, i, pool, q);
      }
    }
  }

  lemma FreeLeft(pool: Pool, taken: set<string>)
    ensures Elements(FreeAddresses(pool.addresses, taken)) == Elements(pool.addresses) - taken
    ensures FreeAddresses(pool.addresses, taken) == [] <==> Elements(pool.addresses) - taken == {}
  {
    var free := FreeAddresses(pool.addresses, taken);
    assert Elements(free) == Elements(pool.addresses) - taken;
    if free != [] {
      assert free[0] in Elements(free);
    }
  }

  lemma RecomputedOffers(s: State, i: nat, pool: Pool, taken: set<string>)
    requires LedgerAgrees(s) && i < |s.pools| && s.pools[i].name == pool.name && DisjointPools(s.pools[i := pool])
    requires LeavesOffer(s, pool, taken)
    ensures Offers(s.pools[i := pool], Recompute(s.avail, pool, taken), FreeOf(s) - Elements(s.pools[i].addresses)
        + (Elements(pool.addresses) - taken))
  {
    var left := Elements(pool.addresses) - taken;
    var av := Recompute(s.avail, pool, taken);
    RecomputedCopies(s, i, pool, taken);
    FreeLeft(pool, taken);
    forall name
      ensures FreeIn(av, name) == if name == pool.name then left else FreeIn(s.avail, name)
      ensures WellFormed(av)
    {
      AddOrReplaceFreeIn(s.avail, pool.(addresses := FreeAddresses(pool.addresses, taken)), name);
    }
    EntriesApart(s.pools, s.avail, pool.name);
    FreeByName(s.avail, av, pool.name, left);
    OffersPerPool(s.pools, s.avail, FreeOf(s), s.pools[i]);
    assert FreeOf(s) - FreeIn(s.avail, pool.name) == FreeOf(s) - Elements(s.pools[i].addresses);
  }

  lemma EntriesApart(declared: seq<Pool>, av: seq<Pool>, name: string)
    requires DisjointPools(declared) && WellFormed(av) && forall r :: r in av ==> CopyOfDeclared(declared, r)
    ensures forall q, r :: q in av && r in av && q.name == name && r.name != name ==>
        Elements(q.addresses) !! Elements(r.addresses)
  {
    forall q, r, a | q in av && r in av && q.name == name && r.name != name && a in q.addresses
      ensures a !in r.addresses
    {
      if a in r.addresses {
        EntriesShareNoAddress(declared, av, q, r, a);
      }
    }
  }

  // When only one name changes, so does the whole.
  lemma FreeByName(av: seq<Pool>, bv: seq<Pool>, name: string, left: set<string>)
    requires forall n :: FreeIn(bv, n) == if n == name then left else FreeIn(av, n)
    requires forall p, q :: p in av && q in av && p.name == name && q.name != name ==>
        Elements(p.addresses) !! Elements(q.addresses)
    ensures FreeAnywhere(bv) == FreeAnywhere(av) - FreeIn(av, name) + left
  {
    forall a
      ensures a in FreeAnywhere(bv) <==> a in FreeAnywhere(av) - FreeIn(av, name) + left
    {
      if a in FreeAnywhere(bv) {
        var p :| p in bv && a in p.addresses;
        assert a in FreeIn(bv, p.name);
        if p.name != name {
          var q :| q in av && q.name == p.name && a in q.addresses;
          forall r | r in av && r.name == name
            ensures a !in r.addresses
          {
            assert Elements(r.addresses) !! Elements(q.addresses);
            assert a in Elements(q.addresses) && a !in Elements(r.addresses);
          }
        }
      }
      if a in FreeAnywhere(av) && a !in FreeIn(av, name) {
        var p :| p in av && a in p.addresses;
        assert a in FreeIn(av, p.name) && p.name != name;
        assert a in FreeIn(bv, p.name);
      }
      if a in left {
        assert a in FreeIn(bv, name);
      }
    }
  }

  // What an edit of pool i has to respect: the edited pools are still disjoint, the namespaces that hold addresses of
  // the pool are still allowed to, none of its addresses awaits release, and it still declares an address nobody owns
  // or offered none before.
  ghost predicate FairEdit(s: State, i: nat, pool: Pool) {
    && i < |s.pools| && s.pools[i].name == pool.name
    && DisjointPools(s.pools[i := pool])
    && StillAllowed(s, pool)
    && NothingAwaits(s, s.pools[i])
    && ((exists a :: a in pool.addresses && !IsOwned(s, a)) || FreeIn(s.avail, pool.name) == {})
  }

  lemma FairEditLeavesOffer(s: State, i: nat, pool: Pool)
    requires LedgerAgrees(s) && FairEdit(s, i, pool)
    ensures LeavesOffer(s, pool, OwnedIn(EditedAllocs(s.allocs, Modified(pool))))
  {
    EditedTaken(s, i, pool);
    if a :| a in pool.addresses && !IsOwned(s, a) {
      OwnedOwns(s.allocs, a);
      assert a in Elements(pool.addresses) - OwnedIn(s.allocs);
    }
  }

  lemma EditedTenants(s: State, i: nat, pool: Pool)
    requires LedgerAgrees(s) && FairEdit(s, i, pool)
    ensures Tenants(PoolModified(s.(pools := s.pools[i := pool]), pool))
  {
    var t := PoolModified(s.(pools := s.pools[i := pool]), pool);
    forall k | k in t.allocs
      ensures t.allocs[k].kind == Persistent && AllBacked(t.pools, k.namespace, t.allocs[k].entries)
    {
      StripMeaning(s.allocs[k], s.allocs[k].entries, Modified(pool));
      forall e | e in t.allocs[k].entries
        ensures Backed(t.pools, k.namespace, e)
      {
        EditedBacked(s, i, pool, k, e);
      }
    }
    forall d | d in t.deleted
      ensures AllBacked(t.pools, d.key.namespace, d.allocation.entries)
    {
      var j :| 0 <= j < |s.deleted| && s.deleted[j] == d;
      forall e | e in d.allocation.entries
        ensures Backed(t.pools, d.key.namespace, e)
      {
        StillNothingAwaits(s, i, pool, j, e);
      }
    }
  }

  lemma EditedOneHolder(s: State, change: Change)
    requires LedgerAgrees(s)
    ensures OneHolder(s.(allocs := EditedAllocs(s.allocs, change)))
  {
    var allocs := EditedAllocs(s.allocs, change);
    forall k, a
      ensures Owns(allocs, k, a) ==> Owns(s.allocs, k, a)
    {
      EditedOwners(s, change, k, a);
    }
  }

  lemma EditKeepsLedger(s: State, i: nat, pool: Pool)
    requires LedgerAgrees(s) && FairEdit(s, i, pool)
    ensures LedgerAgrees(PoolModified(s.(pools := s.pools[i := pool]), pool))
  {
    var t := PoolModified(s.(pools := s.pools[i := pool]), pool);
    FairEditLeavesOffer(s, i, pool);
    RecomputedOffers(s, i, pool, OwnedIn(t.allocs));
    EditedFree(s, i, pool);
    assert FreeOf(t) == FreeOf(s.(pools := s.pools[i := pool], allocs := t.allocs));
    EditedTenants(s, i, pool);
    EditedOneHolder(s, Modified(pool));
  }
}

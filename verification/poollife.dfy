// Pools that come, change and go while the controller runs: when the ledger survives.
module PoolLife {
  import opened Types
  import opened Availability
  import opened Allocations
  import opened Cluster
  import opened Ledger
  import opened LedgerResults
  import opened Placement
  import opened PoolEdit

  // ---- an edited pool ----

  lemma StaysWhenDeclared(s: State, pool: Pool, k: Key, e: Entry)
    requires LedgerAgrees(s) && k in s.allocs && e in s.allocs[k].entries
    requires e.pool == pool.name && e.address in pool.addresses
    ensures e in Edited(s.allocs[k], Modified(pool)).entries
  {
    var o := s.allocs[k];
    StripMeaning(o, o.entries, Modified(pool));
    KeepEntriesAre(o.entries, Gone(o.entries, Modified(pool)));
    forall f | f in o.entries && f.address == e.address
      ensures f.pool == e.pool
    {
      OneBacking(s.pools, k.namespace, e, k.namespace, f);
    }
  }

  // The ledger survives an edit of a pool exactly when the edit is fair, whatever deletions are pending.
  lemma EditKeepsLedgerIff(s: State, i: nat, pool: Pool)
    requires LedgerAgrees(s) && i < |s.pools| && s.pools[i].name == pool.name
    ensures LedgerAgrees(PoolModified(s.(pools := s.pools[i := pool]), pool)) <==> FairEdit(s, i, pool)
  {
    var t := PoolModified(s.(pools := s.pools[i := pool]), pool);
    if FairEdit(s, i, pool) {
      EditKeepsLedger(s, i, pool);
    }
    if LedgerAgrees(t) {
      AgreeingEditAllows(s, i, pool);
      AgreeingEditOffers(s, i, pool);
      AgreeingEditAwaitsNothing(s, i, pool);
    }
  }

  lemma AgreeingEditAllows(s: State, i: nat, pool: Pool)
    requires LedgerAgrees(s) && i < |s.pools| && s.pools[i].name == pool.name
    requires LedgerAgrees(PoolModified(s.(pools := s.pools[i := pool]), pool))
    ensures StillAllowed(s, pool)
  {
    var t := PoolModified(s.(pools := s.pools[i := pool]), pool);
    assert t.pools[i] == pool;
    forall k, e | k in s.allocs && e in s.allocs[k].entries && e.pool == pool.name && e.address in pool.addresses
      ensures pool.Allows(k.namespace)
    {
      StaysWhenDeclared(s, pool, k, e);
      assert Backed(t.pools, k.namespace, e);
      BackedByEdited(t.pools, i, k.namespace, e);
    }
  }

  // An entry that names pool i is backed by pool i.
  lemma BackedByEdited(pools: seq<Pool>, i: nat, namespace: string, e: Entry)
    requires DisjointPools(pools) && i < |pools| && Backed(pools, namespace, e) && e.pool == pools[i].name
    ensures Serves(pools[i], namespace, e.address)
  {
    var d :| d in pools && Serves(d, namespace, e.address) && d.name == e.pool;
    var j :| 0 <= j < |pools| && pools[j] == d;
    assert j == i;
  }

  // What the edited pool offers is right only if it is what it declares and no allocation had.
  lemma AgreeingEditOffers(s: State, i: nat, pool: Pool)
    requires LedgerAgrees(s) && i < |s.pools| && s.pools[i].name == pool.name
    requires LedgerAgrees(PoolModified(s.(pools := s.pools[i := pool]), pool))
    ensures (exists a :: a in pool.addresses && !IsOwned(s, a)) || FreeIn(s.avail, pool.name) == {}
  {
    var t := PoolModified(s.(pools := s.pools[i := pool]), pool);
    assert t.pools[i] == pool;
    EditedAvailabilityIff(s, i, pool);
    EditedTaken(s, i, pool);
    OffersPerPool(t.pools, t.avail, FreeOf(t), pool);
    var left := Elements(pool.addresses) - OwnedIn(s.allocs);
    if a :| a in left {
      OwnedOwns(s.allocs, a);
      assert a in pool.addresses && !IsOwned(s, a);
    } else {
      assert left == {};
      assert FreeIn(t.avail, pool.name) <= left;
    }
  }

  // An address of the pool that awaits release would be offered again, or be backed by no pool.
  lemma AgreeingEditAwaitsNothing(s: State, i: nat, pool: Pool)
    requires LedgerAgrees(s) && i < |s.pools| && s.pools[i].name == pool.name
    requires LedgerAgrees(PoolModified(s.(pools := s.pools[i := pool]), pool))
    ensures NothingAwaits(s, s.pools[i])
  {
    var t := PoolModified(s.(pools := s.pools[i := pool]), pool);
    forall j, e | 0 <= j < |s.deleted| && e in s.deleted[j].allocation.entries
      ensures e.address !in s.pools[i].addresses
    {
      var a := e.address;
      var ns := s.deleted[j].key.namespace;
      assert s.deleted[j] in s.deleted && s.deleted[j] in t.deleted;
      assert Backed(s.pools, ns, e) && Backed(t.pools, ns, e);
      if a in s.pools[i].addresses {
        NamesItsPool(s.pools, i, ns, e);
        BackedByEdited(t.pools, i, ns, e);
        assert Awaits(s.deleted, j, a) && Awaits(t.deleted, j, a);
        AwaitingIsOffered(s, i, pool, a);
        PendingAwaits(t.deleted, a);
        assert false;
      }
    }
  }

  lemma NamesItsPool(pools: seq<Pool>, i: nat, namespace: string, e: Entry)
    requires DisjointPools(pools) && i < |pools| && Backed(pools, namespace, e) && e.address in pools[i].addresses
    ensures e.pool == pools[i].name
  {
    var d :| d in pools && Serves(d, namespace, e.address) && d.name == e.pool;
    var j :| 0 <= j < |pools| && pools[j] == d;
    assert j == i;
  }

  // An address that awaits release is in no allocation, so a recompute lists it.
  lemma AwaitingIsOffered(s: State, i: nat, pool: Pool, a: string)
    requires LedgerAgrees(s) && i < |s.pools| && s.pools[i].name == pool.name && a in pool.addresses && IsAwaiting(s, a)
    requires LedgerAgrees(PoolModified(s.(pools := s.pools[i := pool]), pool))
    ensures a in FreeOf(PoolModified(s.(pools := s.pools[i := pool]), pool))
  {
    var t := PoolModified(s.(pools := s.pools[i := pool]), pool);
    OwnedOwns(s.allocs, a);
    EditedAvailabilityIff(s, i, pool);
    var left := Elements(pool.addresses) - OwnedIn(s.allocs);
    assert a in left;
    assert a in FreeIn(t.avail, pool.name);
    assert FreeAnywhere(t.avail) == FreeOf(t);
  }

  // ---- a removed pool ----

  function WithoutPool(pools: seq<Pool>, i: nat): seq<Pool>
    requires i < |pools|
  {
    pools[..i] + pools[i + 1..]
  }

  lemma WithoutPoolIs(pools: seq<Pool>, i: nat)
    requires DisjointPools(pools) && i < |pools|
    ensures DisjointPools(WithoutPool(pools, i))
    ensures forall d :: d in WithoutPool(pools, i) <==> d in pools && d != pools[i]
    ensures forall d :: d in WithoutPool(pools, i) ==> d.name != pools[i].name
    ensures DeclaredAddresses(WithoutPool(pools, i)) == DeclaredAddresses(pools) - Elements(pools[i].addresses)
  {
    OthersRemain(pools, i);
  }

  lemma OthersRemain(pools: seq<Pool>, i: nat)
    requires DisjointPools(pools) && i < |pools|
    ensures DisjointPools(WithoutPool(pools, i))
    ensures forall d :: d in WithoutPool(pools, i) <==> d in pools && d != pools[i]
    ensures forall d :: d in WithoutPool(pools, i) ==>
              d.name != pools[i].name && forall a :: a in d.addresses ==> a !in pools[i].addresses
  {
    WithoutOne(pools, i);
  }

  // The state once the store has dropped pool i and the handler has run.
  ghost function Withdraw(s: State, i: nat): State
    requires i < |s.pools|
  {
    PoolRemoved(s.(pools := WithoutPool(s.pools, i)), s.pools[i])
  }

  // What the removal does to the owners: exactly the addresses of the pool are taken away.
  lemma WithdrawOwners(s: State, i: nat, k: Key, a: string)
    requires LedgerAgrees(s) && i < |s.pools|
    ensures Owns(Withdraw(s, i).allocs, k, a) <==> Owns(s.allocs, k, a) && a !in s.pools[i].addresses
  {
    if k in s.allocs {
      EditedEntries(s.allocs[k], Removed(s.pools[i]));
      var entries := s.allocs[k].entries;
      assert forall b :: b in Gone(entries, Removed(s.pools[i])) <==>
          b in AddressesOf(entries) && b in s.pools[i].addresses;
    }
  }

  lemma WithdrawTenants(s: State, i: nat)
    requires LedgerAgrees(s) && i < |s.pools|
    requires NothingAwaits(s, s.pools[i])
    ensures Tenants(Withdraw(s, i))
  {
    var t := Withdraw(s, i);
    var pool := s.pools[i];
    WithoutPoolIs(s.pools, i);
    forall k | k in t.allocs
      ensures t.allocs[k].kind == Persistent && AllBacked(t.pools, k.namespace, t.allocs[k].entries)
    {
      EditedEntries(s.allocs[k], Removed(pool));
      forall e | e in t.allocs[k].entries
        ensures Backed(t.pools, k.namespace, e)
      {
        assert Backed(s.pools, k.namespace, e) && e.address !in pool.addresses;
      }
    }
    forall d | d in t.deleted
      ensures AllBacked(t.pools, d.key.namespace, d.allocation.entries)
    {
      var j :| 0 <= j < |s.deleted| && s.deleted[j] == d;
      forall e | e in d.allocation.entries
        ensures Backed(t.pools, d.key.namespace, e)
      {
        assert Backed(s.pools, d.key.namespace, e);
        assert Awaits(s.deleted, j, e.address);
      }
    }
  }

  // Nothing of the pool is free or awaits release.
  ghost predicate AllHandedOut(s: State, i: nat)
    requires i < |s.pools|
  {
    forall a :: a in s.pools[i].addresses ==> IsOwned(s, a)
  }

  lemma HandedOutIff(s: State, i: nat)
    requires LedgerAgrees(s) && i < |s.pools|
    ensures AllHandedOut(s, i)
            <==> FreeIn(s.avail, s.pools[i].name) == {} && NothingAwaits(s, s.pools[i])
  {
    var d := s.pools[i];
    OffersPerPool(s.pools, s.avail, FreeOf(s), d);
    forall a | a in d.addresses
      ensures ExactlyOnePlace(s, d, a)
    {
      AgreeingPlaces(s, d, a);
    }
    assert forall a :: a in FreeIn(s.avail, d.name) ==> a in d.addresses;
  }

  lemma WithdrawOffers(s: State, i: nat)
    requires LedgerAgrees(s) && i < |s.pools| && AllHandedOut(s, i)
    ensures var t := Withdraw(s, i); Offers(t.pools, t.avail, FreeOf(t))
  {
    var t := Withdraw(s, i);
    var d := s.pools[i];
    WithoutPoolIs(s.pools, i);
    HandedOutIff(s, i);
    EntryIffFree(s.avail, d.name);
    forall p | p in t.avail
      ensures CopyOfDeclared(t.pools, p)
    {
      assert CopyOfDeclared(s.pools, p) && p.name != d.name;
    }
    forall a
      ensures a in FreeOf(t) <==> a in FreeOf(s)
    {
      OwnedOwns(s.allocs, a);
      OwnedOwns(t.allocs, a);
      if a in d.addresses {
        assert IsOwned(s, a);
      } else {
        forall k
          ensures Owns(t.allocs, k, a) <==> Owns(s.allocs, k, a)
        {
          WithdrawOwners(s, i, k, a);
        }
      }
    }
  }

  // Removing a pool keeps the ledger exactly when each of its addresses was in an allocation: nothing on this path
  // takes the availability entry of the pool away.
  lemma WithdrawKeepsLedgerIff(s: State, i: nat)
    requires LedgerAgrees(s) && i < |s.pools|
    ensures LedgerAgrees(Withdraw(s, i)) <==> AllHandedOut(s, i)
  {
    var t := Withdraw(s, i);
    var d := s.pools[i];
    WithoutPoolIs(s.pools, i);
    HandedOutIff(s, i);
    if AllHandedOut(s, i) {
      WithdrawTenants(s, i);
      EditedOneHolder(s, Removed(s.pools[i]));
      WithdrawOffers(s, i);
    }
    if LedgerAgrees(t) {
      forall p | p in s.avail
        ensures p.name != d.name
      {
        assert CopyOfDeclared(t.pools, p);
      }
      forall a | a in d.addresses
        ensures !IsAwaiting(s, a)
      {
        forall j, e | 0 <= j < |s.deleted| && e in s.deleted[j].allocation.entries
          ensures e.address in DeclaredAddresses(t.pools)
        {
          assert s.deleted[j] in t.deleted && Backed(t.pools, s.deleted[j].key.namespace, e);
        }
      }
    }
  }

  // What a removal with free addresses leads to: a namespace the pool admitted can still take each of them, under the
  // name of a pool that is no longer declared.
  lemma WithdrawnStillHandedOut(s: State, i: nat, namespace: string, a: string)
    requires LedgerAgrees(s) && i < |s.pools| && a in s.pools[i].addresses
    ensures var t := Withdraw(s, i);
            var use := UseIP(t.avail, namespace, a);
            && (use.pool.Some? <==> !IsOwned(s, a) && !IsAwaiting(s, a) && s.pools[i].Allows(namespace))
            && (use.pool.Some? ==> use.pool.value.name == s.pools[i].name && PoolByName(t.pools, s.pools[i].name).None?)
  {
    var d := s.pools[i];
    WithoutPoolIs(s.pools, i);
    AgreeingPlaces(s, d, a);
    OffersPerPool(s.pools, s.avail, FreeOf(s), d);
    UseTakesOne(s.pools, s.avail, FreeOf(s), namespace, a);
    if PoolOfAddress(s.pools, namespace, a).Some? {
      var q := PoolOfAddress(s.pools, namespace, a).value;
      PoolOfAddressIs(s.pools, namespace, a, q);
      var j :| 0 <= j < |s.pools| && s.pools[j] == q;
      assert j == i;
    }
    if d.Allows(namespace) {
      PoolOfAddressIs(s.pools, namespace, a, d);
    }
  }

  // ---- a new pool ----

  ghost function Declare(s: State, pool: Pool): State {
    s.(pools := s.pools + [pool], avail := AddOrReplace(s.avail, pool))
  }

  // A new pool that shares nothing with the others keeps the ledger, and offers all it declares.
  lemma DeclareKeepsLedger(s: State, pool: Pool)
    requires LedgerAgrees(s) && DisjointPools(s.pools + [pool])
    ensures LedgerAgrees(Declare(s, pool))
    ensures FreeIn(Declare(s, pool).avail, pool.name) == Elements(pool.addresses)
  {
    var t := Declare(s, pool);
    var n := |s.pools|;
    assert t.pools[n] == pool && forall j :: 0 <= j < n ==> t.pools[j] == s.pools[j];
    forall q | q in s.pools
      ensures q in t.pools && q.name != pool.name && forall a :: a in q.addresses ==> a !in pool.addresses
    {
      var j :| 0 <= j < n && s.pools[j] == q;
      assert t.pools[j] == q;
    }
    forall p | p in s.avail
      ensures CopyOfDeclared(t.pools, p) && p.name != pool.name
    {
      assert CopyOfDeclared(s.pools, p);
    }
    forall k | k in s.allocs
      ensures AllBacked(t.pools, k.namespace, s.allocs[k].entries)
    {
      BackedInMore(s.pools, t.pools, k.namespace, s.allocs[k].entries);
    }
    forall d | d in s.deleted
      ensures AllBacked(t.pools, d.key.namespace, d.allocation.entries)
    {
      BackedInMore(s.pools, t.pools, d.key.namespace, d.allocation.entries);
    }
    NewIsUnheld(s, pool);
    assert Offers(t.pools, s.avail, FreeOf(s));
    if pool.addresses == [] {
      assert FreeOf(t) == FreeOf(s);
    } else {
      assert CopyOfDeclared(t.pools, pool);
      AppendOffers(t.pools, s.avail, FreeOf(s), pool);
    }
    OffersPerPool(t.pools, t.avail, FreeOf(t), pool);
  }

  lemma BackedInMore(pools: seq<Pool>, more: seq<Pool>, namespace: string, entries: seq<Entry>)
    requires AllBacked(pools, namespace, entries) && forall d :: d in pools ==> d in more
    ensures AllBacked(more, namespace, entries)
  {
    forall e | e in entries
      ensures Backed(more, namespace, e)
    {
      assert Backed(pools, namespace, e);
    }
  }

  // Nobody holds an address of a pool that is not declared yet.
  lemma NewIsUnheld(s: State, pool: Pool)
    requires LedgerAgrees(s) && forall q, a :: q in s.pools && a in q.addresses ==> a !in pool.addresses
    ensures FreeOf(Declare(s, pool)) == FreeOf(s) + Elements(pool.addresses)
  {
    var t := Declare(s, pool);
    assert DeclaredAddresses(t.pools) == DeclaredAddresses(s.pools) + Elements(pool.addresses) by {
      assert pool in t.pools;
    }
    forall k, e | k in s.allocs && e in s.allocs[k].entries
      ensures e.address !in pool.addresses
    {
      assert Backed(s.pools, k.namespace, e);
    }
    forall d, e | d in s.deleted && e in d.allocation.entries
      ensures e.address !in pool.addresses
    {
      assert Backed(s.pools, d.key.namespace, e);
    }
  }

  // ---- runs with changing pools ----

  datatype Step =
    | Handled(event: Event)
    | PoolDeclared(pool: Pool)
    | PoolEdited(index: nat, pool: Pool)
    | PoolWithdrawn(index: nat)

  ghost function Advance(s: State, step: Step): State {
    match step
    case Handled(e) => Apply(s, e)
    case PoolDeclared(pool) => Declare(s, pool)
    case PoolEdited(i, pool) => if i < |s.pools| then PoolModified(s.(pools := s.pools[i := pool]), pool) else s
    case PoolWithdrawn(i) => if i < |s.pools| then Withdraw(s, i) else s
  }

  // What each step rests on, to be checked before it.
  ghost predicate Fair(s: State, step: Step) {
    match step
    case Handled(e) => UpdateSucceeds(s, e)
    case PoolDeclared(pool) => DisjointPools(s.pools + [pool])
    case PoolEdited(i, pool) => FairEdit(s, i, pool)
    case PoolWithdrawn(i) => i < |s.pools| && AllHandedOut(s, i)
  }

  ghost function History(s: State, steps: seq<Step>): State {
    if steps == [] then s else Advance(History(s, steps[..|steps| - 1]), steps[|steps| - 1])
  }

  // Through every history of events and fair changes of the pools, each address of a pool then declared is in exactly
  // one place, and each entry is of a pool then declared and open to the namespace that holds it.
  lemma {:induction false} HistoryKeepsLedger(s: State, steps: seq<Step>)
    requires LedgerAgrees(s) && forall i :: 0 <= i < |steps| ==> Fair(History(s, steps[..i]), steps[i])
    ensures LedgerAgrees(History(s, steps))
    ensures forall d, a :: d in History(s, steps).pools && a in d.addresses ==> ExactlyOnePlace(History(s, steps), d, a)
  {
    if steps != [] {
      var n := |steps| - 1;
      assert forall i :: 0 <= i < n ==> steps[..n][..i] == steps[..i];
      HistoryKeepsLedger(s, steps[..n]);
      FairStepKeepsLedger(History(s, steps[..n]), steps[n]);
    }
    var t := History(s, steps);
    forall d, a | d in t.pools && a in d.addresses
      ensures ExactlyOnePlace(t, d, a)
    {
      AgreeingPlaces(t, d, a);
    }
  }

  lemma FairStepKeepsLedger(s: State, step: Step)
    requires LedgerAgrees(s) && Fair(s, step)
    ensures LedgerAgrees(Advance(s, step))
  {
    match step
    case Handled(e) => StepKeepsLedger(s, e);
    case PoolDeclared(pool) => DeclareKeepsLedger(s, pool);
    case PoolEdited(i, pool) => EditKeepsLedgerIff(s, i, pool);
    case PoolWithdrawn(i) => WithdrawKeepsLedgerIff(s, i);
  }
}

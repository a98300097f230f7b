// What the ledger says about runs: one owner, tenancy, the cache against its recomputation, recreation, failures,
// healing.
module LedgerResults {
  import opened Types
  import opened Availability
  import opened Allocations
  import opened Speaker
  import opened Cluster
  import opened Ledger

  ghost predicate IsOwned(s: State, a: string) {
    exists k :: Owns(s.allocs, k, a)
  }

  ghost predicate IsAwaiting(s: State, a: string) {
    exists i :: Awaits(s.deleted, i, a)
  }

  // Exactly one of: available in its own pool, in an allocation, in a deletion not yet handled.
  ghost predicate ExactlyOnePlace(s: State, d: Pool, a: string) {
    && (a in FreeIn(s.avail, d.name) <==> !IsOwned(s, a) && !IsAwaiting(s, a))
    && !(IsOwned(s, a) && IsAwaiting(s, a))
    && (forall name :: a in FreeIn(s.avail, name) ==> name == d.name)
    && (forall k1, k2 :: Owns(s.allocs, k1, a) && Owns(s.allocs, k2, a) ==> k1 == k2)
    && (forall i, j :: Awaits(s.deleted, i, a) && Awaits(s.deleted, j, a) ==> i == j)
  }

  lemma AgreeingPlaces(s: State, d: Pool, a: string)
    requires LedgerAgrees(s) && d in s.pools && a in d.addresses
    ensures ExactlyOnePlace(s, d, a)
  {
    OffersPerPool(s.pools, s.avail, FreeOf(s), d);
    OwnedOwns(s.allocs, a);
    PendingAwaits(s.deleted, a);
    forall name | a in FreeIn(s.avail, name)
      ensures name == d.name
    {
      var p :| p in s.avail && p.name == name && a in p.addresses;
      OfferedByItsPool(s.pools, s.avail, p, d, a);
    }
  }

  // After every run whose updates succeed, every declared address is in exactly one place, and no two services own it.
  lemma RunExactlyOnePlace(s: State, events: seq<Event>, d: Pool, a: string)
    requires LedgerAgrees(s) && UpdatesSucceed(s, events) && d in s.pools && a in d.addresses
    ensures ExactlyOnePlace(Run(s, events), d, a)
  {
    RunKeepsLedger(s, events);
    AgreeingPlaces(Run(s, events), d, a);
  }

  // After every run, an allocation of a namespace only holds addresses of pools open to that namespace, and every
  // availability entry still admits exactly the namespaces its pool declares.
  lemma RunTenancy(s: State, events: seq<Event>)
    requires LedgerAgrees(s) && UpdatesSucceed(s, events)
    ensures var t := Run(s, events);
            && (forall k, a :: Owns(t.allocs, k, a) ==>
                 exists d :: d in s.pools && a in d.addresses && d.Allows(k.namespace))
            && (forall p :: p in t.avail ==>
                 exists d :: d in s.pools && d.name == p.name && d.allowedNamespaces == p.allowedNamespaces)
  {
    RunKeepsLedger(s, events);
    var t := Run(s, events);
    forall k, a | Owns(t.allocs, k, a)
      ensures exists d :: d in s.pools && a in d.addresses && d.Allows(k.namespace)
    {
      var e :| e in t.allocs[k].entries && e.address == a;
      assert Backed(t.pools, k.namespace, e);
    }
    forall p | p in t.avail
      ensures exists d :: d in s.pools && d.name == p.name && d.allowedNamespaces == p.allowedNamespaces
    {
      assert CopyOfDeclared(t.pools, p);
    }
  }

  // ---- the cache and its recomputation ----

  // Recomputing a pool as declared minus allocated keeps the ledger exactly when no address of it awaits release.
  lemma RecomputeKeepsIff(s: State, d: Pool)
    requires LedgerAgrees(s) && d in s.pools
    ensures Offers(s.pools, Recompute(s.avail, d, OwnedIn(s.allocs)), FreeOf(s))
            <==> (forall a :: a in d.addresses ==> !IsAwaiting(s, a))
  {
    var owned := OwnedIn(s.allocs);
    var left := Elements(d.addresses) - owned;
    RecomputeOffers(s.pools, s.avail, FreeOf(s), d, owned);
    forall a
      ensures a in PendingIn(s.deleted) <==> IsAwaiting(s, a)
      ensures a in PendingIn(s.deleted) ==> a !in owned
    {
      PendingAwaits(s.deleted, a);
      OwnedOwns(s.allocs, a);
    }
    if a :| a in d.addresses && IsAwaiting(s, a) {
      assert a in left && a !in FreeOf(s);
      assert left != {};
    } else if left != {} {
      assert FreeOf(s) - Elements(d.addresses) + left == FreeOf(s);
    }
  }

  // After any run that left no deletion unhandled, the cached availability is its own recomputation, for every pool
  // and under every name, also for a pool that is fully used and has no entry.
  lemma RunRefinesRecompute(s: State, events: seq<Event>, d: Pool, name: string)
    requires LedgerAgrees(s) && UpdatesSucceed(s, events) && d in s.pools
    requires Run(s, events).deleted == []
    ensures var t := Run(s, events);
            && FreeIn(Recompute(t.avail, d, OwnedIn(t.allocs)), name) == FreeIn(t.avail, name)
            && FreeIn(t.avail, d.name) == Elements(d.addresses) - OwnedIn(t.allocs)
  {
    RunKeepsLedger(s, events);
    var t := Run(s, events);
    RecomputeKeepsIff(t, d);
    SameOffers(t.pools, Recompute(t.avail, d, OwnedIn(t.allocs)), t.avail, FreeOf(t), name);
    OffersPerPool(t.pools, t.avail, FreeOf(t), d);
    assert FreeOf(t) * Elements(d.addresses) == Elements(d.addresses) - OwnedIn(t.allocs);
  }

  // ---- delete and recreate ----

  // A build from nothing, where the free set has just got the addresses `held` back.
  lemma BuildGetsBack(declared: seq<Pool>, av: seq<Pool>, free: set<string>, held: set<string>, namespace: string,
      ips: seq<string>, picks: seq<Option<string>>)
    requires DisjointPools(declared) && Offers(declared, av, free) && |picks| == |ips| && held <= free
    requires forall a :: a in held ==> PoolOfAddress(declared, namespace, a).Some?
    ensures var entries := Build(declared, av, namespace, [], ips, picks).entries;
            && AddressesOf(entries) == Obtained(declared, free, namespace, [], ips)
            && (forall a :: a in held && a in ips ==> a in AddressesOf(entries))
            && (Distinct(ips) && Elements(ips) <= held ==> AddressList(entries) == ips)
  {
    BuildMeaning(declared, av, free, namespace, [], ips, picks);
    assert Held([], ips) == {};
    if Distinct(ips) && Elements(ips) <= held {
      BuildOrder(declared, av, free, namespace, [], ips, picks);
      KeepAll(ips, Granted(declared, free, namespace, [], ips));
    }
  }

  // Handling a deletion while the service still asks for addresses gets back every one of them that was held,
  // and the new object has the type the service expects.
  lemma RecreateGetsBack(s: State, i: nat, svc: Service, picks: seq<Option<string>>, failing: set<string>)
    requires LedgerAgrees(s) && i < |s.deleted| && s.deleted[i].key !in s.allocs
    requires svc.isLoadBalancer && svc.externalIPs != [] && |picks| == |svc.externalIPs|
    ensures var d := s.deleted[i];
            var t := HandleDeleted(s, i, Some(svc), picks, true, failing);
            var held := AddressesOf(d.allocation.entries);
            && d.key in t.allocs && t.allocs[d.key].kind == ExpectedType(svc)
            && AddressesOf(t.allocs[d.key].entries)
                 == Obtained(s.pools, FreeOf(s) + held, d.key.namespace, [], svc.externalIPs)
            && (forall a :: a in held && a in svc.externalIPs ==> a in AddressesOf(t.allocs[d.key].entries))
            && (Distinct(svc.externalIPs) && Elements(svc.externalIPs) <= held ==>
                 AddressList(t.allocs[d.key].entries) == svc.externalIPs)
  {
    var d := s.deleted[i];
    var held := AddressesOf(d.allocation.entries);
    var ns := d.key.namespace;
    assert d in s.deleted;
    ReleaseEntriesMeaning(s.pools, s.avail, FreeOf(s), ns, d.allocation.entries);
    forall a | a in held
      ensures PoolOfAddress(s.pools, ns, a).Some?
    {
      var e :| e in d.allocation.entries && e.address == a;
      assert Backed(s.pools, ns, e);
    }
    var av := ReleaseEntries(s.pools, s.avail, ns, d.allocation.entries);
    BuildGetsBack(s.pools, av, FreeOf(s) + held, held, ns, svc.externalIPs, picks);
  }

  // Two backed entries with one address name one pool.
  lemma OneBacking(pools: seq<Pool>, n1: string, e1: Entry, n2: string, e2: Entry)
    requires DisjointPools(pools) && Backed(pools, n1, e1) && Backed(pools, n2, e2) && e1.address == e2.address
    ensures e1.pool == e2.pool
  {
    var d1 :| d1 in pools && Serves(d1, n1, e1.address) && d1.name == e1.pool;
    var d2 :| d2 in pools && Serves(d2, n2, e2.address) && d2.name == e2.pool;
    var i :| 0 <= i < |pools| && pools[i] == d1;
    var j :| 0 <= j < |pools| && pools[j] == d2;
    assert i == j;
  }

  lemma SamePools(pools: seq<Pool>, namespace: string, a: seq<Entry>, b: seq<Entry>)
    requires DisjointPools(pools) && AllBacked(pools, namespace, a) && AllBacked(pools, namespace, b)
    requires AddressList(a) == AddressList(b)
    ensures |a| == |b| && forall i :: 0 <= i < |a| ==> a[i].pool == b[i].pool
  {
    assert |AddressList(a)| == |AddressList(b)|;
    forall i | 0 <= i < |a|
      ensures a[i].pool == b[i].pool
    {
      assert AddressList(a)[i] == AddressList(b)[i];
      assert a[i] in a && b[i] in b;
      OneBacking(pools, namespace, a[i], namespace, b[i]);
    }
  }

  // Deleting the allocation of a service that keeps asking for the same addresses, and handling that deletion, gives
  // the service the same addresses from the same pools, in the order it asks for them, and every pool offers what it
  // did.
  lemma DeleteThenRecreate(s: State, key: Key, svc: Service, picks: seq<Option<string>>, failing: set<string>)
    requires LedgerAgrees(s) && key in s.allocs
    requires svc.isLoadBalancer && svc.externalIPs != [] && Distinct(svc.externalIPs) && |picks| == |svc.externalIPs|
    requires AddressList(s.allocs[key].entries) == svc.externalIPs
    ensures var t := HandleDeleted(DeleteAllocation(s, key), |s.deleted|, Some(svc), picks, true, failing);
            && LedgerAgrees(t) && t.deleted == s.deleted && t.allocs.Keys == s.allocs.Keys
            && (forall k :: k in s.allocs && k != key ==> t.allocs[k] == s.allocs[k])
            && t.allocs[key].kind == ExpectedType(svc)
            && AddressList(t.allocs[key].entries) == svc.externalIPs
            && (forall i :: 0 <= i < |svc.externalIPs| ==>
                 t.allocs[key].entries[i].pool == s.allocs[key].entries[i].pool)
            && (forall name :: FreeIn(t.avail, name) == FreeIn(s.avail, name))
  {
    var before := DeleteAllocation(s, key);
    var t := HandleDeleted(before, |s.deleted|, Some(svc), picks, true, failing);
    DeleteKeepsLedger(s, key);
    HandleDeletedKeepsLedger(before, |s.deleted|, Some(svc), picks, true, failing);
    SameList(s.allocs[key].entries, svc.externalIPs);
    RecreateGetsBack(before, |s.deleted|, svc, picks, failing);
    assert t.deleted == s.deleted;
    assert t.allocs.Keys == s.allocs.Keys;
    SameList(t.allocs[key].entries, svc.externalIPs);
    SamePools(s.pools, key.namespace, s.allocs[key].entries, t.allocs[key].entries);
    SameOwners(s, t, key);
    forall name
      ensures FreeIn(t.avail, name) == FreeIn(s.avail, name)
    {
      SameOffers(s.pools, t.avail, s.avail, FreeOf(s), name);
    }
  }

  lemma SameList(entries: seq<Entry>, ips: seq<string>)
    requires AddressList(entries) == ips
    ensures AddressesOf(entries) == Elements(ips)
  {
    forall a | a in ips
      ensures a in AddressesOf(entries)
    {
      var i :| 0 <= i < |ips| && ips[i] == a;
      assert entries[i].address == a;
    }
    forall e | e in entries
      ensures e.address in ips
    {
      var i :| 0 <= i < |entries| && entries[i] == e;
      assert ips[i] == e.address;
    }
  }

  lemma SameOwners(s: State, t: State, key: Key)
    requires key in s.allocs && t.allocs.Keys == s.allocs.Keys && t.pools == s.pools && t.deleted == s.deleted
    requires forall k :: k in s.allocs && k != key ==> t.allocs[k] == s.allocs[k]
    requires AddressesOf(t.allocs[key].entries) == AddressesOf(s.allocs[key].entries)
    ensures FreeOf(t) == FreeOf(s)
  {
    forall a
      ensures a in OwnedIn(t.allocs) <==> a in OwnedIn(s.allocs)
    {
      OwnedOwns(t.allocs, a);
      OwnedOwns(s.allocs, a);
      forall k
        ensures Owns(t.allocs, k, a) <==> Owns(s.allocs, k, a)
      {
      }
    }
  }

  // ---- what breaks the ledger ----

  lemma OffersOnlyOneSet(declared: seq<Pool>, av: seq<Pool>, a: set<string>, b: set<string>)
    requires Offers(declared, av, a)
    ensures Offers(declared, av, b) <==> a == b
  {
  }

  lemma AgreesIffSameFree(s: State, av: seq<Pool>, free: set<string>)
    requires LedgerAgrees(s) && Offers(s.pools, av, free)
    ensures LedgerAgrees(s.(avail := av)) <==> free == FreeOf(s)
  {
    assert FreeOf(s.(avail := av)) == FreeOf(s);
    OffersOnlyOneSet(s.pools, av, free, FreeOf(s));
  }

  // A patch whose update fails after it used and released addresses leaves the ledger right exactly when it neither
  // obtained an address nor gave one up.
  lemma FailedUpdateIff(s: State, key: Key, ips: seq<string>, picks: seq<Option<string>>)
    requires LedgerAgrees(s) && key in s.allocs && |picks| == |ips|
    ensures var p := Patch(s.pools, s.avail, key.namespace, s.allocs[key], ips, picks, false);
            LedgerAgrees(s.(avail := p.av))
            <==> && (forall ip :: ip in ips ==>
              Owns(s.allocs, key, ip) || ip !in FreeOf(s) || PoolOfAddress(s.pools, key.namespace, ip).None?)
                 && (forall a :: Owns(s.allocs, key, a) ==> a in ips)
  {
    var entries := s.allocs[key].entries;
    var free := FreeOf(s);
    var p := Patch(s.pools, s.avail, key.namespace, s.allocs[key], ips, picks, false);
    PatchMeaning(s.pools, s.avail, free, key.namespace, s.allocs[key], ips, picks, false);
    OwnIsNotFree(s, key);
    var obtained := Obtained(s.pools, free, key.namespace, entries, ips);
    var after := free - obtained + (AddressesOf(entries) - Held(entries, ips) - obtained);
    AgreesIffSameFree(s, p.av, after);
    NothingMovesIff(free, AddressesOf(entries), Held(entries, ips), obtained);
    assert obtained == {} <==>
        forall ip :: ip in ips ==>
        Owns(s.allocs, key, ip) || ip !in free || PoolOfAddress(s.pools, key.namespace, ip).None?;
    assert AddressesOf(entries) <= Held(entries, ips) <==> forall a :: Owns(s.allocs, key, a) ==> a in ips;
  }

  lemma NothingMovesIff(free: set<string>, own: set<string>, held: set<string>, obtained: set<string>)
    requires obtained <= free && own !! free && held <= own
    ensures free - obtained + (own - held - obtained) == free <==> obtained == {} && own <= held
  {
    var after := free - obtained + (own - held - obtained);
    if a :| a in obtained {
      assert a !in after;
    } else if a :| a in own && a !in held {
      assert a in after;
    }
  }

  // Releasing an address a second time, when others may have acted in between, is harmless exactly when it is still
  // free.
  lemma LateReleaseIff(s: State, namespace: string, d: Pool, a: string)
    requires LedgerAgrees(s) && d in s.pools && Serves(d, namespace, a)
    ensures LedgerAgrees(s.(avail := ReleaseIP(s.pools, s.avail, d.name, namespace, a)))
            <==> !IsOwned(s, a) && !IsAwaiting(s, a)
  {
    PoolOfAddressIs(s.pools, namespace, a, d);
    ReleaseGivesBack(s.pools, s.avail, FreeOf(s), d.name, namespace, a);
    AgreesIffSameFree(s, ReleaseIP(s.pools, s.avail, d.name, namespace, a), FreeOf(s) + {a});
    AgreeingPlaces(s, d, a);
    OwnedOwns(s.allocs, a);
    PendingAwaits(s.deleted, a);
    assert a in FreeOf(s) <==> FreeOf(s) + {a} == FreeOf(s);
  }

  // ---- start-up and healing ----

  // The state the controller starts in.
  ghost function Started(s: State): State {
    s.(avail := Warmup(s.pools, OwnedIn(s.allocs)))
  }

  // With no deletion unhandled, all that is left to check is the availability.
  lemma AgreesWhenOffers(s: State, av: seq<Pool>)
    requires DisjointPools(s.pools) && Tenants(s) && OneHolder(s) && s.deleted == []
    ensures LedgerAgrees(s.(avail := av)) <==> Offers(s.pools, av, DeclaredAddresses(s.pools) - OwnedIn(s.allocs))
  {
    assert FreeOf(s.(avail := av)) == DeclaredAddresses(s.pools) - OwnedIn(s.allocs);
  }

  // Start-up reaches an agreeing ledger exactly when every pool that declares an address has a free one.
  lemma StartedAgreesIff(s: State)
    requires DisjointPools(s.pools) && Tenants(s) && OneHolder(s) && s.deleted == []
    ensures LedgerAgrees(Started(s))
            <==> (forall d :: d in s.pools ==> d.addresses == [] || exists a :: a in d.addresses && !IsOwned(s, a))
  {
    WarmupExactIff(s.pools, OwnedIn(s.allocs));
    AgreesWhenOffers(s, Warmup(s.pools, OwnedIn(s.allocs)));
    forall d | d in s.pools
      ensures Elements(d.addresses) <= OwnedIn(s.allocs) <==> !exists a :: a in d.addresses && !IsOwned(s, a)
    {
      AllOwnedIff(s, d);
    }
  }

  lemma AllOwnedIff(s: State, d: Pool)
    ensures Elements(d.addresses) <= OwnedIn(s.allocs) <==> !exists a :: a in d.addresses && !IsOwned(s, a)
  {
    forall a
      ensures a in OwnedIn(s.allocs) <==> IsOwned(s, a)
    {
      OwnedOwns(s.allocs, a);
    }
  }

  // An event of the healing run: an allocation of an existing service is ensured, and that ends in success.
  ghost predicate EnsuresWell(s: State, e: Event) {
    && e.IPsEnsured? && e.service.Some? && e.service.value.isLoadBalancer && e.key in s.allocs
    && Apply(s, e).allocs[e.key].status == Success
  }

  lemma {:induction false} EnsuredAvail(pools: seq<Pool>, av: seq<Pool>, nodes: seq<Node>, entries: seq<Entry>,
      failing: set<string>, cloudFails: set<string>)
    requires EnsureEntries(pools, av, nodes, entries, failing, cloudFails).error.None?
    ensures EnsureEntries(pools, av, nodes, entries, failing, cloudFails).av == EnsureAll(av, entries)
  {
    if entries != [] {
      EnsuredAvail(pools, av, nodes, entries[..|entries| - 1], failing, cloudFails);
    }
  }

  // The addresses the ensured entries name under one pool name, read from the objects before the run.
  ghost function Named(allocs: map<Key, IPAllocation>, events: seq<Event>, name: string): set<string> {
    set i, e | 0 <= i < |events| && events[i].IPsEnsured? && events[i].key in allocs
               && e in allocs[events[i].key].entries && e.pool == name :: e.address
  }

  lemma NamedLast(allocs: map<Key, IPAllocation>, events: seq<Event>, n: nat, name: string)
    requires |events| == n + 1 && events[n].IPsEnsured? && events[n].key in allocs
    ensures Named(allocs, events, name)
            == Named(allocs, events[..n], name)
                + (set e | e in allocs[events[n].key].entries && e.pool == name :: e.address)
  {
    assert forall i :: 0 <= i < n ==> events[..n][i] == events[i];
  }

  // The objects keep their kinds and entries.
  ghost predicate SameObjects(a: map<Key, IPAllocation>, b: map<Key, IPAllocation>) {
    a.Keys == b.Keys && forall k :: k in a ==> b[k].entries == a[k].entries && b[k].kind == a[k].kind
  }

  lemma HealingStep(s: State, e: Event, name: string)
    requires WellFormed(s.avail) && EnsuresWell(s, e)
    ensures var t := Apply(s, e);
            && WellFormed(t.avail)
            && FreeIn(t.avail, name)
                 == FreeIn(s.avail, name) - (set x | x in s.allocs[e.key].entries && x.pool == name :: x.address)
            && t.pools == s.pools && t.deleted == s.deleted && SameObjects(s.allocs, t.allocs)
  {
    var o := s.allocs[e.key];
    EnsuredAvail(s.pools, s.avail, s.nodes, o.entries, e.failing, e.cloudFails);
    EnsureAllHeals(s.avail, o.entries, name);
  }

  // From any well-formed availability whatever, after a run in which allocations are ensured with success: under every
  // pool name exactly the addresses the ensured entries name there are gone, and nothing else has changed.
  lemma {:induction false} HealingRun(s: State, events: seq<Event>, name: string)
    requires WellFormed(s.avail)
    requires forall i :: 0 <= i < |events| ==> EnsuresWell(Run(s, events[..i]), events[i])
    ensures var t := Run(s, events);
            && WellFormed(t.avail) && FreeIn(t.avail, name) == FreeIn(s.avail, name) - Named(s.allocs, events, name)
            && t.pools == s.pools && t.deleted == s.deleted && SameObjects(s.allocs, t.allocs)
  {
    if events != [] {
      var n := |events| - 1;
      assert forall i :: 0 <= i < n ==> events[..n][..i] == events[..i];
      HealingRun(s, events[..n], name);
      HealingStep(Run(s, events[..n]), events[n], name);
      NamedLast(s.allocs, events, n, name);
    }
  }

  // The same on an availability that offers some declared addresses.
  lemma EnsureWellStep(s: State, e: Event, free: set<string>)
    requires DisjointPools(s.pools) && Tenants(s) && EnsuresWell(s, e) && Offers(s.pools, s.avail, free)
    ensures var t := Apply(s, e);
            && Offers(s.pools, t.avail, free - AddressesOf(s.allocs[e.key].entries))
            && t.pools == s.pools && t.deleted == s.deleted && SameObjects(s.allocs, t.allocs)
  {
    var o := s.allocs[e.key];
    EnsuredAvail(s.pools, s.avail, s.nodes, o.entries, e.failing, e.cloudFails);
    forall x | x in o.entries
      ensures exists d :: d in s.pools && d.name == x.pool && x.address in d.addresses
    {
      assert Backed(s.pools, e.key.namespace, x);
    }
    EnsureAllOffers(s.pools, s.avail, free, o.entries);
  }

  ghost function EnsuredAddresses(s: State, events: seq<Event>): set<string> {
    set i, a | 0 <= i < |events| && events[i].IPsEnsured? && a in OwnedBy(s.allocs, events[i].key) :: a
  }

  lemma {:induction false} HealingOffers(s: State, events: seq<Event>, free: set<string>)
    requires DisjointPools(s.pools) && Tenants(s) && Offers(s.pools, s.avail, free)
    requires forall i :: 0 <= i < |events| ==> EnsuresWell(Run(s, events[..i]), events[i])
    ensures var t := Run(s, events);
            && Offers(s.pools, t.avail, free - EnsuredAddresses(s, events))
            && t.pools == s.pools && t.deleted == s.deleted && SameObjects(s.allocs, t.allocs)
  {
    if events == [] {
      assert free - EnsuredAddresses(s, events) == free;
    } else {
      var n := |events| - 1;
      assert forall i :: 0 <= i < n ==> events[..n][..i] == events[..i];
      HealingOffers(s, events[..n], free);
      var t := Run(s, events[..n]);
      SameTenants(s, t);
      EnsureWellStep(t, events[n], free - EnsuredAddresses(s, events[..n]));
      EnsuredSplit(s, events, n);
      assert free - EnsuredAddresses(s, events[..n]) - OwnedBy(s.allocs, events[n].key)
          == free - EnsuredAddresses(s, events);
    }
  }

  lemma SameTenants(s: State, t: State)
    requires t.pools == s.pools && t.deleted == s.deleted && SameObjects(s.allocs, t.allocs)
    ensures Tenants(s) ==> Tenants(t)
    ensures OwnedIn(t.allocs) == OwnedIn(s.allocs)
    ensures OneHolder(s) ==> OneHolder(t)
  {
    forall k, a
      ensures Owns(t.allocs, k, a) <==> Owns(s.allocs, k, a)
    {
    }
    forall a
      ensures a in OwnedIn(t.allocs) <==> a in OwnedIn(s.allocs)
    {
      OwnedOwns(t.allocs, a);
      OwnedOwns(s.allocs, a);
    }
  }

  lemma EnsuredSplit(s: State, events: seq<Event>, n: nat)
    requires |events| == n + 1 && events[n].IPsEnsured?
    ensures EnsuredAddresses(s, events) == EnsuredAddresses(s, events[..n]) + OwnedBy(s.allocs, events[n].key)
  {
    assert forall i :: 0 <= i < n ==> events[..n][i] == events[i];
  }

  ghost predicate EnsuresAll(s: State, events: seq<Event>) {
    && (forall i :: 0 <= i < |events| ==> EnsuresWell(Run(s, events[..i]), events[i]))
    && (forall k :: k in s.allocs ==> exists i :: 0 <= i < |events| && events[i].IPsEnsured? && events[i].key == k)
  }

  lemma EnsuredIsOwned(s: State, events: seq<Event>)
    requires EnsuresAll(s, events)
    ensures EnsuredAddresses(s, events) == OwnedIn(s.allocs)
  {
    forall i | 0 <= i < |events|
      ensures events[i].IPsEnsured?
    {
      assert EnsuresWell(Run(s, events[..i]), events[i]);
    }
    forall a
      ensures a in EnsuredAddresses(s, events) <==> a in OwnedIn(s.allocs)
    {
      OwnedOwns(s.allocs, a);
      if k :| Owns(s.allocs, k, a) {
        var i :| 0 <= i < |events| && events[i].IPsEnsured? && events[i].key == k;
        assert a in OwnedBy(s.allocs, events[i].key);
      }
      if i :| 0 <= i < |events| && a in OwnedBy(s.allocs, events[i].key) {
        assert Owns(s.allocs, events[i].key, a);
      }
    }
  }

  // Whatever declared addresses the availability offered, once every allocation was ensured with success the ledger
  // agrees if and only if no address nobody holds had been lost and none that awaits release was offered: allocated
  // addresses do not matter, they are never available afterwards.
  lemma HealedAgreesIff(s: State, events: seq<Event>, free: set<string>)
    requires DisjointPools(s.pools) && Tenants(s) && OneHolder(s) && Offers(s.pools, s.avail, free)
        && EnsuresAll(s, events)
    ensures LedgerAgrees(Run(s, events)) <==> FreeOf(s) <= free && free !! PendingIn(s.deleted)
  {
    var t := Run(s, events);
    HealingOffers(s, events, free);
    EnsuredIsOwned(s, events);
    SameTenants(s, t);
    assert FreeOf(t) == FreeOf(s);
    OffersOnlyOneSet(s.pools, t.avail, free - OwnedIn(s.allocs), FreeOf(s));
    OffersDeclared(s.pools, s.avail, free);
    OwnedAwaitsNothing(s);
    HealedSetIff(DeclaredAddresses(s.pools), OwnedIn(s.allocs), PendingIn(s.deleted), free);
  }

  lemma OwnedAwaitsNothing(s: State)
    requires OneHolder(s)
    ensures OwnedIn(s.allocs) !! PendingIn(s.deleted)
  {
    forall a | a in OwnedIn(s.allocs)
      ensures a !in PendingIn(s.deleted)
    {
      OwnedOwns(s.allocs, a);
      PendingAwaits(s.deleted, a);
    }
  }

  lemma HealedSetIff(declared: set<string>, owned: set<string>, pending: set<string>, free: set<string>)
    requires free <= declared && owned !! pending
    ensures free - owned == declared - owned - pending <==> declared - owned - pending <= free && free !! pending
  {
    var left := declared - owned - pending;
    if free - owned == left {
      assert forall a :: a in free && a in pending ==> a in free - owned;
      assert forall a :: a in left ==> a in free;
    }
  }

  lemma OffersDeclared(declared: seq<Pool>, av: seq<Pool>, free: set<string>)
    requires Offers(declared, av, free)
    ensures free <= DeclaredAddresses(declared)
  {
    forall a | a in free
      ensures a in DeclaredAddresses(declared)
    {
      var p :| p in av && a in p.addresses;
      assert CopyOfDeclared(declared, p);
    }
  }

  // However start-up left the availability, once every allocation was ensured with success the ledger agrees again:
  // no allocated address is available and no unallocated one was lost.
  lemma HealedAgrees(s: State, events: seq<Event>)
    requires DisjointPools(s.pools) && Tenants(s) && OneHolder(s) && s.deleted == [] && EnsuresAll(Started(s), events)
    ensures LedgerAgrees(Run(Started(s), events))
  {
    var free := WarmupFree(s.pools, OwnedIn(s.allocs));
    StartedOffers(s);
    WarmupFreeLess(s.pools, OwnedIn(s.allocs));
    assert FreeOf(Started(s)) == DeclaredAddresses(s.pools) - OwnedIn(s.allocs);
    HealedAgreesIff(Started(s), events, free);
  }

  lemma StartedOffers(s: State)
    requires DisjointPools(s.pools)
    ensures Offers(s.pools, Started(s).avail, WarmupFree(s.pools, OwnedIn(s.allocs)))
  {
    WarmupOffers(s.pools, OwnedIn(s.allocs), |s.pools|);
    assert s.pools[..|s.pools|] == s.pools;
  }

  // A fresh system: pools declared, nothing allocated.
  ghost function Fresh(pools: seq<Pool>): State {
    State(pools, Warmup(pools, {}), map[], [], [])
  }

  // From there every run whose updates succeed keeps the ledger.
  lemma FreshRun(pools: seq<Pool>, events: seq<Event>)
    requires DisjointPools(pools) && UpdatesSucceed(Fresh(pools), events)
    ensures LedgerAgrees(Run(Fresh(pools), events))
  {
    var s := Fresh(pools);
    assert OwnedIn(s.allocs) == {};
    forall d | d in pools
      ensures d.addresses == [] || exists a :: a in d.addresses && !IsOwned(s, a)
    {
      if d.addresses != [] {
        assert d.addresses[0] in d.addresses && !IsOwned(s, d.addresses[0]);
      }
    }
    StartedAgreesIff(s);
    RunKeepsLedger(s, events);
  }
}

// The ledger over whole runs: every declared address is free in its pool, or in one allocation, or waiting to be
// released.
module Ledger {
  import opened Types
  import opened Availability
  import opened Allocations
  import opened Speaker
  import opened Cluster

  ghost function OwnedIn(allocs: map<Key, IPAllocation>): set<string> {
    set k, e | k in allocs && e in allocs[k].entries :: e.address
  }

  ghost function PendingIn(deleted: seq<Deleted>): set<string> {
    set d, e | d in deleted && e in d.allocation.entries :: e.address
  }

  // The addresses that should be available: declared, in no allocation and in no unhandled deletion.
  ghost function FreeOf(s: State): set<string> {
    DeclaredAddresses(s.pools) - OwnedIn(s.allocs) - PendingIn(s.deleted)
  }

  ghost function OwnedBy(allocs: map<Key, IPAllocation>, key: Key): set<string> {
    if key in allocs then AddressesOf(allocs[key].entries) else {}
  }

  ghost predicate Owns(allocs: map<Key, IPAllocation>, k: Key, address: string) {
    k in allocs && address in AddressesOf(allocs[k].entries)
  }

  ghost predicate Awaits(deleted: seq<Deleted>, i: int, address: string) {
    0 <= i < |deleted| && address in AddressesOf(deleted[i].allocation.entries)
  }

  // No address has two holders, where a holder is an allocation or an unhandled deletion.
  ghost predicate OneHolder(s: State) {
    && (forall k1, k2, a :: Owns(s.allocs, k1, a) && Owns(s.allocs, k2, a) ==> k1 == k2)
    && (forall k, i, a :: Owns(s.allocs, k, a) ==> !Awaits(s.deleted, i, a))
    && (forall i, j, a :: Awaits(s.deleted, i, a) && Awaits(s.deleted, j, a) ==> i == j)
  }

  // Every allocation is persistent and each of its entries names the declared pool that serves the address
  // to the namespace of the allocation.
  ghost predicate Tenants(s: State) {
    && (forall k :: k in s.allocs ==>
         s.allocs[k].kind == Persistent && AllBacked(s.pools, k.namespace, s.allocs[k].entries))
    && (forall d :: d in s.deleted ==> AllBacked(s.pools, d.key.namespace, d.allocation.entries))
  }

  ghost predicate LedgerAgrees(s: State) {
    && DisjointPools(s.pools)
    && Tenants(s)
    && OneHolder(s)
    && Offers(s.pools, s.avail, FreeOf(s))
  }

  // ---- one object changes ----

  // Storing an object for a key: fine when it only takes what is free or was its own.
  lemma StoreKeepsLedger(s: State, key: Key, o: IPAllocation, av: seq<Pool>)
    requires LedgerAgrees(s)
    requires var own := OwnedBy(s.allocs, key);
             var new_ := AddressesOf(o.entries);
             && new_ <= FreeOf(s) + own
             && Offers(s.pools, av, FreeOf(s) + own - new_)
    requires o.kind == Persistent && AllBacked(s.pools, key.namespace, o.entries)
    ensures LedgerAgrees(s.(avail := av, allocs := s.allocs[key := o]))
  {
    var t := s.(avail := av, allocs := s.allocs[key := o]);
    var own := OwnedBy(s.allocs, key);
    StoreOwned(s, key, o);
    forall a | a in own
      ensures a in DeclaredAddresses(s.pools) && a !in PendingIn(s.deleted)
    {
      assert Owns(s.allocs, key, a);
      var e :| e in s.allocs[key].entries && e.address == a;
      assert Backed(s.pools, key.namespace, e);
      PendingAwaits(s.deleted, a);
    }
    assert FreeOf(t) == FreeOf(s) + own - AddressesOf(o.entries);
    StoreOneHolder(s, key, o);
  }

  lemma PendingAwaits(deleted: seq<Deleted>, a: string)
    ensures a in PendingIn(deleted) <==> exists i :: Awaits(deleted, i, a)
  {
    if a in PendingIn(deleted) {
      var d, e :| d in deleted && e in d.allocation.entries && e.address == a;
      var i :| 0 <= i < |deleted| && deleted[i] == d;
      assert Awaits(deleted, i, a);
    }
    if i :| Awaits(deleted, i, a) {
      assert deleted[i] in deleted;
    }
  }

  lemma OwnedOwns(allocs: map<Key, IPAllocation>, a: string)
    ensures a in OwnedIn(allocs) <==> exists k :: Owns(allocs, k, a)
  {
    if a in OwnedIn(allocs) {
      var k, e :| k in allocs && e in allocs[k].entries && e.address == a;
      assert Owns(allocs, k, a);
    }
  }

  lemma StoreOwned(s: State, key: Key, o: IPAllocation)
    requires OneHolder(s)
    ensures OwnedIn(s.allocs[key := o])
            == OwnedIn(s.allocs) - OwnedBy(s.allocs, key) + AddressesOf(o.entries)
  {
    var after := s.allocs[key := o];
    var own := OwnedBy(s.allocs, key);
    forall a
      ensures a in OwnedIn(after) <==> a in OwnedIn(s.allocs) - own + AddressesOf(o.entries)
    {
      OwnedOwns(after, a);
      OwnedOwns(s.allocs, a);
      if k :| Owns(s.allocs, k, a) && k != key {
        assert Owns(after, k, a);
        assert a in own ==> Owns(s.allocs, key, a);
      }
      if k :| Owns(after, k, a) && k != key {
        assert Owns(s.allocs, k, a);
        assert a in own ==> Owns(s.allocs, key, a);
      }
      assert a in AddressesOf(o.entries) ==> Owns(after, key, a);
    }
  }

  lemma StoreOneHolder(s: State, key: Key, o: IPAllocation)
    requires OneHolder(s)
    requires AddressesOf(o.entries) <= FreeOf(s) + OwnedBy(s.allocs, key)
    ensures OneHolder(s.(allocs := s.allocs[key := o]))
  {
    var after := s.allocs[key := o];
    forall k, a | Owns(after, k, a) && k != key
      ensures a !in AddressesOf(o.entries)
    {
      assert Owns(s.allocs, k, a);
      OwnedOwns(s.allocs, a);
      assert !Owns(s.allocs, key, a);
    }
    forall k, i, a | Owns(after, k, a)
      ensures !Awaits(s.deleted, i, a)
    {
      if k != key {
        assert Owns(s.allocs, k, a);
      } else {
        PendingAwaits(s.deleted, a);
        assert a !in FreeOf(s) ==> Owns(s.allocs, key, a);
      }
    }
    forall k1, k2, a | Owns(after, k1, a) && Owns(after, k2, a)
      ensures k1 == k2
    {
      if k1 != key && k2 != key {
        assert Owns(s.allocs, k1, a) && Owns(s.allocs, k2, a);
      }
    }
  }

  // ---- the steps ----

  lemma CreateKeepsLedger(s: State, key: Key, svc: Service, picks: seq<Option<string>>, createOk: bool)
    requires LedgerAgrees(s)
    ensures LedgerAgrees(CreateForService(s, key, svc, picks, createOk))
  {
    var ips := svc.externalIPs;
    if ExpectedType(svc) == Persistent && key !in s.allocs && |picks| == |ips| {
      if createOk {
        var b := Build(s.pools, s.avail, key.namespace, [], ips, picks);
        BuildMeaning(s.pools, s.avail, FreeOf(s), key.namespace, [], ips, picks);
        var obtained := Obtained(s.pools, FreeOf(s), key.namespace, [], ips);
        assert AddressesOf(b.entries) == obtained;
        assert FreeOf(s) + {} - AddressesOf(b.entries) == FreeOf(s) - obtained;
        StoreKeepsLedger(s, key, IPAllocation(Persistent, b.entries, StatusAfter(b.error)), b.av);
      } else {
        CreateRollsBack(s.pools, s.avail, FreeOf(s), key.namespace, ips, picks);
        AvailabilityReplaced(s, Create(s.pools, s.avail, key.namespace, ips, picks, false).av);
      }
    }
  }

  lemma AvailabilityReplaced(s: State, av: seq<Pool>)
    requires LedgerAgrees(s) && Offers(s.pools, av, FreeOf(s))
    ensures LedgerAgrees(s.(avail := av))
  {
  }

  // A deletion only moves the addresses of the object from owned to awaiting release.
  lemma DeleteMoves(s: State, key: Key, a: string)
    requires key in s.allocs
    ensures var t := DeleteAllocation(s, key);
            && (forall i :: Awaits(t.deleted, i, a) <==>
                 if i == |s.deleted| then Owns(s.allocs, key, a) else Awaits(s.deleted, i, a))
            && (forall k :: Owns(t.allocs, k, a) <==> Owns(s.allocs, k, a) && k != key)
            && (a in OwnedIn(s.allocs) + PendingIn(s.deleted) <==> a in OwnedIn(t.allocs) + PendingIn(t.deleted))
  {
    var t := DeleteAllocation(s, key);
    OwnedOwns(s.allocs, a);
    OwnedOwns(t.allocs, a);
    PendingAwaits(s.deleted, a);
    PendingAwaits(t.deleted, a);
    assert forall i :: Awaits(t.deleted, i, a) <==>
        if i == |s.deleted| then Owns(s.allocs, key, a) else Awaits(s.deleted, i, a);
    assert Awaits(t.deleted, |s.deleted|, a) <==> Owns(s.allocs, key, a);
  }

  lemma DeleteKeepsLedger(s: State, key: Key)
    requires LedgerAgrees(s)
    ensures LedgerAgrees(DeleteAllocation(s, key))
  {
    if key in s.allocs {
      var t := DeleteAllocation(s, key);
      DeleteKeepsHolders(s, key);
      forall a
        ensures a in OwnedIn(s.allocs) + PendingIn(s.deleted) <==> a in OwnedIn(t.allocs) + PendingIn(t.deleted)
      {
        DeleteMoves(s, key, a);
      }
      assert OwnedIn(s.allocs) + PendingIn(s.deleted) == OwnedIn(t.allocs) + PendingIn(t.deleted);
      assert FreeOf(s) == DeclaredAddresses(s.pools) - (OwnedIn(s.allocs) + PendingIn(s.deleted));
      assert FreeOf(t) == DeclaredAddresses(t.pools) - (OwnedIn(t.allocs) + PendingIn(t.deleted));
    }
  }

  lemma DeleteKeepsHolders(s: State, key: Key)
    requires OneHolder(s) && key in s.allocs
    ensures OneHolder(DeleteAllocation(s, key))
  {
    var t := DeleteAllocation(s, key);
    forall k1, k2, a | Owns(t.allocs, k1, a) && Owns(t.allocs, k2, a)
      ensures k1 == k2
    {
      DeleteMoves(s, key, a);
    }
    forall k, i, a | Owns(t.allocs, k, a)
      ensures !Awaits(t.deleted, i, a)
    {
      DeleteMoves(s, key, a);
    }
    forall i, j, a | Awaits(t.deleted, i, a) && Awaits(t.deleted, j, a)
      ensures i == j
    {
      DeleteMoves(s, key, a);
    }
  }

  ghost function Forgotten(s: State, i: nat): State
    requires i < |s.deleted|
  {
    s.(deleted := s.deleted[..i] + s.deleted[i + 1..])
  }

  lemma ForgottenAwaits(s: State, i: nat)
    requires i < |s.deleted|
    ensures forall j, a :: Awaits(Forgotten(s, i).deleted, j, a) <==>
              0 <= j < |s.deleted| - 1 && Awaits(s.deleted, if j < i then j else j + 1, a)
  {
  }

  lemma ForgottenPending(s: State, i: nat)
    requires OneHolder(s) && i < |s.deleted|
    ensures PendingIn(Forgotten(s, i).deleted) == PendingIn(s.deleted) - AddressesOf(s.deleted[i].allocation.entries)
  {
    var t := Forgotten(s, i);
    ForgottenAwaits(s, i);
    forall a
      ensures a in PendingIn(t.deleted) <==> a in PendingIn(s.deleted) && !Awaits(s.deleted, i, a)
    {
      PendingAwaits(s.deleted, a);
      PendingAwaits(t.deleted, a);
      if j :| Awaits(s.deleted, j, a) && j != i {
        assert Awaits(t.deleted, if j < i then j else j - 1, a);
      }
    }
  }

  // What awaits release is declared, and in no allocation.
  lemma AwaitingIsDeclared(s: State, i: nat)
    requires LedgerAgrees(s) && i < |s.deleted|
    ensures AddressesOf(s.deleted[i].allocation.entries) <= DeclaredAddresses(s.pools) - OwnedIn(s.allocs)
  {
    forall e | e in s.deleted[i].allocation.entries
      ensures e.address in DeclaredAddresses(s.pools) && e.address !in OwnedIn(s.allocs)
    {
      assert s.deleted[i] in s.deleted;
      assert Backed(s.pools, s.deleted[i].key.namespace, e);
      assert Awaits(s.deleted, i, e.address);
      OwnedOwns(s.allocs, e.address);
    }
  }

  // Forgetting deletion i frees exactly its addresses.
  lemma ForgetDeletion(s: State, i: nat)
    requires LedgerAgrees(s) && i < |s.deleted|
    ensures var t := s.(deleted := s.deleted[..i] + s.deleted[i + 1..]);
            && FreeOf(t) == FreeOf(s) + AddressesOf(s.deleted[i].allocation.entries)
            && Tenants(t) && OneHolder(t)
  {
    ForgottenAwaits(s, i);
    ForgottenPending(s, i);
    AwaitingIsDeclared(s, i);
    PendingAll(s, i);
    var gone := AddressesOf(s.deleted[i].allocation.entries);
    assert FreeOf(Forgotten(s, i)) == FreeOf(s) + gone;
  }

  lemma PendingAll(s: State, i: nat)
    requires i < |s.deleted|
    ensures AddressesOf(s.deleted[i].allocation.entries) <= PendingIn(s.deleted)
  {
    assert s.deleted[i] in s.deleted;
  }

  lemma HandleDeletedKeepsLedger(s: State, i: nat, svc: Option<Service>, picks: seq<Option<string>>, createOk: bool,
      failing: set<string>)
    requires LedgerAgrees(s)
    ensures LedgerAgrees(HandleDeleted(s, i, svc, picks, createOk, failing))
  {
    if i < |s.deleted| {
      var d := s.deleted[i];
      assert d in s.deleted;
      ForgetDeletion(s, i);
      ReleaseEntriesMeaning(s.pools, s.avail, FreeOf(s), d.key.namespace, d.allocation.entries);
      var released := s.(
        avail := ReleaseEntries(s.pools, s.avail, d.key.namespace, d.allocation.entries),
        nodes := RemoveEntries(s.nodes, d.allocation.entries, failing),
        deleted := s.deleted[..i] + s.deleted[i + 1..]);
      assert FreeOf(released) == FreeOf(s.(deleted := s.deleted[..i] + s.deleted[i + 1..]));
      assert LedgerAgrees(released);
      if svc.Some? && svc.value.isLoadBalancer {
        CreateKeepsLedger(released, d.key, svc.value, picks, createOk);
      }
    }
  }

  // Addresses held by an allocation are not free.
  lemma OwnIsNotFree(s: State, key: Key)
    requires LedgerAgrees(s) && key in s.allocs
    ensures AddressesOf(s.allocs[key].entries) !! FreeOf(s)
  {
    forall a | a in AddressesOf(s.allocs[key].entries)
      ensures a in OwnedIn(s.allocs)
    {
      assert Owns(s.allocs, key, a);
      OwnedOwns(s.allocs, a);
    }
  }

  // A patch whose update succeeds, with the second release of a success allocation, which then changes nothing.
  lemma PatchKeepsLedger(s: State, key: Key, ips: seq<string>, picks: seq<Option<string>>, updateOk: bool)
    requires LedgerAgrees(s) && key in s.allocs && |picks| == |ips|
    requires Patch(s.pools, s.avail, key.namespace, s.allocs[key], ips, picks, updateOk).error.None?
    ensures var p := Patch(s.pools, s.avail, key.namespace, s.allocs[key], ips, picks, updateOk);
            && LedgerAgrees(s.(avail := p.av, allocs := s.allocs[key := p.stored]))
            && ReleaseEntries(s.pools, p.av, key.namespace, p.removed) == p.av
  {
    var current := s.allocs[key];
    var free := FreeOf(s);
    var p := Patch(s.pools, s.avail, key.namespace, current, ips, picks, updateOk);
    PatchMeaning(s.pools, s.avail, free, key.namespace, current, ips, picks, updateOk);
    OwnIsNotFree(s, key);
    var own := AddressesOf(current.entries);
    var obtained := Obtained(s.pools, free, key.namespace, current.entries, ips);
    var held := Held(current.entries, ips);
    assert free - obtained + (own - held - obtained) == free + own - (held + obtained);
    StoreKeepsLedger(s, key, p.stored, p.av);
    ReleaseFreeEntries(s.pools, p.av, free + own - (held + obtained), key.namespace, p.removed);
  }

  lemma ReconcileKeepsLedger(s: State, key: Key, svc: Service, picks: seq<Option<string>>, updateOk: bool,
      failing: set<string>)
    requires LedgerAgrees(s)
    requires key in s.allocs && |picks| == |svc.externalIPs| ==>
               Patch(s.pools, s.avail, key.namespace, s.allocs[key], svc.externalIPs, picks, updateOk).error.None?
    ensures LedgerAgrees(Reconcile(s, key, svc, picks, updateOk, failing))
  {
    if key in s.allocs {
      DeleteKeepsLedger(s, key);
      if svc.isLoadBalancer && ExpectedType(svc) == Persistent && |picks| == |svc.externalIPs| {
        PatchKeepsLedger(s, key, svc.externalIPs, picks, updateOk);
        var p := Patch(s.pools, s.avail, key.namespace, s.allocs[key], svc.externalIPs, picks, updateOk);
        NodesDoNotMatter(s.(avail := p.av, allocs := s.allocs[key := p.stored]),
            Reconcile(s, key, svc, picks, updateOk, failing).nodes);
      }
    }
  }

  lemma NodesDoNotMatter(s: State, nodes: seq<Node>)
    requires LedgerAgrees(s)
    ensures LedgerAgrees(s.(nodes := nodes))
  {
    assert FreeOf(s.(nodes := nodes)) == FreeOf(s);
  }

  // In an agreeing ledger ensuring an allocation takes nothing out of the availability.
  lemma {:induction false} EnsureEntriesKeepsAvail(s: State, free: set<string>, namespace: string, entries: seq<Entry>,
      failing: set<string>, cloudFails: set<string>)
    requires DisjointPools(s.pools) && Offers(s.pools, s.avail, free)
    requires AllBacked(s.pools, namespace, entries) && AddressesOf(entries) !! free
    ensures EnsureEntries(s.pools, s.avail, s.nodes, entries, failing, cloudFails).av == s.avail
  {
    if entries != [] {
      var n := |entries| - 1;
      var e := entries[n];
      assert e in entries;
      assert Backed(s.pools, namespace, e);
      assert e.address in AddressesOf(entries);
      forall x | x in entries[..n]
        ensures x.address !in free
      {
        assert x.address in AddressesOf(entries);
      }
      EnsureEntriesKeepsAvail(s, free, namespace, entries[..n], failing, cloudFails);
      EnsureTakesOut(s.pools, s.avail, free, e.pool, e.address);
    }
  }

  // Objects whose addresses and pools are as before leave the ledger as it was.
  lemma RelabelKeepsLedger(s: State, allocs: map<Key, IPAllocation>)
    requires LedgerAgrees(s) && allocs.Keys == s.allocs.Keys
    requires forall k :: k in allocs ==>
        allocs[k].kind == s.allocs[k].kind && SameAddresses(allocs[k].entries, s.allocs[k].entries)
    ensures LedgerAgrees(s.(allocs := allocs))
  {
    var t := s.(allocs := allocs);
    forall k | k in allocs
      ensures AddressesOf(allocs[k].entries) == AddressesOf(s.allocs[k].entries)
      ensures AllBacked(s.pools, k.namespace, allocs[k].entries)
    {
      SameAddressesMeaning(s.pools, k.namespace, allocs[k].entries, s.allocs[k].entries);
    }
    assert forall k, a :: Owns(allocs, k, a) <==> Owns(s.allocs, k, a);
    forall a
      ensures a in OwnedIn(allocs) <==> a in OwnedIn(s.allocs)
    {
      OwnedOwns(allocs, a);
      OwnedOwns(s.allocs, a);
    }
    assert FreeOf(t) == FreeOf(s);
  }

  ghost predicate SameAddresses(a: seq<Entry>, b: seq<Entry>) {
    |a| == |b| && forall i :: 0 <= i < |a| ==> a[i].address == b[i].address && a[i].pool == b[i].pool
  }

  lemma SameAddressesMeaning(declared: seq<Pool>, namespace: string, a: seq<Entry>, b: seq<Entry>)
    requires SameAddresses(a, b) && AllBacked(declared, namespace, b)
    ensures AddressesOf(a) == AddressesOf(b) && AllBacked(declared, namespace, a)
  {
    forall i | 0 <= i < |a|
      ensures b[i].address in AddressesOf(a) && a[i].address in AddressesOf(b) && Backed(declared, namespace, a[i])
    {
      assert a[i] in a && b[i] in b;
      assert Backed(declared, namespace, b[i]);
    }
  }

  lemma EnsureKeepsLedger(s: State, key: Key, svc: Option<Service>, failing: set<string>, cloudFails: set<string>)
    requires LedgerAgrees(s)
    ensures LedgerAgrees(Ensure(s, key, svc, failing, cloudFails))
  {
    DeleteKeepsLedger(s, key);
    if key in s.allocs {
      var o := s.allocs[key];
      OwnIsNotFree(s, key);
      EnsureEntriesKeepsAvail(s, FreeOf(s), key.namespace, o.entries, failing, cloudFails);
      var r := EnsureEntries(s.pools, s.avail, s.nodes, o.entries, failing, cloudFails);
      var allocs := s.allocs[key := o.(status := EnsuredStatus(r.error))];
      RelabelKeepsLedger(s, allocs);
      NodesDoNotMatter(s.(allocs := allocs), r.nodes);
    }
  }

  lemma ChangeNodeKeepsLedger(s: State, key: Key, picks: seq<Option<string>>)
    requires LedgerAgrees(s)
    ensures LedgerAgrees(ChangeNode(s, key, picks))
  {
    if key in s.allocs && |picks| == |s.allocs[key].entries| {
      MoveKeepsAddresses(s.pools, s.allocs[key].entries, picks);
    }
    RelabelKeepsLedger(s, ChangeNode(s, key, picks).allocs);
  }

  lemma NodeLostKeepsLedger(s: State, node: string)
    requires LedgerAgrees(s)
    ensures LedgerAgrees(NodeLost(s, node)) && LedgerAgrees(NodeDeleted(s, node))
  {
    var marked := s.(allocs := LostAllocs(s.allocs, node));
    RelabelKeepsLedger(s, marked.allocs);
    NodesDoNotMatter(marked, NodeLost(s, node).nodes);
    NodesDoNotMatter(marked, NodeDeleted(s, node).nodes);
  }

  // ---- whole runs ----

  // The write of a patched object succeeds (or none was needed).
  ghost predicate UpdateSucceeds(s: State, e: Event) {
    e.Reconciled? && e.key in s.allocs && |e.picks| == |e.svc.externalIPs| ==>
      Patch(s.pools, s.avail, e.key.namespace, s.allocs[e.key], e.svc.externalIPs, e.picks, e.updateOk).error.None?
  }

  ghost predicate UpdatesSucceed(s: State, events: seq<Event>) {
    forall i :: 0 <= i < |events| ==> UpdateSucceeds(Run(s, events[..i]), events[i])
  }

  lemma StepKeepsLedger(s: State, e: Event)
    requires LedgerAgrees(s) && UpdateSucceeds(s, e)
    ensures LedgerAgrees(Apply(s, e)) && Apply(s, e).pools == s.pools
  {
    match e
    case ServiceCreated(key, svc, picks, createOk) => CreateKeepsLedger(s, key, svc, picks, createOk);
    case Reconciled(key, svc, picks, updateOk, failing) => ReconcileKeepsLedger(s, key, svc, picks, updateOk, failing);
    case AllocationRemoved(key) => DeleteKeepsLedger(s, key);
    case DeletionHandled(i, svc, picks, createOk, failing) => HandleDeletedKeepsLedger(s, i, svc, picks, createOk,
        failing);
    case IPsEnsured(key, svc, failing, cloudFails) => EnsureKeepsLedger(s, key, svc, failing, cloudFails);
    case NodeChanged(key, picks) => ChangeNodeKeepsLedger(s, key, picks);
    case OperatorLost(node) => NodeLostKeepsLedger(s, node);
    case OperatorDeleted(node) => NodeLostKeepsLedger(s, node);
    case OperatorReady(node, operator, order) => NodesDoNotMatter(s, Apply(s, e).nodes);
    case AddressesLost(node, lost) => NodesDoNotMatter(s, Apply(s, e).nodes);
  }

  lemma UpdatesPrefix(s: State, events: seq<Event>, n: nat)
    requires UpdatesSucceed(s, events) && |events| == n + 1
    ensures UpdatesSucceed(s, events[..n]) && UpdateSucceeds(Run(s, events[..n]), events[n])
  {
    forall i | 0 <= i < n
      ensures UpdateSucceeds(Run(s, events[..n][..i]), events[..n][i])
    {
      assert events[..n][..i] == events[..i];
    }
  }

  lemma {:induction false} RunKeepsLedger(s: State, events: seq<Event>)
    requires LedgerAgrees(s) && UpdatesSucceed(s, events)
    ensures LedgerAgrees(Run(s, events)) && Run(s, events).pools == s.pools
  {
    if events != [] {
      var n := |events| - 1;
      UpdatesPrefix(s, events, n);
      RunKeepsLedger(s, events[..n]);
      StepKeepsLedger(Run(s, events[..n]), events[n]);
    }
  }
}

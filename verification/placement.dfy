// Placement over whole runs: every address of a success allocation is on the node it names, on the interface of its
// pool, and on no ready node in any other place.
module Placement {
  import opened Types
  import opened Availability
  import opened Allocations
  import opened OperatorNode
  import opened Speaker
  import opened Cluster
  import opened Ledger

  // The slot an entry has on a node, when its pool puts addresses on an interface.
  ghost predicate OnHost(pools: seq<Pool>, e: Entry) {
    var p := PoolByName(pools, e.pool);
    p.Some? && p.value.HasHostNetwork()
  }

  ghost function HostSlot(pools: seq<Pool>, e: Entry): Slot
    requires OnHost(pools, e)
  {
    Slot(PoolByName(pools, e.pool).value.InterfaceName(), e.address)
  }

  ghost predicate Placed(pools: seq<Pool>, nodes: seq<Node>, e: Entry) {
    OnHost(pools, e) ==> Exclusive(nodes, e.nodeName, HostSlot(pools, e))
  }

  // The interface a pool asks for, empty when it asks for none.
  function HostInterface(p: Pool): string {
    if p.HasHostNetwork() then p.InterfaceName() else ""
  }

  // The entry carries the interface its pool asks for.
  ghost predicate RightInterface(pools: seq<Pool>, e: Entry) {
    var p := PoolByName(pools, e.pool);
    p.Some? ==> e.networkInterface == HostInterface(p.value)
  }

  // A pool that declares the address puts its addresses on this interface.
  ghost predicate AtHome(pools: seq<Pool>, x: Slot) {
    exists d :: d in pools && x.address in d.addresses && d.HasHostNetwork() && x.networkInterface == d.InterfaceName()
  }

  // Whatever declared addresses ready nodes have, used or not, are on the interfaces of their pools.
  ghost predicate AllAtHome(pools: seq<Pool>, nodes: seq<Node>) {
    forall i, x :: HasReady(nodes, i, x) && x.address in DeclaredAddresses(pools) ==> AtHome(pools, x)
  }

  ghost predicate GoodEntries(pools: seq<Pool>, entries: seq<Entry>) {
    Distinct(AddressList(entries)) && forall e :: e in entries ==> RightInterface(pools, e)
  }

  ghost predicate PlacementHolds(s: State) {
    && NodesSane(s.nodes) && AllAtHome(s.pools, s.nodes)
    && (forall k :: k in s.allocs ==> GoodEntries(s.pools, s.allocs[k].entries))
    && (forall k, e :: k in s.allocs && s.allocs[k].status == Success && e in s.allocs[k].entries ==>
         Placed(s.pools, s.nodes, e))
  }

  // ---- declared addresses stay at home ----

  // Nodes that got nothing but slots at home, and did not become ready, are still as they should be.
  lemma HomeKept(pools: seq<Pool>, a: seq<Node>, b: seq<Node>)
    requires AllAtHome(pools, a)
    requires forall i, x :: HasReady(b, i, x) && x.address in DeclaredAddresses(pools) ==>
        HasReady(a, i, x) || AtHome(pools, x)
    ensures AllAtHome(pools, b)
  {
  }

  lemma EntryAtHome(pools: seq<Pool>, namespace: string, e: Entry)
    requires DisjointPools(pools) && Backed(pools, namespace, e) && OnHost(pools, e)
    ensures AtHome(pools, HostSlot(pools, e))
  {
    var d :| d in pools && Serves(d, namespace, e.address) && d.name == e.pool;
    PoolByNameIs(pools, d);
  }

  // An address has one home.
  lemma OneHome(pools: seq<Pool>, x: Slot, y: Slot)
    requires DisjointPools(pools) && AtHome(pools, x) && AtHome(pools, y) && x.address == y.address
    ensures x == y
  {
    var d :| d in pools && x.address in d.addresses && d.HasHostNetwork() && x.networkInterface == d.InterfaceName();
    var f :| f in pools && y.address in f.addresses && f.HasHostNetwork() && y.networkInterface == f.InterfaceName();
    var i :| 0 <= i < |pools| && pools[i] == d;
    var j :| 0 <= j < |pools| && pools[j] == f;
    assert i == j;
  }

  lemma {:induction false} RemoveEntriesHome(pools: seq<Pool>, nodes: seq<Node>, entries: seq<Entry>,
      failing: set<string>)
    requires AllAtHome(pools, nodes)
    ensures AllAtHome(pools, RemoveEntries(nodes, entries, failing))
  {
    if entries != [] {
      var n := |entries| - 1;
      var e := entries[n];
      RemoveEntriesHome(pools, nodes, entries[..n], failing);
      var before := RemoveEntries(nodes, entries[..n], failing);
      RemovalHome(pools, before, e.nodeName, Slot(e.networkInterface, e.address), failing);
    }
  }

  lemma RemovalHome(pools: seq<Pool>, nodes: seq<Node>, target: string, x: Slot, failing: set<string>)
    requires AllAtHome(pools, nodes)
    ensures AllAtHome(pools, RemoveFromNode(nodes, target, x, failing).nodes)
  {
    RemoveFromNodeMeaning(nodes, target, x, failing);
    var after := RemoveFromNode(nodes, target, x, failing).nodes;
    forall i, y | HasReady(after, i, y)
      ensures HasReady(nodes, i, y)
    {
      assert SameBut(nodes[i], after[i], x.address);
    }
    HomeKept(pools, nodes, after);
  }

  lemma {:induction false} DeallocateRemovedHome(pools: seq<Pool>, nodes: seq<Node>, entries: seq<Entry>,
      failing: set<string>)
    requires AllAtHome(pools, nodes)
    ensures AllAtHome(pools, DeallocateRemoved(pools, nodes, entries, failing))
  {
    if entries != [] {
      var n := |entries| - 1;
      DeallocateRemovedHome(pools, nodes, entries[..n], failing);
      var before := DeallocateRemoved(pools, nodes, entries[..n], failing);
      if OnHost(pools, entries[n]) {
        RemovalHome(pools, before, entries[n].nodeName, HostSlot(pools, entries[n]), failing);
      }
    }
  }

  lemma AllocateHome(pools: seq<Pool>, nodes: seq<Node>, namespace: string, e: Entry, failing: set<string>,
      cloudFails: set<string>)
    requires DisjointPools(pools) && AllAtHome(pools, nodes) && Backed(pools, namespace, e)
    ensures AllAtHome(pools, AllocateAddress(pools, nodes, e, failing, cloudFails).nodes)
  {
    if OnHost(pools, e) {
      var x := HostSlot(pools, e);
      EntryAtHome(pools, namespace, e);
      EnsureMeaning(nodes, e.nodeName, x, failing);
      var after := EnsureOnNode(nodes, e.nodeName, x, failing).nodes;
      forall i, y | HasReady(after, i, y)
        ensures HasReady(nodes, i, y) || y == x
      {
        assert SameBut(nodes[i], after[i], x.address) && NothingNewBut(nodes[i], after[i], x);
      }
      HomeKept(pools, nodes, after);
    }
  }

  lemma {:induction false} EnsureEntriesHome(pools: seq<Pool>, av: seq<Pool>, nodes: seq<Node>, namespace: string,
      entries: seq<Entry>, failing: set<string>, cloudFails: set<string>)
    requires DisjointPools(pools) && AllAtHome(pools, nodes) && AllBacked(pools, namespace, entries)
    ensures AllAtHome(pools, EnsureEntries(pools, av, nodes, entries, failing, cloudFails).nodes)
  {
    if entries != [] {
      var n := |entries| - 1;
      EnsureEntriesHome(pools, av, nodes, namespace, entries[..n], failing, cloudFails);
      var r := EnsureEntries(pools, av, nodes, entries[..n], failing, cloudFails);
      AllocateHome(pools, r.nodes, namespace, entries[n], failing, cloudFails);
    }
  }

  // ---- sweeps over many addresses ----

  lemma {:induction false} RemoveEntriesKeeps(nodes: seq<Node>, entries: seq<Entry>, failing: set<string>,
      target: string, x: Slot)
    requires NodesSane(nodes) && x.address !in AddressesOf(entries)
    ensures NodesSane(RemoveEntries(nodes, entries, failing))
    ensures Exclusive(nodes, target, x) ==> Exclusive(RemoveEntries(nodes, entries, failing), target, x)
  {
    if entries != [] {
      var n := |entries| - 1;
      var e := entries[n];
      assert entries == entries[..n] + [e];
      RemoveEntriesKeeps(nodes, entries[..n], failing, target, x);
      var before := RemoveEntries(nodes, entries[..n], failing);
      assert e in entries && e.address in AddressesOf(entries);
      RemoveFromNodeMeaning(before, e.nodeName, Slot(e.networkInterface, e.address), failing);
      if e.networkInterface != "" {
        var after := RemoveFromNode(before, e.nodeName, Slot(e.networkInterface, e.address), failing).nodes;
        ExclusiveSame(before, after, e.address, target, x);
        SaneSame(before, after, e.address);
      }
    }
  }

  lemma {:induction false} DeallocateRemovedKeeps(pools: seq<Pool>, nodes: seq<Node>, entries: seq<Entry>,
      failing: set<string>, target: string, x: Slot)
    requires NodesSane(nodes) && x.address !in AddressesOf(entries)
    ensures NodesSane(DeallocateRemoved(pools, nodes, entries, failing))
    ensures Exclusive(nodes, target, x) ==> Exclusive(DeallocateRemoved(pools, nodes, entries, failing), target, x)
  {
    if entries != [] {
      var n := |entries| - 1;
      var e := entries[n];
      assert entries == entries[..n] + [e];
      DeallocateRemovedKeeps(pools, nodes, entries[..n], failing, target, x);
      var before := DeallocateRemoved(pools, nodes, entries[..n], failing);
      assert e in entries && e.address in AddressesOf(entries);
      if OnHost(pools, e) {
        RemoveFromNodeMeaning(before, e.nodeName, HostSlot(pools, e), failing);
        var after := RemoveFromNode(before, e.nodeName, HostSlot(pools, e), failing).nodes;
        ExclusiveSame(before, after, e.address, target, x);
        SaneSame(before, after, e.address);
      }
    }
  }

  lemma AllocateSame(pools: seq<Pool>, nodes: seq<Node>, e: Entry, failing: set<string>, cloudFails: set<string>)
    ensures AllSameBut(nodes, AllocateAddress(pools, nodes, e, failing, cloudFails).nodes, e.address)
  {
    if OnHost(pools, e) {
      EnsureMeaning(nodes, e.nodeName, HostSlot(pools, e), failing);
    } else {
      forall i | 0 <= i < |nodes|
        ensures SameBut(nodes[i], nodes[i], e.address)
      {
        SameAsItself(nodes[i], e.address);
      }
    }
  }

  ghost predicate SameAt(a: Node, b: Node, address: string) {
    a.name == b.name && a.ready == b.ready && forall x: Slot :: x.address == address ==>
        (Touches(a, x) <==> Touches(b, x))
  }

  // Ensuring entries leaves the places of all other addresses alone.
  lemma {:induction false} EnsureEntriesKeeps(pools: seq<Pool>, av: seq<Pool>, nodes: seq<Node>, entries: seq<Entry>,
      failing: set<string>, cloudFails: set<string>, target: string, x: Slot)
    requires NodesSane(nodes) && x.address !in AddressesOf(entries)
    ensures var r := EnsureEntries(pools, av, nodes, entries, failing, cloudFails);
            && NodesSane(r.nodes) && (Exclusive(nodes, target, x) <==> Exclusive(r.nodes, target, x))
            && |r.nodes| == |nodes|
            && forall i :: 0 <= i < |nodes| ==> SameAt(nodes[i], r.nodes[i], x.address)
  {
    if entries != [] {
      var n := |entries| - 1;
      var e := entries[n];
      assert entries == entries[..n] + [e];
      EnsureEntriesKeeps(pools, av, nodes, entries[..n], failing, cloudFails, target, x);
      var r := EnsureEntries(pools, av, nodes, entries[..n], failing, cloudFails);
      assert e in entries && e.address in AddressesOf(entries);
      if r.error.None? {
        AllocateSame(pools, r.nodes, e, failing, cloudFails);
        var after := AllocateAddress(pools, r.nodes, e, failing, cloudFails).nodes;
        ExclusiveSame(r.nodes, after, e.address, target, x);
        SaneSame(r.nodes, after, e.address);
        forall i | 0 <= i < |nodes|
          ensures SameAt(nodes[i], after[i], x.address)
        {
          assert SameBut(r.nodes[i], after[i], e.address);
        }
      }
    }
  }

  // The node of the entry has an operator, and every ready node that has the address has it on the interface of the
  // pool and is that node or can be reached.
  ghost predicate ClearableFor(pools: seq<Pool>, nodes: seq<Node>, e: Entry, failing: set<string>) {
    OnHost(pools, e) ==> Clearable(nodes, e.nodeName, HostSlot(pools, e), failing)
  }

  lemma AllocatePlacesIff(pools: seq<Pool>, nodes: seq<Node>, e: Entry, failing: set<string>, cloudFails: set<string>)
    requires NodesSane(nodes)
    requires var error := AllocateAddress(pools, nodes, e, failing, cloudFails).error;
             error.None? || error == Some(CloudFailure)
    ensures Placed(pools, AllocateAddress(pools, nodes, e, failing, cloudFails).nodes, e) <==>
              ClearableFor(pools, nodes, e, failing)
  {
    if OnHost(pools, e) {
      EnsureFailsIff(nodes, |nodes|, e.nodeName, HostSlot(pools, e), failing);
      EnsureExclusiveIff(nodes, e.nodeName, HostSlot(pools, e), failing);
    }
  }

  lemma ClearableSame(a: seq<Node>, b: seq<Node>, target: string, s: Slot, failing: set<string>)
    requires |a| == |b| && forall i :: 0 <= i < |a| ==> SameAt(a[i], b[i], s.address)
    ensures Clearable(a, target, s, failing) <==> Clearable(b, target, s, failing)
  {
    forall i | 0 <= i < |a|
      ensures a[i].name == b[i].name && a[i].ready == b[i].ready
      ensures forall x: Slot :: x.address == s.address ==> (Touches(a[i], x) <==> Touches(b[i], x))
    {
      assert SameAt(a[i], b[i], s.address);
    }
    assert forall i, x: Slot :: x.address == s.address ==> (HasReady(a, i, x) <==> HasReady(b, i, x));
  }

  // When ensuring an allocation ends without error, one of its addresses is on the node it names and in no other place
  // on a ready node exactly when that could be cleared before the call.
  lemma {:induction false} EnsurePlacesIff(pools: seq<Pool>, av: seq<Pool>, nodes: seq<Node>, entries: seq<Entry>,
      failing: set<string>, cloudFails: set<string>, i: nat)
    requires NodesSane(nodes) && Distinct(AddressList(entries)) && i < |entries|
    requires EnsureEntries(pools, av, nodes, entries, failing, cloudFails).error.None?
    ensures Placed(pools, EnsureEntries(pools, av, nodes, entries, failing, cloudFails).nodes, entries[i]) <==>
        ClearableFor(pools, nodes, entries[i], failing)
  {
    var n := |entries| - 1;
    var last := entries[n];
    var before := EnsureEntries(pools, av, nodes, entries[..n], failing, cloudFails).nodes;
    var e := entries[i];
    assert AddressList(entries[..n]) == AddressList(entries)[..n];
    if i < n {
      EnsurePlacesIff(pools, av, nodes, entries[..n], failing, cloudFails, i);
      assert AddressList(entries)[i] != AddressList(entries)[n];
      if OnHost(pools, e) {
        AllocateSame(pools, before, last, failing, cloudFails);
        ExclusiveSame(before, AllocateAddress(pools, before, last, failing, cloudFails).nodes, last.address, e.nodeName,
            HostSlot(pools, e));
      }
    } else {
      LastNotBefore(entries, n);
      var x := if OnHost(pools, e) then HostSlot(pools, e) else Slot("", e.address);
      EnsureEntriesKeeps(pools, av, nodes, entries[..n], failing, cloudFails, e.nodeName, x);
      ClearableSame(nodes, before, e.nodeName, x, failing);
      AllocatePlacesIff(pools, before, e, failing, cloudFails);
    }
  }

  // The node of the entry has an operator, and no other ready node that cannot be reached has the address.
  ghost predicate Reachable(pools: seq<Pool>, nodes: seq<Node>, e: Entry, failing: set<string>) {
    OnHost(pools, e) ==>
      && (exists i :: 0 <= i < |nodes| && nodes[i].name == e.nodeName)
      && (forall i, x :: HasReady(nodes, i, x) && x.address == e.address ==>
           nodes[i].name == e.nodeName || nodes[i].name !in failing)
  }

  // When declared addresses are only ever where their pools put them, that is enough.
  lemma ReachableClears(pools: seq<Pool>, nodes: seq<Node>, namespace: string, e: Entry, failing: set<string>)
    requires DisjointPools(pools) && AllAtHome(pools, nodes) && Backed(pools, namespace, e)
    ensures Reachable(pools, nodes, e, failing) <==> ClearableFor(pools, nodes, e, failing)
  {
    if OnHost(pools, e) {
      EntryAtHome(pools, namespace, e);
      assert e.address in DeclaredAddresses(pools);
      forall i, x | HasReady(nodes, i, x) && x.address == e.address
        ensures x == HostSlot(pools, e)
      {
        OneHome(pools, x, HostSlot(pools, e));
      }
    }
  }

  lemma LastNotBefore(entries: seq<Entry>, n: nat)
    requires |entries| == n + 1 && Distinct(AddressList(entries))
    ensures entries[n].address !in AddressesOf(entries[..n])
  {
    forall e | e in entries[..n]
      ensures e.address != entries[n].address
    {
      var j :| 0 <= j < n && entries[j] == e;
      assert AddressList(entries)[j] != AddressList(entries)[n];
    }
  }

  // ---- good entries ----

  lemma {:induction false} KeepDistinct(s: seq<string>, wanted: set<string>)
    requires Distinct(s)
    ensures Distinct(Keep(s, wanted)) && forall x :: x in Keep(s, wanted) ==> x in s
  {
    if s != [] {
      var n := |s| - 1;
      assert s == s[..n] + [s[n]];
      KeepDistinct(s[..n], wanted);
      var rest := Keep(s[..n], wanted);
      assert forall j :: 0 <= j < |rest| ==> rest[j] in s[..n];
    }
  }

  lemma PoolByNameIs(declared: seq<Pool>, d: Pool)
    requires DisjointPools(declared) && d in declared
    ensures PoolByName(declared, d.name) == Some(d)
  {
  }

  lemma AssignedInterface(declared: seq<Pool>, d: Pool, pool: Pool, e: Entry, pick: Option<string>)
    requires DisjointPools(declared) && d in declared && pool == d.(addresses := pool.addresses) && e.pool == d.name
    requires e.networkInterface == "" || RightInterface(declared, e)
    ensures RightInterface(declared, AssignNode(pool, e, pick))
  {
    PoolByNameIs(declared, d);
  }

  lemma {:induction false} BuildRightInterfaces(declared: seq<Pool>, av: seq<Pool>, free: set<string>,
      namespace: string, current: seq<Entry>, ips: seq<string>, picks: seq<Option<string>>)
    requires |picks| == |ips|
    requires DisjointPools(declared) && Offers(declared, av, free) && AllBacked(declared, namespace, current)
    requires forall e :: e in current ==> RightInterface(declared, e)
    ensures forall e :: e in Build(declared, av, namespace, current, ips, picks).entries ==> RightInterface(declared, e)
  {
    if ips != [] {
      var n := |ips| - 1;
      BuildRightInterfaces(declared, av, free, namespace, current, ips[..n], picks[..n]);
      BuildMeaning(declared, av, free, namespace, current, ips[..n], picks[..n]);
      var b := Build(declared, av, namespace, current, ips[..n], picks[..n]);
      var ip := ips[n];
      match FindEntry(current, ip) {
        case Some(ready) =>
          assert Backed(declared, namespace, ready);
          var d :| d in declared && Serves(d, namespace, ip) && d.name == ready.pool;
          PoolOfAddressIs(declared, namespace, ip, d);
          AssignedInterface(declared, d, d, ready, picks[n]);
        case None =>
          UseTakesOne(declared, b.av, free - Obtained(declared, free, namespace, current, ips[..n]), namespace, ip);
          var u := UseIP(b.av, namespace, ip);
          if u.pool.Some? {
            var d := PoolOfAddress(declared, namespace, ip).value;
            AssignedInterface(declared, d, u.pool.value, Entry(ip, "", "", "", d.name), picks[n]);
          }
      }
    }
  }

  lemma BuildGoodEntries(declared: seq<Pool>, av: seq<Pool>, free: set<string>, namespace: string, current: seq<Entry>,
      ips: seq<string>, picks: seq<Option<string>>)
    requires |picks| == |ips| && Distinct(ips)
    requires DisjointPools(declared) && Offers(declared, av, free) && AllBacked(declared, namespace, current)
    requires forall e :: e in current ==> RightInterface(declared, e)
    ensures GoodEntries(declared, Build(declared, av, namespace, current, ips, picks).entries)
  {
    BuildOrder(declared, av, free, namespace, current, ips, picks);
    KeepDistinct(ips, Granted(declared, free, namespace, current, ips));
    BuildRightInterfaces(declared, av, free, namespace, current, ips, picks);
  }

  // ---- the steps ----

  // An object that is not in success state can be stored anywhere.
  lemma StoreKeepsPlacement(s: State, key: Key, o: IPAllocation, av: seq<Pool>)
    requires PlacementHolds(s) && GoodEntries(s.pools, o.entries) && o.status != Success
    ensures PlacementHolds(s.(avail := av, allocs := s.allocs[key := o]))
  {
  }

  lemma CreateKeepsPlacement(s: State, key: Key, svc: Service, picks: seq<Option<string>>, createOk: bool)
    requires LedgerAgrees(s) && PlacementHolds(s) && Distinct(svc.externalIPs)
    ensures PlacementHolds(CreateForService(s, key, svc, picks, createOk))
  {
    if ExpectedType(svc) == Persistent && key !in s.allocs && |picks| == |svc.externalIPs| && createOk {
      BuildGoodEntries(s.pools, s.avail, FreeOf(s), key.namespace, [], svc.externalIPs, picks);
      var c := Create(s.pools, s.avail, key.namespace, svc.externalIPs, picks, createOk);
      StoreKeepsPlacement(s, key, c.stored.value, c.av);
    }
  }

  // Nodes may change anywhere but at the addresses of allocations.
  lemma SweepKeepsPlacement(s: State, nodes: seq<Node>)
    requires PlacementHolds(s) && NodesSane(nodes) && AllAtHome(s.pools, nodes)
    requires forall k, e :: k in s.allocs && s.allocs[k].status == Success && e in s.allocs[k].entries ==>
        Placed(s.pools, nodes, e)
    ensures PlacementHolds(s.(nodes := nodes))
  {
  }

  lemma HandleDeletedKeepsPlacement(s: State, i: nat, svc: Option<Service>, picks: seq<Option<string>>, createOk: bool,
      failing: set<string>)
    requires LedgerAgrees(s) && PlacementHolds(s) && (svc.Some? ==> Distinct(svc.value.externalIPs))
    ensures PlacementHolds(HandleDeleted(s, i, svc, picks, createOk, failing))
  {
    if i < |s.deleted| {
      var d := s.deleted[i];
      var entries := d.allocation.entries;
      var nodes := RemoveEntries(s.nodes, entries, failing);
      RemoveEntriesSane(s.nodes, entries, failing);
      RemoveEntriesHome(s.pools, s.nodes, entries, failing);
      forall k, e | k in s.allocs && s.allocs[k].status == Success && e in s.allocs[k].entries
        ensures Placed(s.pools, nodes, e)
      {
        assert Owns(s.allocs, k, e.address);
        assert !Awaits(s.deleted, i, e.address);
        assert Placed(s.pools, s.nodes, e);
        if OnHost(s.pools, e) {
          RemoveEntriesKeeps(s.nodes, entries, failing, e.nodeName, HostSlot(s.pools, e));
        }
      }
      SweepKeepsPlacement(s, nodes);
      var released := HandleDeleted(s, i, None, picks, createOk, failing);
      HandleDeletedKeepsLedger(s, i, None, picks, createOk, failing);
      assert PlacementHolds(released);
      if svc.Some? && svc.value.isLoadBalancer {
        CreateKeepsPlacement(released, d.key, svc.value, picks, createOk);
      }
    }
  }

  lemma {:induction false} RemoveEntriesSane(nodes: seq<Node>, entries: seq<Entry>, failing: set<string>)
    requires NodesSane(nodes)
    ensures NodesSane(RemoveEntries(nodes, entries, failing))
  {
    if entries != [] {
      var n := |entries| - 1;
      var e := entries[n];
      RemoveEntriesSane(nodes, entries[..n], failing);
      var before := RemoveEntries(nodes, entries[..n], failing);
      RemoveFromNodeMeaning(before, e.nodeName, Slot(e.networkInterface, e.address), failing);
      if e.networkInterface != "" {
        SaneSame(before, RemoveEntries(nodes, entries, failing), e.address);
      }
    }
  }

  lemma {:induction false} DeallocateRemovedSane(pools: seq<Pool>, nodes: seq<Node>, entries: seq<Entry>,
      failing: set<string>)
    requires NodesSane(nodes)
    ensures NodesSane(DeallocateRemoved(pools, nodes, entries, failing))
  {
    if entries != [] {
      var n := |entries| - 1;
      var e := entries[n];
      DeallocateRemovedSane(pools, nodes, entries[..n], failing);
      var before := DeallocateRemoved(pools, nodes, entries[..n], failing);
      if OnHost(pools, e) {
        RemoveFromNodeMeaning(before, e.nodeName, HostSlot(pools, e), failing);
        SaneSame(before, DeallocateRemoved(pools, nodes, entries, failing), e.address);
      }
    }
  }

  lemma PatchKeepsPlacement(s: State, key: Key, ips: seq<string>, picks: seq<Option<string>>, updateOk: bool)
    requires LedgerAgrees(s) && PlacementHolds(s) && Distinct(ips) && key in s.allocs && |picks| == |ips|
    requires Patch(s.pools, s.avail, key.namespace, s.allocs[key], ips, picks, updateOk).error.None?
    ensures var p := Patch(s.pools, s.avail, key.namespace, s.allocs[key], ips, picks, updateOk);
            PlacementHolds(s.(avail := p.av, allocs := s.allocs[key := p.stored]))
  {
    var current := s.allocs[key];
    var p := Patch(s.pools, s.avail, key.namespace, current, ips, picks, updateOk);
    if p.written {
      BuildGoodEntries(s.pools, s.avail, FreeOf(s), key.namespace, current.entries, ips, picks);
      StoreKeepsPlacement(s, key, p.stored, p.av);
    } else {
      assert s.allocs[key := p.stored] == s.allocs;
    }
  }

  // The addresses a patch removes belong to no allocation afterwards.
  lemma RemovedIsNobodys(s: State, key: Key, ips: seq<string>, picks: seq<Option<string>>, updateOk: bool, k: Key,
      e: Entry)
    requires LedgerAgrees(s) && key in s.allocs && |picks| == |ips|
    requires var p := Patch(s.pools, s.avail, key.namespace, s.allocs[key], ips, picks, updateOk);
             p.error.None? && k in s.allocs && e in (if k == key then p.stored else s.allocs[k]).entries
    ensures e.address !in AddressesOf(Patch(s.pools, s.avail, key.namespace, s.allocs[key], ips, picks,
        updateOk).removed)
  {
    PatchMeaning(s.pools, s.avail, FreeOf(s), key.namespace, s.allocs[key], ips, picks, updateOk);
    if k != key {
      assert Owns(s.allocs, k, e.address);
      assert !Owns(s.allocs, key, e.address);
    }
  }

  lemma DeallocateKeepsPlacement(s: State, removed: seq<Entry>, failing: set<string>)
    requires PlacementHolds(s)
    requires forall k, e :: k in s.allocs && e in s.allocs[k].entries ==> e.address !in AddressesOf(removed)
    ensures PlacementHolds(s.(nodes := DeallocateRemoved(s.pools, s.nodes, removed, failing)))
  {
    var nodes := DeallocateRemoved(s.pools, s.nodes, removed, failing);
    DeallocateRemovedSane(s.pools, s.nodes, removed, failing);
    DeallocateRemovedHome(s.pools, s.nodes, removed, failing);
    forall k, e | k in s.allocs && s.allocs[k].status == Success && e in s.allocs[k].entries
      ensures Placed(s.pools, nodes, e)
    {
      assert Placed(s.pools, s.nodes, e);
      if OnHost(s.pools, e) {
        DeallocateRemovedKeeps(s.pools, s.nodes, removed, failing, e.nodeName, HostSlot(s.pools, e));
      }
    }
    SweepKeepsPlacement(s, nodes);
  }

  lemma ReconcileKeepsPlacement(s: State, key: Key, svc: Service, picks: seq<Option<string>>, updateOk: bool,
      failing: set<string>)
    requires LedgerAgrees(s) && PlacementHolds(s) && Distinct(svc.externalIPs)
    requires key in s.allocs && |picks| == |svc.externalIPs| ==>
               Patch(s.pools, s.avail, key.namespace, s.allocs[key], svc.externalIPs, picks, updateOk).error.None?
    ensures PlacementHolds(Reconcile(s, key, svc, picks, updateOk, failing))
  {
    if key in s.allocs && svc.isLoadBalancer && ExpectedType(svc) == Persistent && |picks| == |svc.externalIPs| {
      var p := Patch(s.pools, s.avail, key.namespace, s.allocs[key], svc.externalIPs, picks, updateOk);
      PatchKeepsPlacement(s, key, svc.externalIPs, picks, updateOk);
      PatchKeepsLedger(s, key, svc.externalIPs, picks, updateOk);
      var t := s.(avail := p.av, allocs := s.allocs[key := p.stored]);
      forall k, e | k in t.allocs && e in t.allocs[k].entries
        ensures e.address !in AddressesOf(p.removed)
      {
        RemovedIsNobodys(s, key, svc.externalIPs, picks, updateOk, k, e);
      }
      DeallocateKeepsPlacement(t, p.removed, failing);
    }
  }

  lemma EnsureKeepsOthers(s: State, key: Key, failing: set<string>, cloudFails: set<string>, k: Key, e: Entry)
    requires OneHolder(s) && PlacementHolds(s) && key in s.allocs
    requires k in s.allocs && k != key && s.allocs[k].status == Success && e in s.allocs[k].entries
    ensures Placed(s.pools, EnsureEntries(s.pools, s.avail, s.nodes, s.allocs[key].entries, failing, cloudFails).nodes,
        e)
  {
    assert Owns(s.allocs, k, e.address);
    assert !Owns(s.allocs, key, e.address);
    assert Placed(s.pools, s.nodes, e);
    if OnHost(s.pools, e) {
      EnsureEntriesKeeps(s.pools, s.avail, s.nodes, s.allocs[key].entries, failing, cloudFails, e.nodeName,
          HostSlot(s.pools, e));
    }
  }

  lemma EnsurePlacesOwn(s: State, key: Key, failing: set<string>, cloudFails: set<string>, e: Entry)
    requires LedgerAgrees(s) && PlacementHolds(s) && key in s.allocs && e in s.allocs[key].entries
        && Reachable(s.pools, s.nodes, e, failing)
    requires EnsureEntries(s.pools, s.avail, s.nodes, s.allocs[key].entries, failing, cloudFails).error.None?
    ensures Placed(s.pools, EnsureEntries(s.pools, s.avail, s.nodes, s.allocs[key].entries, failing, cloudFails).nodes,
        e)
  {
    var entries := s.allocs[key].entries;
    var i :| 0 <= i < |entries| && entries[i] == e;
    ReachableClears(s.pools, s.nodes, key.namespace, e, failing);
    EnsurePlacesIff(s.pools, s.avail, s.nodes, entries, failing, cloudFails, i);
  }

  // Ensuring the allocation would meet no error.
  ghost predicate EndsWell(s: State, key: Key, failing: set<string>, cloudFails: set<string>) {
    key in s.allocs && EnsureEntries(s.pools, s.avail, s.nodes, s.allocs[key].entries, failing, cloudFails).error.None?
  }

  lemma EnsureKeepsPlacement(s: State, key: Key, svc: Option<Service>, failing: set<string>, cloudFails: set<string>)
    requires LedgerAgrees(s) && PlacementHolds(s)
    requires EndsWell(s, key, failing, cloudFails) ==>
               forall e :: e in s.allocs[key].entries ==> Reachable(s.pools, s.nodes, e, failing)
    ensures PlacementHolds(Ensure(s, key, svc, failing, cloudFails))
  {
    if key in s.allocs && svc.Some? && svc.value.isLoadBalancer {
      var t := Ensure(s, key, svc, failing, cloudFails);
      EnsureEntriesSane(s.pools, s.avail, s.nodes, s.allocs[key].entries, failing, cloudFails);
      EnsureEntriesHome(s.pools, s.avail, s.nodes, key.namespace, s.allocs[key].entries, failing, cloudFails);
      forall k, e | k in t.allocs && t.allocs[k].status == Success && e in t.allocs[k].entries
        ensures Placed(t.pools, t.nodes, e)
      {
        if k == key {
          EnsurePlacesOwn(s, key, failing, cloudFails, e);
        } else {
          EnsureKeepsOthers(s, key, failing, cloudFails, k, e);
        }
      }
    }
  }

  lemma {:induction false} EnsureEntriesSane(pools: seq<Pool>, av: seq<Pool>, nodes: seq<Node>, entries: seq<Entry>,
      failing: set<string>, cloudFails: set<string>)
    requires NodesSane(nodes)
    ensures NodesSane(EnsureEntries(pools, av, nodes, entries, failing, cloudFails).nodes)
  {
    if entries != [] {
      var n := |entries| - 1;
      EnsureEntriesSane(pools, av, nodes, entries[..n], failing, cloudFails);
      var r := EnsureEntries(pools, av, nodes, entries[..n], failing, cloudFails);
      AllocateSame(pools, r.nodes, entries[n], failing, cloudFails);
      SaneSame(r.nodes, AllocateAddress(pools, r.nodes, entries[n], failing, cloudFails).nodes, entries[n].address);
    }
  }

  lemma {:induction false} MoveRightInterfaces(pools: seq<Pool>, entries: seq<Entry>, picks: seq<Option<string>>)
    requires |picks| == |entries| && forall e :: e in entries ==> RightInterface(pools, e)
    ensures forall e :: e in Move(pools, entries, picks).entries ==> RightInterface(pools, e)
  {
    if entries != [] {
      var n := |entries| - 1;
      MoveRightInterfaces(pools, entries[..n], picks[..n]);
      assert entries[n] in entries;
    }
  }

  lemma ChangeNodeKeepsPlacement(s: State, key: Key, picks: seq<Option<string>>)
    requires PlacementHolds(s)
    ensures PlacementHolds(ChangeNode(s, key, picks))
  {
    if key in s.allocs && s.allocs[key].status == NodeError && |picks| == |s.allocs[key].entries| {
      var o := s.allocs[key];
      var m := Move(s.pools, o.entries, picks);
      MoveRightInterfaces(s.pools, o.entries, picks);
      MoveKeepsAddresses(s.pools, o.entries, picks);
      assert AddressList(m.entries) == AddressList(o.entries);
      StoreKeepsPlacement(s, key, o.(entries := m.entries, status := StatusAfter(m.error)), s.avail);
    }
  }

  // The nodes that are still ready keep what they had, and nothing is placed on the node that is not.
  lemma NodesGoneKeepPlacement(s: State, node: string, t: State)
    requires PlacementHolds(s) && NodesSane(t.nodes)
    requires t == s.(nodes := t.nodes, allocs := LostAllocs(s.allocs, node))
    requires forall i :: 0 <= i < |t.nodes| && t.nodes[i].ready ==> t.nodes[i] in s.nodes
    requires forall i :: 0 <= i < |s.nodes| && s.nodes[i].name != node ==> s.nodes[i] in t.nodes
    ensures PlacementHolds(t)
  {
    forall i, x | HasReady(t.nodes, i, x)
      ensures exists j :: HasReady(s.nodes, j, x) && s.nodes[j] == t.nodes[i]
    {
      var j :| 0 <= j < |s.nodes| && s.nodes[j] == t.nodes[i];
      assert HasReady(s.nodes, j, x);
    }
    forall k, e | k in t.allocs && t.allocs[k].status == Success && e in t.allocs[k].entries
      ensures Placed(t.pools, t.nodes, e)
    {
      assert !Names(s.allocs[k].entries, node);
      assert e.nodeName != node;
      assert Placed(s.pools, s.nodes, e);
    }
  }

  lemma NodeLostKeepsPlacement(s: State, node: string)
    requires PlacementHolds(s)
    ensures PlacementHolds(NodeLost(s, node))
  {
    var i := IndexOfNode(s.nodes, node);
    var t := NodeLost(s, node);
    forall j | 0 <= j < |s.nodes| && j != i
      ensures t.nodes[j] == s.nodes[j]
    {
    }
    assert NodesSane(t.nodes) by {
      assert i < |s.nodes| ==> OnOwnLinks(s.nodes[i]);
    }
    NodesGoneKeepPlacement(s, node, t);
  }

  lemma WithoutOne<T>(s: seq<T>, i: nat)
    requires i < |s|
    ensures var rest := s[..i] + s[i + 1..];
            && (forall j :: 0 <= j < |s| && j != i ==> s[j] in rest)
            && (forall j :: 0 <= j < |rest| ==> rest[j] == s[if j < i then j else j + 1])
  {
    var rest := s[..i] + s[i + 1..];
    forall j | 0 <= j < |s| && j != i
      ensures s[j] in rest
    {
      assert rest[if j < i then j else j - 1] == s[j];
    }
  }

  lemma FewerNodesSane(nodes: seq<Node>, i: nat)
    requires NodesSane(nodes) && i < |nodes|
    ensures NodesSane(nodes[..i] + nodes[i + 1..])
  {
    WithoutOne(nodes, i);
    var rest := nodes[..i] + nodes[i + 1..];
    forall j | 0 <= j < |rest|
      ensures OnOwnLinks(rest[j]) && "" !in rest[j].operator.links
    {
      var m := if j < i then j else j + 1;
      assert rest[j] == nodes[m] && OnOwnLinks(nodes[m]);
    }
    forall j, k | 0 <= j < k < |rest|
      ensures rest[j].name != rest[k].name
    {
      var m, n := if j < i then j else j + 1, if k < i then k else k + 1;
      assert rest[j] == nodes[m] && rest[k] == nodes[n] && m < n;
    }
  }

  lemma NodesWithout(nodes: seq<Node>, i: nat, node: string)
    requires i < |nodes| && nodes[i].name == node
    ensures var rest := nodes[..i] + nodes[i + 1..];
            && (forall n :: n in rest ==> n in nodes)
            && (forall n :: n in nodes && n.name != node ==> n in rest)
  {
    WithoutOne(nodes, i);
    var rest := nodes[..i] + nodes[i + 1..];
    forall n | n in rest
      ensures n in nodes
    {
      var j :| 0 <= j < |rest| && rest[j] == n;
      assert n == nodes[if j < i then j else j + 1];
    }
  }

  lemma NodeDeletedKeepsPlacement(s: State, node: string)
    requires PlacementHolds(s)
    ensures PlacementHolds(NodeDeleted(s, node))
  {
    var i := IndexOfNode(s.nodes, node);
    if i < |s.nodes| {
      NodesWithout(s.nodes, i, node);
      FewerNodesSane(s.nodes, i);
    }
    NodesGoneKeepPlacement(s, node, NodeDeleted(s, node));
  }

  // The state an operator may come back in: on its own interfaces, and nobody else put a declared address there.
  ghost predicate CleanArrival(pools: seq<Pool>, operator: Operator) {
    && "" !in operator.links
    && (forall x :: x in operator.table ==> x.networkInterface in operator.links)
    && (forall x :: x in operator.table && !Labelled(operator.table, x) ==> x.address !in DeclaredAddresses(pools))
  }

  // Two entries with one address are one entry.
  lemma SameEntry(s: State, k1: Key, e1: Entry, k2: Key, e2: Entry)
    requires OneHolder(s) && PlacementHolds(s)
    requires k1 in s.allocs && e1 in s.allocs[k1].entries && k2 in s.allocs && e2 in s.allocs[k2].entries
    requires e1.address == e2.address
    ensures e1 == e2
  {
    assert Owns(s.allocs, k1, e1.address) && Owns(s.allocs, k2, e1.address);
    var entries := s.allocs[k1].entries;
    var i :| 0 <= i < |entries| && entries[i] == e1;
    var j :| 0 <= j < |entries| && entries[j] == e2;
    assert AddressList(entries)[i] == AddressList(entries)[j];
  }

  // newOperatorNode succeeds exactly when every address to be kept on the node is on an interface the node has.
  lemma ReadyCleansIff(s: State, node: string, operator: Operator, order: seq<Key>)
    requires Elements(order) == s.allocs.Keys
    ensures NodeReady(s, node, operator, order).error.None?
            <==> forall k, e :: k in s.allocs && e in s.allocs[k].entries && e.nodeName == node ==>
              e.networkInterface in operator.links
  {
    var i := IndexOfNode(s.nodes, node);
    var n := Node(node, true, operator);
    var nodes := if i < |s.nodes| then s.nodes[i := n] else s.nodes + [n];
    assert IndexOfNode(nodes, node) == i by {
      IndexOfNodeIs(nodes, i, node);
    }
    assert forall k :: k in order <==> k in s.allocs by {
      assert forall k :: k in order <==> k in Elements(order);
    }
    var keep := KeepList(s.allocs, order, node);
    RestoreMeaning(operator.(table := Swept(operator, keep, {})), keep, {});
    forall k, e | k in s.allocs && e in s.allocs[k].entries && e.nodeName == node
      ensures Slot(e.networkInterface, e.address) in keep
    {
      assert k in order && Slot(e.networkInterface, e.address) in KeepOf(s.allocs[k].entries, node);
    }
  }

  lemma IndexOfNodeIs(nodes: seq<Node>, i: nat, name: string)
    requires i < |nodes| && nodes[i].name == name
    requires forall j :: 0 <= j < i ==> nodes[j].name != name
    ensures IndexOfNode(nodes, name) == i
  {
  }

  ghost predicate NamedThere(s: State, k: Key, e: Entry, node: string) {
    k in s.allocs && e in s.allocs[k].entries && e.nodeName == node
  }

  // What becomes of the list of nodes: one ready node in the place of the old one, or at the end.
  lemma ReadyArrives(s: State, node: string, operator: Operator, order: seq<Key>)
    requires Elements(order) == s.allocs.Keys
    ensures forall k :: k in order <==> k in s.allocs
    ensures var i := IndexOfNode(s.nodes, node);
            var r := NodeReady(s, node, operator, order);
            var cleaned := Cleanup(operator, KeepList(s.allocs, order, node), {});
            && InPlace(s.nodes, r.nodes, i, Node(node, true, cleaned.operator))
            && (r.error.None? <==> cleaned.ok)
  {
    var i := IndexOfNode(s.nodes, node);
    var n := Node(node, true, operator);
    var nodes := if i < |s.nodes| then s.nodes[i := n] else s.nodes + [n];
    IndexOfNodeIs(nodes, i, node);
    assert forall k :: k in order <==> k in s.allocs by {
      assert forall k :: k in order <==> k in Elements(order);
    }
  }

  ghost predicate InPlace(nodes: seq<Node>, after: seq<Node>, i: nat, n: Node) {
    && i <= |nodes| && |after| == (if i < |nodes| then |nodes| else |nodes| + 1)
    && (forall j :: 0 <= j < |nodes| && j != i ==> after[j] == nodes[j])
    && after[i] == n
    && (i < |nodes| ==> nodes[i].name == n.name)
    && (i == |nodes| ==> forall j :: 0 <= j < i ==> nodes[j].name != n.name)
  }

  // Whether its cleanup succeeds or not, the kernel of a node that arrives clean has, of the declared addresses, only
  // those to keep, and all on interfaces the node has.
  lemma CleanedTable(pools: seq<Pool>, operator: Operator, keep: seq<Slot>, x: Slot)
    requires CleanArrival(pools, operator) && x in Cleanup(operator, keep, {}).operator.table
    ensures x.networkInterface in operator.links && (x.address in DeclaredAddresses(pools) ==> x in keep)
  {
    CleanupMeaning(operator, keep, {});
    RestoreReaches(operator.(table := Swept(operator, keep, {})), keep, x);
  }

  // After its cleanup a node has, of the declared addresses, exactly those of the entries that name it.
  lemma ReadyNode(s: State, node: string, operator: Operator, order: seq<Key>)
    requires Elements(order) == s.allocs.Keys && CleanArrival(s.pools, operator)
    requires NodeReady(s, node, operator, order).error.None?
    ensures var i := IndexOfNode(s.nodes, node);
            var after := NodeReady(s, node, operator, order).nodes;
            && InPlace(s.nodes, after, i, after[i])
            && after[i].name == node && after[i].ready && OnOwnLinks(after[i])
            && (forall k, e :: NamedThere(s, k, e, node) ==> Holds(after[i], Slot(e.networkInterface, e.address)))
            && (forall x :: Touches(after[i], x) && x.address in DeclaredAddresses(s.pools) ==>
                  exists k, e :: NamedThere(s, k, e, node) && x == Slot(e.networkInterface, e.address))
  {
    ReadyArrives(s, node, operator, order);
    var keep := KeepList(s.allocs, order, node);
    CleanupMeaning(operator, keep, {});
    KeepListIs(s, order, node);
    var n := Node(node, true, Cleanup(operator, keep, {}).operator);
    forall x | x in n.operator.table
      ensures x.networkInterface in operator.links && (x.address in DeclaredAddresses(s.pools) ==> x in keep)
    {
      CleanedTable(s.pools, operator, keep, x);
    }
  }

  lemma KeepListIs(s: State, order: seq<Key>, node: string)
    requires forall k :: k in order <==> k in s.allocs
    ensures forall x :: x in KeepList(s.allocs, order, node) <==>
        exists k, e :: NamedThere(s, k, e, node) && x == Slot(e.networkInterface, e.address)
  {
    forall k, e | NamedThere(s, k, e, node)
      ensures Slot(e.networkInterface, e.address) in KeepList(s.allocs, order, node)
    {
      assert k in order && Slot(e.networkInterface, e.address) in KeepOf(s.allocs[k].entries, node);
    }
    forall x | x in KeepList(s.allocs, order, node)
      ensures exists k, e :: NamedThere(s, k, e, node) && x == Slot(e.networkInterface, e.address)
    {
      var k :| k in order && x in KeepOf(s.allocs[k].entries, node);
      var e :| e in s.allocs[k].entries && e.nodeName == node && x == Slot(e.networkInterface, e.address);
      assert NamedThere(s, k, e, node);
    }
  }

  ghost predicate SuccessOnHost(s: State, k: Key, e: Entry) {
    k in s.allocs && s.allocs[k].status == Success && e in s.allocs[k].entries && OnHost(s.pools, e)
  }

  // The slot is at home, and if a success allocation has its address, it is the slot of an entry that names the node.
  ghost predicate SlotFits(s: State, node: string, x: Slot) {
    && (x.address in DeclaredAddresses(s.pools) ==> AtHome(s.pools, x))
    && (forall k, e :: SuccessOnHost(s, k, e) && e.address == x.address ==>
         e.nodeName == node && x == HostSlot(s.pools, e))
  }

  // A ready node that may stand among the others: all it has fits, and it has what success allocations place there.
  ghost predicate NodeFits(s: State, n: Node) {
    && OnOwnLinks(n) && "" !in n.operator.links
    && (forall x :: Touches(n, x) ==> SlotFits(s, n.name, x))
    && (forall k, e :: SuccessOnHost(s, k, e) && e.nodeName == n.name ==> Holds(n, HostSlot(s.pools, e)))
  }

  lemma FittingArrival(s: State, after: seq<Node>, i: nat, n: Node)
    requires PlacementHolds(s) && InPlace(s.nodes, after, i, n) && n.ready && NodeFits(s, n)
    ensures PlacementHolds(s.(nodes := after))
  {
    forall j, x | HasReady(after, j, x) && j != i
      ensures HasReady(s.nodes, j, x)
    {
    }
    assert NodesSane(after);
    assert AllAtHome(s.pools, after);
    forall k, e | k in s.allocs && s.allocs[k].status == Success && e in s.allocs[k].entries
      ensures Placed(s.pools, after, e)
    {
      assert Placed(s.pools, s.nodes, e);
      if OnHost(s.pools, e) {
        assert SuccessOnHost(s, k, e);
        ArrivalKeepsExclusive(s, after, i, n, k, e);
      }
    }
  }

  lemma ArrivalKeepsExclusive(s: State, after: seq<Node>, i: nat, n: Node, k: Key, e: Entry)
    requires InPlace(s.nodes, after, i, n) && n.ready && NodeFits(s, n)
    requires SuccessOnHost(s, k, e) && Exclusive(s.nodes, e.nodeName, HostSlot(s.pools, e))
    ensures Exclusive(after, e.nodeName, HostSlot(s.pools, e))
  {
    var x := HostSlot(s.pools, e);
    if e.nodeName != n.name {
      var j :| 0 <= j < |s.nodes| && s.nodes[j].name == e.nodeName && s.nodes[j].ready && Holds(s.nodes[j], x);
      assert after[j] == s.nodes[j];
    }
    forall j, y | HasReady(after, j, y) && y.address == x.address
      ensures after[j].name == e.nodeName && y == x
    {
      if j == i {
        assert SlotFits(s, n.name, y);
      } else {
        assert HasReady(s.nodes, j, y);
      }
    }
  }

  lemma ArrivalMustFit(s: State, after: seq<Node>, i: nat, n: Node)
    requires InPlace(s.nodes, after, i, n) && n.ready && PlacementHolds(s.(nodes := after))
    ensures NodeFits(s, n)
  {
    assert OnOwnLinks(after[i]) && "" !in after[i].operator.links;
    forall x | Touches(n, x)
      ensures SlotFits(s, n.name, x)
    {
      assert HasReady(after, i, x);
      forall k, e | SuccessOnHost(s, k, e) && e.address == x.address
        ensures e.nodeName == n.name && x == HostSlot(s.pools, e)
      {
        assert Placed(s.pools, after, e);
      }
    }
    forall k, e | SuccessOnHost(s, k, e) && e.nodeName == n.name
      ensures Holds(n, HostSlot(s.pools, e))
    {
      assert Placed(s.pools, after, e);
      var j :| 0 <= j < |after| && after[j].name == e.nodeName && after[j].ready
          && Holds(after[j], HostSlot(s.pools, e));
      assert OneOperatorPerNode(after) && after[i].name == after[j].name;
      assert i == j;
    }
  }

  // What an entry that names the node asks to keep there fits, when the node has the interface.
  lemma NamedSlotFits(s: State, node: string, k: Key, e: Entry)
    requires LedgerAgrees(s) && PlacementHolds(s) && NamedThere(s, k, e, node) && e.networkInterface != ""
    ensures SlotFits(s, node, Slot(e.networkInterface, e.address))
    ensures OnHost(s.pools, e) && HostSlot(s.pools, e) == Slot(e.networkInterface, e.address)
  {
    assert Backed(s.pools, k.namespace, e);
    var d :| d in s.pools && Serves(d, k.namespace, e.address) && d.name == e.pool;
    PoolByNameIs(s.pools, d);
    assert RightInterface(s.pools, e);
    EntryAtHome(s.pools, k.namespace, e);
    forall k2, e2 | SuccessOnHost(s, k2, e2) && e2.address == e.address
      ensures e2 == e
    {
      SameEntry(s, k, e, k2, e2);
    }
  }

  // Whatever the cleanup did, the kernel of the node only has what fits.
  lemma TableFits(s: State, node: string, operator: Operator, order: seq<Key>, x: Slot)
    requires LedgerAgrees(s) && PlacementHolds(s) && CleanArrival(s.pools, operator)
    requires forall k :: k in order <==> k in s.allocs
    requires x in Cleanup(operator, KeepList(s.allocs, order, node), {}).operator.table
    ensures SlotFits(s, node, x) && x.networkInterface in operator.links
  {
    var keep := KeepList(s.allocs, order, node);
    CleanedTable(s.pools, operator, keep, x);
    KeepListIs(s, order, node);
    if x.address in DeclaredAddresses(s.pools) {
      var k, e :| NamedThere(s, k, e, node) && x == Slot(e.networkInterface, e.address);
      NamedSlotFits(s, node, k, e);
    } else {
      forall k, e | SuccessOnHost(s, k, e)
        ensures e.address != x.address
      {
        assert Backed(s.pools, k.namespace, e);
      }
    }
  }

  // When the cleanup of a node fails its operator still has the list it came with. It may stay when all of that list
  // fits, and what success allocations place on the node is listed and was there or is put back before the failure.
  ghost predicate ListedFits(s: State, node: string, operator: Operator, order: seq<Key>)
    requires forall k :: k in order ==> k in s.allocs
  {
    && (forall x :: x in operator.listed ==> x.networkInterface in operator.links && SlotFits(s, node, x))
    && (forall k, e :: SuccessOnHost(s, k, e) && e.nodeName == node ==>
          var x := HostSlot(s.pools, e);
          && x in operator.listed
          && (x in operator.table || BeforeFailure(operator.links, KeepList(s.allocs, order, node), x)))
  }

  lemma SuccessfulCleanupFits(s: State, node: string, operator: Operator, order: seq<Key>)
    requires LedgerAgrees(s) && PlacementHolds(s) && CleanArrival(s.pools, operator)
    requires forall k :: k in order <==> k in s.allocs
    requires Cleanup(operator, KeepList(s.allocs, order, node), {}).ok
    ensures NodeFits(s, Node(node, true, Cleanup(operator, KeepList(s.allocs, order, node), {}).operator))
  {
    var keep := KeepList(s.allocs, order, node);
    var n := Node(node, true, Cleanup(operator, keep, {}).operator);
    CleanupMeaning(operator, keep, {});
    KeepListIs(s, order, node);
    forall x | Touches(n, x)
      ensures SlotFits(s, node, x) && x.networkInterface in operator.links
    {
      TableFits(s, node, operator, order, x);
    }
    forall k, e | SuccessOnHost(s, k, e) && e.nodeName == node
      ensures Holds(n, HostSlot(s.pools, e))
    {
      assert NamedThere(s, k, e, node) && RightInterface(s.pools, e);
      assert HostSlot(s.pools, e) in keep;
    }
  }

  // A slot that an entry naming the node asks to keep is in the kernel's table after the cleanup when it was there, or
  // is put back before the failure.
  lemma KeptInTable(s: State, node: string, operator: Operator, order: seq<Key>, k: Key, e: Entry)
    requires PlacementHolds(s) && forall k :: k in order <==> k in s.allocs
    requires SuccessOnHost(s, k, e) && e.nodeName == node
    ensures var x := HostSlot(s.pools, e);
            var keep := KeepList(s.allocs, order, node);
            x in Cleanup(operator, keep, {}).operator.table <==>
                x in operator.table || BeforeFailure(operator.links, keep, x)
  {
    var x := HostSlot(s.pools, e);
    var keep := KeepList(s.allocs, order, node);
    KeepListIs(s, order, node);
    assert NamedThere(s, k, e, node) && RightInterface(s.pools, e);
    assert x in keep;
    RestoreReaches(operator.(table := Swept(operator, keep, {})), keep, x);
  }

  lemma FailedCleanupFitsIff(s: State, node: string, operator: Operator, order: seq<Key>)
    requires LedgerAgrees(s) && PlacementHolds(s) && CleanArrival(s.pools, operator)
    requires forall k :: k in order <==> k in s.allocs
    requires !Cleanup(operator, KeepList(s.allocs, order, node), {}).ok
    ensures NodeFits(s, Node(node, true, Cleanup(operator, KeepList(s.allocs, order, node), {}).operator))
            <==> ListedFits(s, node, operator, order)
  {
    var n := Node(node, true, Cleanup(operator, KeepList(s.allocs, order, node), {}).operator);
    CleanupMeaning(operator, KeepList(s.allocs, order, node), {});
    forall k, e | SuccessOnHost(s, k, e) && e.nodeName == node
      ensures var x := HostSlot(s.pools, e);
              x in n.operator.table
              <==> x in operator.table || BeforeFailure(operator.links, KeepList(s.allocs, order, node), x)
    {
      KeptInTable(s, node, operator, order, k, e);
    }
    forall x | x in n.operator.table
      ensures SlotFits(s, node, x) && x.networkInterface in operator.links
    {
      TableFits(s, node, operator, order, x);
    }
    FitsByList(s, n);
  }

  // When all the kernel of a node has fits, only the list matters.
  lemma FitsByList(s: State, n: Node)
    requires "" !in n.operator.links
    requires forall x :: x in n.operator.table ==> SlotFits(s, n.name, x) && x.networkInterface in n.operator.links
    ensures NodeFits(s, n) <==>
              && (forall x :: x in n.operator.listed ==>
                   x.networkInterface in n.operator.links && SlotFits(s, n.name, x))
              && (forall k, e :: SuccessOnHost(s, k, e) && e.nodeName == n.name ==>
                    HostSlot(s.pools, e) in n.operator.listed && HostSlot(s.pools, e) in n.operator.table)
  {
    assert forall x :: x in n.operator.listed ==> Touches(n, x);
  }

  // A node that comes back clean keeps the placement exactly when its cleanup succeeds, or the list its operator came
  // with fits.
  lemma ReadyKeepsPlacementIff(s: State, node: string, operator: Operator, order: seq<Key>)
    requires LedgerAgrees(s) && PlacementHolds(s)
    requires Elements(order) == s.allocs.Keys && CleanArrival(s.pools, operator)
    ensures forall k :: k in order ==> k in s.allocs
    ensures PlacementHolds(s.(nodes := NodeReady(s, node, operator, order).nodes))
            <==> NodeReady(s, node, operator, order).error.None? || ListedFits(s, node, operator, order)
  {
    ReadyArrives(s, node, operator, order);
    var after := NodeReady(s, node, operator, order).nodes;
    var i := IndexOfNode(s.nodes, node);
    var n := after[i];
    if NodeReady(s, node, operator, order).error.None? {
      SuccessfulCleanupFits(s, node, operator, order);
    } else {
      FailedCleanupFitsIff(s, node, operator, order);
    }
    if NodeFits(s, n) {
      FittingArrival(s, after, i, n);
    }
    if PlacementHolds(s.(nodes := after)) {
      ArrivalMustFit(s, after, i, n);
    }
  }

  lemma LossKeepsPlacement(s: State, node: string, lost: set<Slot>)
    requires PlacementHolds(s)
    ensures PlacementHolds(LossAndRepair(s, node, lost))
  {
    var t := LossAndRepair(s, node, lost);
    forall i | 0 <= i < |s.nodes|
      ensures t.nodes[i].name == s.nodes[i].name && t.nodes[i].ready == s.nodes[i].ready && OnOwnLinks(t.nodes[i])
      ensures forall x :: Holds(s.nodes[i], x) ==> Holds(t.nodes[i], x)
      ensures forall x :: Touches(t.nodes[i], x) ==> Touches(s.nodes[i], x)
      ensures t.nodes[i].operator.links == s.nodes[i].operator.links
    {
      assert OnOwnLinks(s.nodes[i]);
      assert forall x :: Holds(s.nodes[i], x) ==> Touches(s.nodes[i], x);
    }
    assert forall i, x :: HasReady(t.nodes, i, x) ==> HasReady(s.nodes, i, x);
    forall k, e | k in s.allocs && s.allocs[k].status == Success && e in s.allocs[k].entries
      ensures Placed(s.pools, t.nodes, e)
    {
      assert Placed(s.pools, s.nodes, e);
    }
    SweepKeepsPlacement(s, t.nodes);
  }

  // ---- whole runs ----

  // What the placement of one event rests on: distinct requests; when ensuring ends without error, that the nodes named
  // have operators and no unreachable ready node has the addresses; and a new node that arrives clean.
  ghost predicate Admissible(s: State, e: Event) {
    match e
    case ServiceCreated(_, svc, _, _) => Distinct(svc.externalIPs)
    case Reconciled(_, svc, _, _, _) => Distinct(svc.externalIPs)
    case DeletionHandled(_, svc, _, _, _) => svc.Some? ==> Distinct(svc.value.externalIPs)
    case IPsEnsured(key, _, failing, cloudFails) =>
      EndsWell(s, key, failing, cloudFails) ==>
        forall x :: x in s.allocs[key].entries ==> Reachable(s.pools, s.nodes, x, failing)
    case OperatorReady(node, operator, order) =>
      && Elements(order) == s.allocs.Keys && CleanArrival(s.pools, operator)
      && (NodeReady(s, node, operator, order).error.None?
          || ((forall k :: k in order ==> k in s.allocs) && ListedFits(s, node, operator, order)))
    case _ => true
  }

  ghost predicate AdmissibleRun(s: State, events: seq<Event>) {
    forall i :: 0 <= i < |events| ==>
        UpdateSucceeds(Run(s, events[..i]), events[i]) && Admissible(Run(s, events[..i]), events[i])
  }

  lemma StepKeepsPlacement(s: State, e: Event)
    requires LedgerAgrees(s) && PlacementHolds(s) && UpdateSucceeds(s, e) && Admissible(s, e)
    ensures PlacementHolds(Apply(s, e))
  {
    match e
    case ServiceCreated(key, svc, picks, createOk) => CreateKeepsPlacement(s, key, svc, picks, createOk);
    case Reconciled(key, svc, picks, updateOk, failing) => ReconcileKeepsPlacement(s, key, svc, picks, updateOk,
        failing);
    case AllocationRemoved(key) =>
    case DeletionHandled(i, svc, picks, createOk, failing) => HandleDeletedKeepsPlacement(s, i, svc, picks, createOk,
        failing);
    case IPsEnsured(key, svc, failing, cloudFails) => EnsureKeepsPlacement(s, key, svc, failing, cloudFails);
    case NodeChanged(key, picks) => ChangeNodeKeepsPlacement(s, key, picks);
    case OperatorLost(node) => NodeLostKeepsPlacement(s, node);
    case OperatorDeleted(node) => NodeDeletedKeepsPlacement(s, node);
    case OperatorReady(node, operator, order) => ReadyKeepsPlacementIff(s, node, operator, order);
    case AddressesLost(node, lost) => LossKeepsPlacement(s, node, lost);
  }

  // After every admissible run each address of a success allocation is held by the node it names and by no other
  // ready node.
  lemma {:induction false} RunKeepsPlacement(s: State, events: seq<Event>)
    requires LedgerAgrees(s) && PlacementHolds(s) && AdmissibleRun(s, events)
    ensures LedgerAgrees(Run(s, events)) && PlacementHolds(Run(s, events))
  {
    if events != [] {
      var n := |events| - 1;
      assert forall i :: 0 <= i < n ==> events[..n][..i] == events[..i];
      RunKeepsPlacement(s, events[..n]);
      StepKeepsLedger(Run(s, events[..n]), events[n]);
      StepKeepsPlacement(Run(s, events[..n]), events[n]);
    }
  }
}

// What each handler leaves behind, component by component: objects, deletions, nodes and offers.
module Effects {
  import opened Types
  import opened Availability
  import opened Allocations
  import opened OperatorNode
  import opened Speaker
  import opened Cluster
  import opened Ledger
  import opened LedgerResults
  import opened Placement
  import opened Relocation

  // ---- addresses taken off nodes ----

  // A slot on the node with this name.
  datatype Spot = Spot(node: string, slot: Slot)

  // The node has lost what it had in these spots, in its table and in its list, and nothing else.
  ghost predicate NodeWithout(a: Node, b: Node, off: set<Spot>) {
    && a.name == b.name && a.ready == b.ready && a.operator.links == b.operator.links
    && (forall x :: x in b.operator.table <==> x in a.operator.table && Spot(a.name, x) !in off)
    && (forall x :: x in b.operator.table ==> b.operator.table[x] == a.operator.table[x])
    && (forall x :: x in b.operator.listed <==> x in a.operator.listed && Spot(a.name, x) !in off)
  }

  ghost predicate TakenOff(a: seq<Node>, b: seq<Node>, off: set<Spot>) {
    |a| == |b| && forall i :: 0 <= i < |a| ==> NodeWithout(a[i], b[i], off)
  }

  lemma TakenOffNone(a: seq<Node>)
    ensures TakenOff(a, a, {})
  {
  }

  lemma TakenOffTwice(a: seq<Node>, b: seq<Node>, c: seq<Node>, first: set<Spot>, second: set<Spot>)
    requires TakenOff(a, b, first) && TakenOff(b, c, second)
    ensures TakenOff(a, c, first + second)
  {
    forall i | 0 <= i < |a|
      ensures NodeWithout(a[i], c[i], first + second)
    {
      assert NodeWithout(a[i], b[i], first) && NodeWithout(b[i], c[i], second);
    }
  }

  lemma RemovalTakesOff(nodes: seq<Node>, target: string, x: Slot, failing: set<string>)
    requires NodesSane(nodes)
    ensures TakenOff(nodes, RemoveFromNode(nodes, target, x, failing).nodes, if target in failing then {}
        else {Spot(target, x)})
  {
    var after := RemoveFromNode(nodes, target, x, failing).nodes;
    var off := if target in failing then {} else {Spot(target, x)};
    RemoveFromNodeMeaning(nodes, target, x, failing);
    forall i | 0 <= i < |nodes|
      ensures NodeWithout(nodes[i], after[i], off)
    {
      assert OnOwnLinks(nodes[i]);
      assert SameBut(nodes[i], after[i], x.address);
      assert Touches(nodes[i], x) ==> x.networkInterface in nodes[i].operator.links;
    }
  }

  // The spots of entries as they stand, where the node can be reached.
  ghost function SpotsOf(entries: seq<Entry>, failing: set<string>): set<Spot> {
    set e | e in entries && e.networkInterface != "" && e.nodeName !in failing ::
      Spot(e.nodeName, Slot(e.networkInterface, e.address))
  }

  // The spots of entries by the interface their pools name now.
  ghost function HostSpots(pools: seq<Pool>, entries: set<Entry>, failing: set<string>): set<Spot> {
    set e | e in entries && OnHost(pools, e) && e.nodeName !in failing :: Spot(e.nodeName, HostSlot(pools, e))
  }

  lemma {:induction false} RemoveEntriesTakesOff(nodes: seq<Node>, entries: seq<Entry>, failing: set<string>)
    requires NodesSane(nodes)
    ensures TakenOff(nodes, RemoveEntries(nodes, entries, failing), SpotsOf(entries, failing))
  {
    if entries == [] {
      assert SpotsOf(entries, failing) == {};
    } else {
      var n := |entries| - 1;
      var e := entries[n];
      var x := Slot(e.networkInterface, e.address);
      assert entries == entries[..n] + [e];
      RemoveEntriesTakesOff(nodes, entries[..n], failing);
      RemoveEntriesSane(nodes, entries[..n], failing);
      var before := RemoveEntries(nodes, entries[..n], failing);
      var off := if e.networkInterface != "" && e.nodeName !in failing then {Spot(e.nodeName, x)} else {};
      RemovalTakesOff(before, e.nodeName, x, failing);
      assert SpotsOf(entries, failing) == SpotsOf(entries[..n], failing) + off;
      TakenOffNone(before);
      TakenOffTwice(nodes, before, RemoveEntries(nodes, entries, failing), SpotsOf(entries[..n], failing), off);
    }
  }

  lemma {:induction false} DeallocateRemovedTakesOff(pools: seq<Pool>, nodes: seq<Node>, entries: seq<Entry>,
      failing: set<string>)
    requires NodesSane(nodes)
    ensures TakenOff(nodes, DeallocateRemoved(pools, nodes, entries, failing),
        HostSpots(pools, Elements(entries), failing))
  {
    if entries == [] {
      assert HostSpots(pools, Elements(entries), failing) == {};
    } else {
      var n := |entries| - 1;
      var e := entries[n];
      assert entries == entries[..n] + [e];
      DeallocateRemovedTakesOff(pools, nodes, entries[..n], failing);
      DeallocateRemovedSane(pools, nodes, entries[..n], failing);
      var before := DeallocateRemoved(pools, nodes, entries[..n], failing);
      var first := HostSpots(pools, Elements(entries[..n]), failing);
      var off := if OnHost(pools, e) && e.nodeName !in failing then {Spot(e.nodeName, HostSlot(pools, e))} else {};
      if OnHost(pools, e) {
        RemovalTakesOff(before, e.nodeName, HostSlot(pools, e), failing);
      }
      assert HostSpots(pools, Elements(entries), failing) == first + off;
      TakenOffNone(before);
      TakenOffTwice(nodes, before, DeallocateRemoved(pools, nodes, entries, failing), first, off);
    }
  }

  // The answer of one deallocation: a missing pool, an operator that is not there, not reachable or without the
  // interface, a refusal of the cloud, in this order.
  lemma DeallocationFailsIff(pools: seq<Pool>, nodes: seq<Node>, e: Entry, failing: set<string>,
      cloudFails: set<string>)
    requires NodesSane(nodes)
    ensures var r := DeallocateAddress(pools, nodes, e, failing, cloudFails);
            && TakenOff(nodes, r.nodes, HostSpots(pools, {e}, failing))
            && r.error ==
                 if PoolByName(pools, e.pool).None? then Some(PoolNotFound)
                 else if OnHost(pools, e)
                     && (e.nodeName in failing || !Serving(nodes, e.nodeName, HostSlot(pools, e))) then
                   Some(OperatorUnreachable)
                 else if CloudRefuses(pools, e, cloudFails) then Some(CloudFailure)
                 else None
  {
    if OnHost(pools, e) {
      RemoveFromNodeMeaning(nodes, e.nodeName, HostSlot(pools, e), failing);
      RemovalTakesOff(nodes, e.nodeName, HostSlot(pools, e), failing);
      assert HostSpots(pools, {e}, failing)
          == if e.nodeName in failing then {} else {Spot(e.nodeName, HostSlot(pools, e))};
    } else {
      assert HostSpots(pools, {e}, failing) == {};
      TakenOffNone(nodes);
    }
  }

  // An operator on this node has the interface.
  ghost predicate Serving(nodes: seq<Node>, name: string, x: Slot) {
    exists i :: 0 <= i < |nodes| && nodes[i].name == name && x.networkInterface in nodes[i].operator.links
  }

  // ---- the status an object is stored with ----

  // The pool needs a node for the entry: on a host, unless it has a node and the interface of the pool; on the cloud,
  // unless it has a node.
  ghost predicate Wants(d: Pool, e: Entry) {
    if d.HasHostNetwork()
        then !(e.nodeName != "" && e.networkInterface != "" && e.networkInterface == d.InterfaceName())
    else d.hetzner && e.nodeName == ""
  }

  function Unplaced(ip: string, pool: string): Entry {
    Entry(ip, "", "", "", pool)
  }

  // What is wrong with one request: the address is neither held nor to be had, or a node is needed and none was found.
  ghost function RequestFault(declared: seq<Pool>, free: set<string>, namespace: string, current: seq<Entry>,
      ip: string,
      pick: Option<string>): Option<Error> {
    var d := PoolOfAddress(declared, namespace, ip);
    var held := FindEntry(current, ip);
    if held.None? && !(ip in free && d.Some?) then Some(NoIPAvailable)
    else if d.Some? && pick.None? && Wants(d.value, if held.Some? then held.value else Unplaced(ip, d.value.name)) then
      Some(NoNode)
    else None
  }

  ghost function LastFault(declared: seq<Pool>, free: set<string>, namespace: string, current: seq<Entry>,
      ips: seq<string>, picks: seq<Option<string>>): Option<Error>
    requires |picks| == |ips|
  {
    if ips == [] then None
    else
      var n := |ips| - 1;
      var fault := RequestFault(declared, free, namespace, current, ips[n], picks[n]);
      if fault.Some? then fault else LastFault(declared, free, namespace, current, ips[..n], picks[..n])
  }

  lemma {:induction false} NoFaultWhenNone(declared: seq<Pool>, free: set<string>, namespace: string,
      current: seq<Entry>,
      ips: seq<string>, picks: seq<Option<string>>)
    requires |picks| == |ips|
    ensures LastFault(declared, free, namespace, current, ips, picks).None?
            <==> forall i :: 0 <= i < |ips| ==> RequestFault(declared, free, namespace, current, ips[i], picks[i]).None?
  {
    if ips != [] {
      var n := |ips| - 1;
      NoFaultWhenNone(declared, free, namespace, current, ips[..n], picks[..n]);
    }
  }

  lemma StepFault(declared: seq<Pool>, b: Built, free: set<string>, namespace: string, current: seq<Entry>, ip: string,
      pick: Option<string>)
    requires DisjointPools(declared) && Offers(declared, b.av, free) && AllBacked(declared, namespace, current)
    ensures var fault := RequestFault(declared, free, namespace, current, ip, pick);
            BuildStep(declared, namespace, current, b, ip, pick).error == if fault.Some? then fault else b.error
  {
    match FindEntry(current, ip) {
      case Some(ready) =>
        assert Backed(declared, namespace, ready);
        var d :| d in declared && Serves(d, namespace, ip) && d.name == ready.pool;
        PoolOfAddressIs(declared, namespace, ip, d);
      case None =>
        UseTakesOne(declared, b.av, free, namespace, ip);
    }
  }

  // With distinct requests a build reports the fault of the last request that has one.
  lemma {:induction false} BuildErrorIs(declared: seq<Pool>, av: seq<Pool>, free: set<string>, namespace: string,
      current: seq<Entry>, ips: seq<string>, picks: seq<Option<string>>)
    requires |picks| == |ips| && Distinct(ips)
    requires DisjointPools(declared) && Offers(declared, av, free) && AllBacked(declared, namespace, current)
    ensures Build(declared, av, namespace, current, ips, picks).error
            == LastFault(declared, free, namespace, current, ips, picks)
  {
    if ips != [] {
      var n := |ips| - 1;
      BuildErrorIs(declared, av, free, namespace, current, ips[..n], picks[..n]);
      BuildMeaning(declared, av, free, namespace, current, ips[..n], picks[..n]);
      var b := Build(declared, av, namespace, current, ips[..n], picks[..n]);
      var left := free - Obtained(declared, free, namespace, current, ips[..n]);
      StepFault(declared, b, left, namespace, current, ips[n], picks[n]);
      assert ips[n] !in ips[..n];
      assert ips[n] in left <==> ips[n] in free;
    }
  }

  // What a node choice does to an entry: on a host it ends on the interface of the pool, on the node it had when that
  // was right already, else on the one picked, if any; on the cloud it gets a node only when it has none.
  lemma AssignedEntry(d: Pool, e: Entry, pick: Option<string>)
    ensures var after := AssignNode(d, e, pick);
            && after.address == e.address && after.pool == e.pool
            && after.cloudProvider == (if d.hetzner then "hetzner" else "")
            && after.networkInterface == (if d.HasHostNetwork() then d.InterfaceName() else e.networkInterface)
            && after.nodeName == (if Wants(d, e) && pick.Some? then pick.value else e.nodeName)
            && (PickFails(d, e, pick) <==> Wants(d, e) && pick.None?)
  {
  }

  // What a patch reports beside the object: the last fault of the build, a failed update, and the entries given up, in
  // the order they had, of an update that did not fail.
  lemma PatchReports(declared: seq<Pool>, av: seq<Pool>, free: set<string>, namespace: string, o: IPAllocation,
      ips: seq<string>, picks: seq<Option<string>>, updateOk: bool)
    requires |picks| == |ips| && Distinct(ips)
    requires DisjointPools(declared) && Offers(declared, av, free) && AllBacked(declared, namespace, o.entries)
    ensures var p := Patch(declared, av, namespace, o, ips, picks, updateOk);
            && p.allocError == LastFault(declared, free, namespace, o.entries, ips, picks)
            && (p.error.None? || p.error == Some(WriteFailed))
            && (p.error.None? ==>
                  AddressList(p.removed)
                      == Keep(AddressList(o.entries), AddressesOf(o.entries) - AddressesOf(p.stored.entries)))
            && (p.error.Some? ==> p.removed == [])
  {
    BuildErrorIs(declared, av, free, namespace, o.entries, ips, picks);
    var kept := Build(declared, av, namespace, o.entries, ips, picks).entries;
    DroppedInOrder(o.entries, kept, AddressesOf(o.entries));
  }

  lemma {:induction false} DroppedInOrder(entries: seq<Entry>, kept: seq<Entry>, all: set<string>)
    requires AddressesOf(entries) <= all
    ensures AddressList(Dropped(entries, kept)) == Keep(AddressList(entries), all - AddressesOf(kept))
  {
    if entries != [] {
      var n := |entries| - 1;
      AddressesLast(entries, n);
      DroppedInOrder(entries[..n], kept, all);
      assert AddressList(entries)[..n] == AddressList(entries[..n]);
      var rest := Dropped(entries[..n], kept);
      assert AddressList(rest + [entries[n]]) == AddressList(rest) + [entries[n].address];
    }
  }

  // ---- an object that is created ----

  // A new object is pending when every request was granted and every node needed was found, and in error with the last
  // fault otherwise; it lists what was granted, in request order.
  ghost predicate NewObject(declared: seq<Pool>, free: set<string>, namespace: string, ips: seq<string>,
      picks: seq<Option<string>>, o: IPAllocation)
    requires |picks| == |ips|
  {
    var fault := LastFault(declared, free, namespace, [], ips, picks);
    && o.kind == Persistent
    && (fault.None? <==> o.status == Pending)
    && (fault.Some? ==> o.status == Status.Error(fault.value))
    && AddressList(o.entries) == Keep(ips, Granted(declared, free, namespace, [], ips))
  }

  lemma CreateStores(declared: seq<Pool>, av: seq<Pool>, free: set<string>, namespace: string, ips: seq<string>,
      picks: seq<Option<string>>)
    requires |picks| == |ips| && Distinct(ips) && DisjointPools(declared) && Offers(declared, av, free)
    ensures var c := Create(declared, av, namespace, ips, picks, true);
            c.stored.Some? && NewObject(declared, free, namespace, ips, picks, c.stored.value)
  {
    BuildErrorIs(declared, av, free, namespace, [], ips, picks);
    BuildOrder(declared, av, free, namespace, [], ips, picks);
  }

  lemma CreatedEffect(s: State, key: Key, svc: Service, picks: seq<Option<string>>)
    requires LedgerAgrees(s) && key !in s.allocs && svc.isLoadBalancer && svc.externalIPs != []
    requires Distinct(svc.externalIPs) && |picks| == |svc.externalIPs|
    ensures var t := Apply(s, ServiceCreated(key, svc, picks, true));
            && t == s.(avail := t.avail, allocs := t.allocs) && t.allocs.Keys == s.allocs.Keys + {key}
            && t.allocs - {key} == s.allocs
            && NewObject(s.pools, FreeOf(s), key.namespace, svc.externalIPs, picks, t.allocs[key])
  {
    CreateStores(s.pools, s.avail, FreeOf(s), key.namespace, svc.externalIPs, picks);
  }

  // Nothing is stored for a service that is no load balancer or asks for no address, when the object is there already,
  // or when it cannot be written; the offers of all pools are then as before.
  lemma NotCreatedEffect(s: State, key: Key, svc: Service, picks: seq<Option<string>>, createOk: bool)
    requires LedgerAgrees(s) && |picks| == |svc.externalIPs|
    requires !svc.isLoadBalancer || svc.externalIPs == [] || key in s.allocs || !createOk
    ensures var t := Apply(s, ServiceCreated(key, svc, picks, createOk));
            && t == s.(avail := t.avail)
            && (!svc.isLoadBalancer || svc.externalIPs == [] || key in s.allocs ==> t == s)
            && forall name :: FreeIn(t.avail, name) == FreeIn(s.avail, name)
  {
    CreateRollsBack(s.pools, s.avail, FreeOf(s), key.namespace, svc.externalIPs, picks);
  }

  // ---- an object that is deleted ----

  // The object leaves the store, and its deletion waits to be handled after all others.
  ghost predicate ObjectGone(s: State, t: State, key: Key)
    requires key in s.allocs
  {
    && t.allocs == s.allocs - {key} && t.deleted == s.deleted + [Deleted(key, s.allocs[key])]
    && t.pools == s.pools && t.avail == s.avail && t.nodes == s.nodes
  }

  lemma RemovedEffect(s: State, key: Key)
    ensures var t := Apply(s, AllocationRemoved(key));
            if key in s.allocs then ObjectGone(s, t, key) else t == s
  {
  }

  // ---- a deletion that is handled ----

  // Exactly this deletion is done with. Its addresses are off the nodes they were on, where the operator can be
  // reached, and nothing else is; unless the service asks for a new allocation the objects are as they were, and what
  // the allocation had is free again.
  lemma DeletionHandledEffect(s: State, i: nat, svc: Option<Service>, picks: seq<Option<string>>, createOk: bool,
      failing: set<string>)
    requires i < |s.deleted| && NodesSane(s.nodes)
    ensures var t := Apply(s, DeletionHandled(i, svc, picks, createOk, failing));
            var d := s.deleted[i];
            && t.pools == s.pools && t.deleted == s.deleted[..i] + s.deleted[i + 1..]
            && TakenOff(s.nodes, t.nodes, SpotsOf(d.allocation.entries, failing))
            && t.allocs - {d.key} == s.allocs - {d.key}
            && (svc.None? || !svc.value.isLoadBalancer || svc.value.externalIPs == [] || !createOk
                 || d.key in s.allocs ==>
                  t.allocs == s.allocs)
            && (LedgerAgrees(s) && (svc.None? || !svc.value.isLoadBalancer || svc.value.externalIPs == []) ==>
                  Offers(s.pools, t.avail, FreeOf(s) + AddressesOf(d.allocation.entries)))
  {
    var d := s.deleted[i];
    RemoveEntriesTakesOff(s.nodes, d.allocation.entries, failing);
    if LedgerAgrees(s) {
      assert d in s.deleted;
      ReleaseEntriesMeaning(s.pools, s.avail, FreeOf(s), d.key.namespace, d.allocation.entries);
    }
  }

  // Said of one address: its node has it no more.
  lemma DeletedAddressIsOff(s: State, i: nat, svc: Option<Service>, picks: seq<Option<string>>, createOk: bool,
      failing: set<string>, e: Entry)
    requires i < |s.deleted| && NodesSane(s.nodes) && e in s.deleted[i].allocation.entries
    requires e.networkInterface != "" && e.nodeName !in failing
    ensures OffNode(Apply(s, DeletionHandled(i, svc, picks, createOk, failing)).nodes, e.nodeName,
        Slot(e.networkInterface, e.address))
  {
    var t := Apply(s, DeletionHandled(i, svc, picks, createOk, failing));
    DeletionHandledEffect(s, i, svc, picks, createOk, failing);
    var x := Slot(e.networkInterface, e.address);
    assert Spot(e.nodeName, x) in SpotsOf(s.deleted[i].allocation.entries, failing);
    forall j | 0 <= j < |t.nodes| && t.nodes[j].name == e.nodeName
      ensures !Touches(t.nodes[j], x)
    {
      assert NodeWithout(s.nodes[j], t.nodes[j], SpotsOf(s.deleted[i].allocation.entries, failing));
    }
  }

  // When the service still asks for addresses, the new object is the one a creation would store once they are free.
  lemma RecreatedEffect(s: State, i: nat, svc: Service, picks: seq<Option<string>>, failing: set<string>)
    requires LedgerAgrees(s) && i < |s.deleted| && s.deleted[i].key !in s.allocs
    requires svc.isLoadBalancer && svc.externalIPs != [] && Distinct(svc.externalIPs) && |picks| == |svc.externalIPs|
    ensures var d := s.deleted[i];
            var t := Apply(s, DeletionHandled(i, Some(svc), picks, true, failing));
            && t.allocs.Keys == s.allocs.Keys + {d.key}
            && NewObject(s.pools, FreeOf(s)
                 + AddressesOf(d.allocation.entries), d.key.namespace, svc.externalIPs, picks,
                 t.allocs[d.key])
  {
    var d := s.deleted[i];
    assert d in s.deleted;
    ReleaseEntriesMeaning(s.pools, s.avail, FreeOf(s), d.key.namespace, d.allocation.entries);
    CreateStores(s.pools, ReleaseEntries(s.pools, s.avail, d.key.namespace, d.allocation.entries),
      FreeOf(s) + AddressesOf(d.allocation.entries), d.key.namespace, svc.externalIPs, picks);
  }

  // ---- reconciling ----

  // The service no longer wants this allocation: it is no load balancer, or its addresses are of the other kind.
  ghost predicate Unwanted(o: IPAllocation, svc: Service) {
    || !svc.isLoadBalancer
    || (o.kind == Persistent && svc.externalIPs == [])
    || (o.kind == Ephemeral && svc.externalIPs != [])
  }

  lemma UnwantedEffect(s: State, key: Key, svc: Service, picks: seq<Option<string>>, updateOk: bool,
      failing: set<string>)
    requires key in s.allocs && Unwanted(s.allocs[key], svc)
    ensures ObjectGone(s, Apply(s, Reconciled(key, svc, picks, updateOk, failing)), key)
  {
  }

  // The old entries whose address the new ones do not have.
  ghost function GivenUp(before: seq<Entry>, after: seq<Entry>): set<Entry> {
    set e | e in before && e.address !in AddressesOf(after)
  }

  // A persistent allocation that is wanted is patched: no other object changes, none is deleted, and nodes are touched
  // for a success allocation only, where exactly the addresses it gave up are taken off the interface of their pool.
  lemma ReconciledEffect(s: State, key: Key, svc: Service, picks: seq<Option<string>>, updateOk: bool,
      failing: set<string>)
    requires key in s.allocs && !Unwanted(s.allocs[key], svc) && |picks| == |svc.externalIPs| && NodesSane(s.nodes)
    ensures var t := Apply(s, Reconciled(key, svc, picks, updateOk, failing));
            && t.pools == s.pools && t.deleted == s.deleted
            && t.allocs.Keys == s.allocs.Keys && t.allocs - {key} == s.allocs - {key}
            && t.allocs[key].kind == s.allocs[key].kind
            && (s.allocs[key].status == Success ==>
                  TakenOff(s.nodes, t.nodes,
                    HostSpots(s.pools, GivenUp(s.allocs[key].entries, t.allocs[key].entries), failing)))
            && (s.allocs[key].status != Success ==> t.nodes == s.nodes)
            && (s.allocs[key].kind == Ephemeral ==> t == s)
  {
    var o := s.allocs[key];
    if o.kind == Persistent {
      GivenUpTakenOff(s.pools, s.avail, s.nodes, key.namespace, o, svc.externalIPs, picks, updateOk, failing);
    }
  }

  lemma GivenUpTakenOff(declared: seq<Pool>, av: seq<Pool>, nodes: seq<Node>, namespace: string, o: IPAllocation,
      ips: seq<string>, picks: seq<Option<string>>, updateOk: bool, failing: set<string>)
    requires |picks| == |ips| && NodesSane(nodes)
    ensures var p := Patch(declared, av, namespace, o, ips, picks, updateOk);
            TakenOff(nodes, if p.error.None? then DeallocateRemoved(declared, nodes, p.removed, failing) else nodes,
              HostSpots(declared, GivenUp(o.entries, p.stored.entries), failing))
  {
    RemovedAreGivenUp(declared, av, namespace, o, ips, picks, updateOk);
    DeallocateRemovedTakesOff(declared, nodes, Patch(declared, av, namespace, o, ips, picks, updateOk).removed,
      failing);
    TakenOffNone(nodes);
    assert HostSpots(declared, {}, failing) == {};
  }

  lemma RemovedAreGivenUp(declared: seq<Pool>, av: seq<Pool>, namespace: string, o: IPAllocation, ips: seq<string>,
      picks: seq<Option<string>>, updateOk: bool)
    requires |picks| == |ips|
    ensures var p := Patch(declared, av, namespace, o, ips, picks, updateOk);
            && (p.error.None? ==> Elements(p.removed) == GivenUp(o.entries, p.stored.entries))
            && (p.error.Some? ==> p.removed == [] && GivenUp(o.entries, p.stored.entries) == {})
  {
    var p := Patch(declared, av, namespace, o, ips, picks, updateOk);
    if p.error.None? {
      forall e | e in o.entries
        ensures e in p.removed <==> e.address !in AddressesOf(p.stored.entries)
      {
      }
    }
  }

  // The object that is stored. A failed update leaves it; otherwise it is as it was when nothing changes and nothing is
  // at fault, pending when something changed and nothing is at fault, and in error with the last fault otherwise.
  lemma PatchedEffect(s: State, key: Key, svc: Service, picks: seq<Option<string>>, updateOk: bool,
      failing: set<string>)
    requires LedgerAgrees(s) && key in s.allocs && svc.isLoadBalancer && svc.externalIPs != []
    requires Distinct(svc.externalIPs) && |picks| == |svc.externalIPs|
    ensures var o, after := s.allocs[key], Apply(s, Reconciled(key, svc, picks, updateOk, failing)).allocs;
            var fault := LastFault(s.pools, FreeOf(s), key.namespace, o.entries, svc.externalIPs, picks);
            var granted := Granted(s.pools, FreeOf(s), key.namespace, o.entries, svc.externalIPs);
            && key in after
            && (!updateOk ==> after[key] == o)
            && (updateOk ==> AddressList(after[key].entries) == Keep(svc.externalIPs, granted))
            && (updateOk && fault.None? && after[key].entries == o.entries ==> after[key] == o)
            && (updateOk && fault.None? && after[key].entries != o.entries ==> after[key].status == Pending)
            && (updateOk && fault.Some? ==> after[key].status == Status.Error(fault.value))
  {
    var o := s.allocs[key];
    BuildErrorIs(s.pools, s.avail, FreeOf(s), key.namespace, o.entries, svc.externalIPs, picks);
    BuildOrder(s.pools, s.avail, FreeOf(s), key.namespace, o.entries, svc.externalIPs, picks);
  }

  // What a reconciliation offers afterwards: what it took is gone and what it gave up is there, whether or not the
  // update succeeded.
  lemma PatchedOffers(s: State, key: Key, svc: Service, picks: seq<Option<string>>, updateOk: bool,
      failing: set<string>)
    requires LedgerAgrees(s) && key in s.allocs && svc.isLoadBalancer && svc.externalIPs != []
    requires |picks| == |svc.externalIPs|
    ensures var t := Apply(s, Reconciled(key, svc, picks, updateOk, failing));
            var entries := s.allocs[key].entries;
            var obtained := Obtained(s.pools, FreeOf(s), key.namespace, entries, svc.externalIPs);
            Offers(s.pools, t.avail, FreeOf(s) - obtained
                + (AddressesOf(entries) - Held(entries, svc.externalIPs) - obtained))
  {
    var o := s.allocs[key];
    var p := Patch(s.pools, s.avail, key.namespace, o, svc.externalIPs, picks, updateOk);
    PatchMeaning(s.pools, s.avail, FreeOf(s), key.namespace, o, svc.externalIPs, picks, updateOk);
    if p.error.None? {
      PatchKeepsLedger(s, key, svc.externalIPs, picks, updateOk);
    }
  }

  // Whatever the availability was, a success allocation has what it gave up released a second time.
  lemma ReleasedTwice(s: State, key: Key, svc: Service, picks: seq<Option<string>>, failing: set<string>)
    requires key in s.allocs && s.allocs[key].kind == Persistent && svc.isLoadBalancer && svc.externalIPs != []
    requires |picks| == |svc.externalIPs|
    ensures var o := s.allocs[key];
            var b := Build(s.pools, s.avail, key.namespace, o.entries, svc.externalIPs, picks);
            var dropped := Dropped(o.entries, b.entries);
            var once := ReleaseEntries(s.pools, b.av, key.namespace, dropped);
            Apply(s, Reconciled(key, svc, picks, true, failing)).avail
            == if o.status == Success then ReleaseEntries(s.pools, once, key.namespace, dropped) else once
  {
    ReconciledAvail(s, key, svc, picks, failing);
    PatchReleases(s.pools, s.avail, key.namespace, s.allocs[key], svc.externalIPs, picks);
  }

  lemma ReconciledAvail(s: State, key: Key, svc: Service, picks: seq<Option<string>>, failing: set<string>)
    requires key in s.allocs && s.allocs[key].kind == Persistent && svc.isLoadBalancer && svc.externalIPs != []
    requires |picks| == |svc.externalIPs|
    ensures var p := Patch(s.pools, s.avail, key.namespace, s.allocs[key], svc.externalIPs, picks, true);
            Apply(s, Reconciled(key, svc, picks, true, failing)).avail
            == if p.error.None? && s.allocs[key].status == Success
               then ReleaseEntries(s.pools, p.av, key.namespace, p.removed) else p.av
  {
  }

  lemma PatchReleases(declared: seq<Pool>, av: seq<Pool>, namespace: string, o: IPAllocation, ips: seq<string>,
      picks: seq<Option<string>>)
    requires |picks| == |ips|
    ensures var p := Patch(declared, av, namespace, o, ips, picks, true);
            var b := Build(declared, av, namespace, o.entries, ips, picks);
            && p.error.None? && p.removed == Dropped(o.entries, b.entries)
            && p.av == ReleaseEntries(declared, b.av, namespace, p.removed)
  {
  }

  // Events about an object that is not there do nothing.
  lemma NoObjectEffect(s: State, key: Key, svc: Service, picks: seq<Option<string>>, updateOk: bool,
      failing: set<string>,
      cloudFails: set<string>)
    requires key !in s.allocs
    ensures Apply(s, Reconciled(key, svc, picks, updateOk, failing)) == s
    ensures Apply(s, IPsEnsured(key, Some(svc), failing, cloudFails)) == s
    ensures Apply(s, IPsEnsured(key, None, failing, cloudFails)) == s
    ensures Apply(s, NodeChanged(key, picks)) == s
  {
  }

  // ---- moving ----

  // The first entries all name declared pools.
  ghost predicate PoolsKnown(pools: seq<Pool>, entries: seq<Entry>, n: nat)
    requires n <= |entries|
  {
    forall j :: 0 <= j < n ==> PoolByName(pools, entries[j].pool).Some?
  }

  // A node was needed for the entry, and none was found.
  ghost predicate Unpicked(pools: seq<Pool>, e: Entry, pick: Option<string>) {
    var d := PoolByName(pools, e.pool);
    d.Some? && (d.value.HasHostNetwork() || d.value.hetzner) && pick.None?
  }

  // Where the entry goes: to the node picked for it, when its pool wants one, and to the interface of its pool; its
  // address, pool and provider stay.
  ghost predicate Relocated(pools: seq<Pool>, before: Entry, after: Entry, pick: Option<string>) {
    var d := PoolByName(pools, before.pool);
    && d.Some?
    && after == before.(nodeName := after.nodeName, networkInterface := HostInterface(d.value))
    && after.nodeName == if (d.value.HasHostNetwork() || d.value.hetzner) && pick.Some? then pick.value else ""
  }

  lemma KnownLast(pools: seq<Pool>, entries: seq<Entry>, n: nat, i: nat)
    requires |entries| == n + 1 && i <= n
    ensures PoolsKnown(pools, entries, i) <==> PoolsKnown(pools, entries[..n], i)
    ensures PoolsKnown(pools, entries, n + 1) <==>
              PoolsKnown(pools, entries[..n], n) && PoolByName(pools, entries[n].pool).Some?
  {
    assert forall j :: 0 <= j < n ==> entries[..n][j] == entries[j];
  }

  lemma {:induction false} MoveStopsIff(pools: seq<Pool>, entries: seq<Entry>, picks: seq<Option<string>>)
    requires |picks| == |entries|
    ensures Move(pools, entries, picks).stopped <==> !PoolsKnown(pools, entries, |entries|)
    ensures Move(pools, entries, picks).stopped ==> Move(pools, entries, picks).error == Some(PoolNotFound)
  {
    if entries != [] {
      var n := |entries| - 1;
      MoveStopsIff(pools, entries[..n], picks[..n]);
      KnownLast(pools, entries, n, n);
    }
  }

  ghost predicate AnyUnpicked(pools: seq<Pool>, entries: seq<Entry>, picks: seq<Option<string>>)
    requires |picks| == |entries|
  {
    exists i :: 0 <= i < |entries| && Unpicked(pools, entries[i], picks[i])
  }

  lemma AnyUnpickedLast(pools: seq<Pool>, entries: seq<Entry>, picks: seq<Option<string>>, n: nat)
    requires |picks| == |entries| == n + 1
    ensures AnyUnpicked(pools, entries, picks) <==>
              AnyUnpicked(pools, entries[..n], picks[..n]) || Unpicked(pools, entries[n], picks[n])
  {
    if i :| 0 <= i < n && Unpicked(pools, entries[..n][i], picks[..n][i]) {
      assert Unpicked(pools, entries[i], picks[i]);
    }
    if i :| 0 <= i <= n && Unpicked(pools, entries[i], picks[i]) {
      assert i < n ==> Unpicked(pools, entries[..n][i], picks[..n][i]);
    }
  }

  lemma {:induction false} MoveErrorIs(pools: seq<Pool>, entries: seq<Entry>, picks: seq<Option<string>>)
    requires |picks| == |entries| && PoolsKnown(pools, entries, |entries|)
    ensures Move(pools, entries, picks).error == if AnyUnpicked(pools, entries, picks) then Some(NoNode) else None
  {
    if entries != [] {
      var n := |entries| - 1;
      KnownLast(pools, entries, n, n);
      MoveErrorIs(pools, entries[..n], picks[..n]);
      MoveStopsIff(pools, entries[..n], picks[..n]);
      AnyUnpickedLast(pools, entries, picks, n);
    }
  }

  // Every entry before the first whose pool is gone is relocated, every other one stays as it was.
  lemma {:induction false} MovedEntry(pools: seq<Pool>, entries: seq<Entry>, picks: seq<Option<string>>, i: nat)
    requires |picks| == |entries| && i < |entries|
    ensures var after := Move(pools, entries, picks).entries[i];
            if PoolsKnown(pools, entries, i + 1) then Relocated(pools, entries[i], after, picks[i])
            else after == entries[i]
  {
    var n := |entries| - 1;
    MoveStopsIff(pools, entries[..n], picks[..n]);
    KnownLast(pools, entries, n, n);
    if i < n {
      MovedEntry(pools, entries[..n], picks[..n], i);
      KnownLast(pools, entries, n, i + 1);
    }
  }

  // An allocation that is to be moved: it is pending when all its pools are declared and all nodes needed were found,
  // and in error otherwise; nothing else changes. Any other allocation stays.
  lemma NodeChangedEffect(s: State, key: Key, picks: seq<Option<string>>)
    requires key in s.allocs && |picks| == |s.allocs[key].entries|
    ensures var o, t := s.allocs[key], Apply(s, NodeChanged(key, picks));
            && (o.status != NodeError ==> t == s)
            && (o.status == NodeError ==>
                  && t == s.(allocs := t.allocs) && t.allocs.Keys == s.allocs.Keys
                       && t.allocs - {key} == s.allocs - {key}
                  && t.allocs[key].kind == o.kind && |t.allocs[key].entries| == |o.entries|
                  && (forall i :: 0 <= i < |o.entries| ==>
                        if PoolsKnown(s.pools, o.entries, i + 1)
                        then Relocated(s.pools, o.entries[i], t.allocs[key].entries[i], picks[i])
                        else t.allocs[key].entries[i] == o.entries[i])
                  && t.allocs[key].status ==
                       if !PoolsKnown(s.pools, o.entries, |o.entries|) then Status.Error(PoolNotFound)
                       else if AnyUnpicked(s.pools, o.entries, picks) then Status.Error(NoNode)
                       else Pending)
  {
    var entries := s.allocs[key].entries;
    MoveStopsIff(s.pools, entries, picks);
    if PoolsKnown(s.pools, entries, |entries|) {
      MoveErrorIs(s.pools, entries, picks);
    }
    forall i | 0 <= i < |entries|
      ensures var after := Move(s.pools, entries, picks).entries[i];
              if PoolsKnown(s.pools, entries, i + 1) then Relocated(s.pools, entries[i], after, picks[i])
              else after == entries[i]
    {
      MovedEntry(s.pools, entries, picks, i);
    }
  }

  // ---- ensuring ----

  // A service that is not there, or is no load balancer, loses its allocation.
  lemma OrphanEffect(s: State, key: Key, svc: Option<Service>, failing: set<string>, cloudFails: set<string>)
    requires key in s.allocs && (svc.None? || !svc.value.isLoadBalancer)
    ensures ObjectGone(s, Apply(s, IPsEnsured(key, svc, failing, cloudFails)), key)
  {
  }

  // How many entries are tried: each one, as long as those tried before it were without fault.
  ghost function Tried(pools: seq<Pool>, nodes: seq<Node>, entries: seq<Entry>, failing: set<string>,
      cloudFails: set<string>): (n: nat)
    ensures n <= |entries|
  {
    if entries == [] then 0
    else
      var n := |entries| - 1;
      var before := Tried(pools, nodes, entries[..n], failing, cloudFails);
      if before == n && (n == 0 || FaultOf(pools, nodes, entries[n - 1], failing, cloudFails).None?) then n + 1
          else before
  }

  lemma {:induction false} AllTriedIff(pools: seq<Pool>, nodes: seq<Node>, entries: seq<Entry>, failing: set<string>,
      cloudFails: set<string>)
    ensures FirstFault(pools, nodes, entries, failing, cloudFails).None? <==>
              && Tried(pools, nodes, entries, failing, cloudFails) == |entries|
              && (entries == [] || FaultOf(pools, nodes, entries[|entries| - 1], failing, cloudFails).None?)
  {
    if entries != [] {
      var n := |entries| - 1;
      AllTriedIff(pools, nodes, entries[..n], failing, cloudFails);
      FirstFaultLast(pools, nodes, entries, failing, cloudFails);
    }
  }

  lemma OffersSplit(pools: seq<Pool>, av: seq<Pool>, nodes: seq<Node>, entries: seq<Entry>, failing: set<string>,
      cloudFails: set<string>, n: nat)
    requires |entries| == n + 1
    ensures var r := EnsureEntries(pools, av, nodes, entries[..n], failing, cloudFails);
            EnsureEntries(pools, av, nodes, entries, failing, cloudFails).av
            == if r.error.Some? then r.av else EnsureNotAvailable(r.av, entries[n].pool, entries[n].address)
  {
  }

  // What the loop takes out of the availability: the addresses of the entries it tries.
  lemma {:induction false} EnsuredOffers(pools: seq<Pool>, av: seq<Pool>, nodes: seq<Node>, entries: seq<Entry>,
      failing: set<string>, cloudFails: set<string>)
    ensures EnsureEntries(pools, av, nodes, entries, failing, cloudFails).av
            == EnsureAll(av, entries[..Tried(pools, nodes, entries, failing, cloudFails)])
  {
    if entries != [] {
      var n := |entries| - 1;
      EnsuredOffers(pools, av, nodes, entries[..n], failing, cloudFails);
      OffersSplit(pools, av, nodes, entries, failing, cloudFails, n);
      TriedSplit(pools, av, nodes, entries, failing, cloudFails);
      var tried := Tried(pools, nodes, entries[..n], failing, cloudFails);
      assert entries[..n][..tried] == entries[..tried];
      assert entries[..n + 1] == entries;
    }
  }

  // The operator took the address, whatever the cloud answered afterwards.
  ghost predicate Taken(pools: seq<Pool>, nodes: seq<Node>, e: Entry, failing: set<string>, cloudFails: set<string>) {
    var fault := FaultOf(pools, nodes, e, failing, cloudFails);
    fault.None? || fault == Some(CloudFailure)
  }

  // Without a fault before, the last entry is tried, and so is every other one; otherwise it is not.
  lemma TriedSplit(pools: seq<Pool>, av: seq<Pool>, nodes: seq<Node>, entries: seq<Entry>, failing: set<string>,
      cloudFails: set<string>)
    requires entries != []
    ensures var n := |entries| - 1;
            var r := EnsureEntries(pools, av, nodes, entries[..n], failing, cloudFails);
            var tried := Tried(pools, nodes, entries, failing, cloudFails);
            && (r.error.None? ==> tried == n + 1 && Tried(pools, nodes, entries[..n], failing, cloudFails) == n)
            && (r.error.Some? ==> tried <= n && Tried(pools, nodes, entries[..n], failing, cloudFails) == tried)
  {
    var n := |entries| - 1;
    EnsureErrorIs(pools, av, nodes, entries[..n], failing, cloudFails);
    AllTriedIff(pools, nodes, entries[..n], failing, cloudFails);
  }

  lemma PlacedStays(pools: seq<Pool>, nodes: seq<Node>, last: Entry, e: Entry, failing: set<string>,
      cloudFails: set<string>)
    requires last.address != e.address
    ensures Placed(pools, AllocateAddress(pools, nodes, last, failing, cloudFails).nodes, e) <==>
        Placed(pools, nodes, e)
  {
    if OnHost(pools, e) {
      AllocateSame(pools, nodes, last, failing, cloudFails);
      ExclusiveSame(nodes, AllocateAddress(pools, nodes, last, failing, cloudFails).nodes, last.address, e.nodeName,
        HostSlot(pools, e));
    }
  }

  lemma Untouched(pools: seq<Pool>, av: seq<Pool>, nodes: seq<Node>, before: seq<Entry>, e: Entry, failing: set<string>,
      cloudFails: set<string>)
    requires NodesSane(nodes) && e.address !in AddressesOf(before)
    ensures var after := EnsureEntries(pools, av, nodes, before, failing, cloudFails).nodes;
            && NodesSane(after) && |after| == |nodes|
            && (forall j :: 0 <= j < |nodes| ==> SameAt(nodes[j], after[j], e.address))
            && (ClearableFor(pools, nodes, e, failing) <==> ClearableFor(pools, after, e, failing))
  {
    var after := EnsureEntries(pools, av, nodes, before, failing, cloudFails).nodes;
    EnsureEntriesKeeps(pools, av, nodes, before, failing, cloudFails, e.nodeName, Slot("", e.address));
    if OnHost(pools, e) {
      ClearableSame(nodes, after, e.nodeName, HostSlot(pools, e), failing);
    }
  }

  lemma LastPlaced(pools: seq<Pool>, av: seq<Pool>, nodes: seq<Node>, before: seq<Entry>, e: Entry,
      failing: set<string>,
      cloudFails: set<string>)
    requires NodesSane(nodes) && e.address !in AddressesOf(before) && Taken(pools, nodes, e, failing, cloudFails)
    ensures var mid := EnsureEntries(pools, av, nodes, before, failing, cloudFails).nodes;
            Placed(pools, AllocateAddress(pools, mid, e, failing, cloudFails).nodes, e) <==>
              ClearableFor(pools, nodes, e, failing)
  {
    var mid := EnsureEntries(pools, av, nodes, before, failing, cloudFails).nodes;
    Untouched(pools, av, nodes, before, e, failing, cloudFails);
    EnsureErrorIs(pools, av, nodes, before, failing, cloudFails);
    SameFault(pools, nodes, mid, e, failing, cloudFails);
    AllocateFailsIff(pools, mid, e, failing, cloudFails);
    AllocatePlacesIff(pools, mid, e, failing, cloudFails);
  }

  lemma TriedBefore(pools: seq<Pool>, av: seq<Pool>, nodes: seq<Node>, entries: seq<Entry>, failing: set<string>,
      cloudFails: set<string>, i: nat)
    requires i < Tried(pools, nodes, entries, failing, cloudFails)
    ensures if i == |entries| - 1 then EnsureEntries(pools, av, nodes, entries[..i], failing, cloudFails).error.None?
            else i < Tried(pools, nodes, entries[..|entries| - 1], failing, cloudFails)
  {
    TriedSplit(pools, av, nodes, entries, failing, cloudFails);
  }

  // Up to an entry that is tried there was no fault.
  lemma {:induction false} TriedPrefix(pools: seq<Pool>, av: seq<Pool>, nodes: seq<Node>, entries: seq<Entry>,
      failing: set<string>, cloudFails: set<string>, i: nat)
    requires i < Tried(pools, nodes, entries, failing, cloudFails)
    ensures EnsureEntries(pools, av, nodes, entries[..i], failing, cloudFails).error.None?
    decreases |entries|
  {
    TriedBefore(pools, av, nodes, entries, failing, cloudFails, i);
    if i < |entries| - 1 {
      TriedPrefix(pools, av, nodes, entries[..|entries| - 1], failing, cloudFails, i);
      assert entries[..|entries| - 1][..i] == entries[..i];
    }
  }

  // The loop is done with the entries that are tried.
  lemma {:induction false} StopsAtTried(pools: seq<Pool>, av: seq<Pool>, nodes: seq<Node>, entries: seq<Entry>,
      failing: set<string>, cloudFails: set<string>)
    ensures EnsureEntries(pools, av, nodes, entries, failing, cloudFails)
            == EnsureEntries(pools, av, nodes, entries[..Tried(pools, nodes, entries, failing, cloudFails)], failing,
                 cloudFails)
  {
    if entries != [] {
      var n := |entries| - 1;
      var tried := Tried(pools, nodes, entries, failing, cloudFails);
      TriedSplit(pools, av, nodes, entries, failing, cloudFails);
      if EnsureEntries(pools, av, nodes, entries[..n], failing, cloudFails).error.Some? {
        StopsAtTried(pools, av, nodes, entries[..n], failing, cloudFails);
        assert entries[..n][..tried] == entries[..tried];
      } else {
        assert entries[..tried] == entries;
      }
    }
  }

  lemma PrefixDistinct(entries: seq<Entry>, i: nat, m: nat)
    requires m <= i < |entries| && Distinct(AddressList(entries))
    ensures entries[i].address !in AddressesOf(entries[..m])
  {
    forall e | e in entries[..m]
      ensures e.address != entries[i].address
    {
      var j :| 0 <= j < m && entries[j] == e;
      assert AddressList(entries)[j] != AddressList(entries)[i];
    }
  }

  lemma NodesNext(pools: seq<Pool>, av: seq<Pool>, nodes: seq<Node>, entries: seq<Entry>, failing: set<string>,
      cloudFails: set<string>, m: nat)
    requires m < |entries|
    ensures var r := EnsureEntries(pools, av, nodes, entries[..m], failing, cloudFails);
            EnsureEntries(pools, av, nodes, entries[..m + 1], failing, cloudFails).nodes
            == if r.error.Some? then r.nodes else AllocateAddress(pools, r.nodes, entries[m], failing, cloudFails).nodes
  {
    assert entries[..m + 1][..m] == entries[..m];
  }

  lemma PlacedNext(pools: seq<Pool>, av: seq<Pool>, nodes: seq<Node>, entries: seq<Entry>, failing: set<string>,
      cloudFails: set<string>, i: nat, m: nat)
    requires i < m < |entries| && Distinct(AddressList(entries))
    ensures Placed(pools, EnsureEntries(pools, av, nodes, entries[..m + 1], failing, cloudFails).nodes, entries[i]) <==>
              Placed(pools, EnsureEntries(pools, av, nodes, entries[..m], failing, cloudFails).nodes, entries[i])
  {
    NodesNext(pools, av, nodes, entries, failing, cloudFails, m);
    assert AddressList(entries)[i] != AddressList(entries)[m];
    PlacedStays(pools, EnsureEntries(pools, av, nodes, entries[..m], failing, cloudFails).nodes, entries[m], entries[i],
      failing, cloudFails);
  }

  lemma {:induction false} Constant(f: nat -> bool, i: nat, m: nat)
    requires i < m && forall k :: i < k < m ==> f(k + 1) == f(k)
    ensures f(m) == f(i + 1)
  {
    if m > i + 1 {
      Constant(f, i, m - 1);
      assert f(m - 1 + 1) == f(m - 1);
    }
  }

  // The entries that come after leave an entry where it is.
  lemma PlacedFrom(pools: seq<Pool>, av: seq<Pool>, nodes: seq<Node>, entries: seq<Entry>, failing: set<string>,
      cloudFails: set<string>, i: nat)
    requires i < |entries| && Distinct(AddressList(entries))
    ensures Placed(pools, EnsureEntries(pools, av, nodes, entries, failing, cloudFails).nodes, entries[i]) <==>
              Placed(pools, EnsureEntries(pools, av, nodes, entries[..i + 1], failing, cloudFails).nodes, entries[i])
  {
    var f := (m: nat) =>
      m <= |entries|
      && Placed(pools, EnsureEntries(pools, av, nodes, entries[..m], failing, cloudFails).nodes, entries[i]);
    forall k | i < k < |entries|
      ensures f(k + 1) == f(k)
    {
      PlacedNext(pools, av, nodes, entries, failing, cloudFails, i, k);
    }
    Constant(f, i, |entries|);
    assert entries[..|entries|] == entries;
  }

  lemma EnsuredPlaced(pools: seq<Pool>, av: seq<Pool>, nodes: seq<Node>, entries: seq<Entry>, failing: set<string>,
      cloudFails: set<string>, i: nat)
    requires NodesSane(nodes) && Distinct(AddressList(entries))
    requires i < Tried(pools, nodes, entries, failing, cloudFails)
        && Taken(pools, nodes, entries[i], failing, cloudFails)
    ensures Placed(pools, EnsureEntries(pools, av, nodes, entries, failing, cloudFails).nodes, entries[i]) <==>
              ClearableFor(pools, nodes, entries[i], failing)
  {
    TriedPrefix(pools, av, nodes, entries, failing, cloudFails, i);
    PrefixDistinct(entries, i, i);
    LastPlaced(pools, av, nodes, entries[..i], entries[i], failing, cloudFails);
    NodesNext(pools, av, nodes, entries, failing, cloudFails, i);
    PlacedFrom(pools, av, nodes, entries, failing, cloudFails, i);
  }

  lemma EnsuredUntouched(pools: seq<Pool>, av: seq<Pool>, nodes: seq<Node>, entries: seq<Entry>, failing: set<string>,
      cloudFails: set<string>, i: nat)
    requires NodesSane(nodes) && Distinct(AddressList(entries))
    requires Tried(pools, nodes, entries, failing, cloudFails) <= i < |entries|
    ensures var after := EnsureEntries(pools, av, nodes, entries, failing, cloudFails).nodes;
            |after| == |nodes| && forall j :: 0 <= j < |nodes| ==> SameAt(nodes[j], after[j], entries[i].address)
  {
    var tried := Tried(pools, nodes, entries, failing, cloudFails);
    StopsAtTried(pools, av, nodes, entries, failing, cloudFails);
    PrefixDistinct(entries, i, tried);
    Untouched(pools, av, nodes, entries[..tried], entries[i], failing, cloudFails);
  }

  // What the loop does for one entry: an address that was tried and taken is in its place and in no other on a ready
  // node exactly when that could be cleared; one that was not tried is where it was.
  ghost predicate Outcome(pools: seq<Pool>, nodes: seq<Node>, after: seq<Node>, e: Entry, failing: set<string>,
      cloudFails: set<string>, tried: bool) {
    && |after| == |nodes|
    && (tried && Taken(pools, nodes, e, failing, cloudFails) ==>
          (Placed(pools, after, e) <==> ClearableFor(pools, nodes, e, failing)))
    && (!tried ==> forall j :: 0 <= j < |nodes| ==> SameAt(nodes[j], after[j], e.address))
  }

  lemma AllOutcomes(pools: seq<Pool>, av: seq<Pool>, nodes: seq<Node>, entries: seq<Entry>, failing: set<string>,
      cloudFails: set<string>)
    requires NodesSane(nodes) && Distinct(AddressList(entries))
    ensures var after := EnsureEntries(pools, av, nodes, entries, failing, cloudFails).nodes;
            var tried := Tried(pools, nodes, entries, failing, cloudFails);
            forall i :: 0 <= i < |entries| ==> Outcome(pools, nodes, after, entries[i], failing, cloudFails, i < tried)
  {
    forall i | 0 <= i < |entries|
      ensures Outcome(pools, nodes, EnsureEntries(pools, av, nodes, entries, failing, cloudFails).nodes, entries[i],
          failing, cloudFails, i < Tried(pools, nodes, entries, failing, cloudFails))
    {
      EnsureErrorIs(pools, av, nodes, entries, failing, cloudFails);
      if i >= Tried(pools, nodes, entries, failing, cloudFails) {
        EnsuredUntouched(pools, av, nodes, entries, failing, cloudFails, i);
      } else if Taken(pools, nodes, entries[i], failing, cloudFails) {
        EnsuredPlaced(pools, av, nodes, entries, failing, cloudFails, i);
      }
    }
  }

  // The event in terms of the loop.
  lemma EnsuredIs(s: State, key: Key, svc: Service, failing: set<string>, cloudFails: set<string>)
    requires key in s.allocs && svc.isLoadBalancer
    ensures var t := Apply(s, IPsEnsured(key, Some(svc), failing, cloudFails));
            var r := EnsureEntries(s.pools, s.avail, s.nodes, s.allocs[key].entries, failing, cloudFails);
            && key in t.allocs && t.avail == r.av && t.nodes == r.nodes && t.pools == s.pools && t.deleted == s.deleted
            && t.allocs == s.allocs[key := s.allocs[key].(status := t.allocs[key].status)]
  {
  }

  // An allocation of a load balancer is ensured: its entries stay and its status says how it went, as
  // Relocation.EnsuredStatusIs describes; no other object changes and none is deleted; the offers lose the addresses
  // that were tried, and the nodes change as said of each entry.
  lemma EnsuredEffect(s: State, key: Key, svc: Service, failing: set<string>, cloudFails: set<string>)
    requires key in s.allocs && svc.isLoadBalancer && NodesSane(s.nodes)
    requires Distinct(AddressList(s.allocs[key].entries))
    ensures var o, t := s.allocs[key], Apply(s, IPsEnsured(key, Some(svc), failing, cloudFails));
            var tried := Tried(s.pools, s.nodes, o.entries, failing, cloudFails);
            && t.pools == s.pools && t.deleted == s.deleted
            && t.allocs == s.allocs[key := o.(status := t.allocs[key].status)]
            && t.avail == EnsureAll(s.avail, o.entries[..tried])
            && forall i :: 0 <= i < |o.entries| ==>
                 Outcome(s.pools, s.nodes, t.nodes, o.entries[i], failing, cloudFails, i < tried)
  {
    var entries := s.allocs[key].entries;
    EnsuredIs(s, key, svc, failing, cloudFails);
    EnsuredOffers(s.pools, s.avail, s.nodes, entries, failing, cloudFails);
    AllOutcomes(s.pools, s.avail, s.nodes, entries, failing, cloudFails);
  }

  // ---- nodes that go, come and lose addresses ----

  // Exactly the allocations with an entry that names the node are to be moved; nothing else of any object changes.
  ghost predicate OnlyMarked(before: map<Key, IPAllocation>, after: map<Key, IPAllocation>, node: string) {
    && after.Keys == before.Keys
    && forall k :: k in before ==>
         && after[k].kind == before[k].kind && after[k].entries == before[k].entries
         && ((exists e :: e in before[k].entries && e.nodeName == node) ==> after[k].status == NodeError)
         && ((forall e :: e in before[k].entries ==> e.nodeName != node) ==> after[k] == before[k])
  }

  lemma MarkedOnly(allocs: map<Key, IPAllocation>, node: string)
    ensures OnlyMarked(allocs, LostAllocs(allocs, node), node)
  {
  }

  // The node is no longer ready, the others are as they were.
  lemma LostEffect(s: State, node: string)
    requires OneOperatorPerNode(s.nodes)
    ensures var t := Apply(s, OperatorLost(node));
            && t == s.(nodes := t.nodes, allocs := t.allocs)
            && OnlyMarked(s.allocs, t.allocs, node)
            && |t.nodes| == |s.nodes|
            && forall i :: 0 <= i < |s.nodes| ==>
                 t.nodes[i] == if s.nodes[i].name == node then s.nodes[i].(ready := false) else s.nodes[i]
  {
    MarkedOnly(s.allocs, node);
  }

  // One element is gone, the others are there in their order.
  ghost predicate OneGone(before: seq<Node>, after: seq<Node>, i: nat) {
    i < |before| && after == before[..i] + before[i + 1..]
  }

  // The node has no operator any more, the others are as they were and in the same order.
  lemma PodDeletedEffect(s: State, node: string)
    requires OneOperatorPerNode(s.nodes)
    ensures var t := Apply(s, OperatorDeleted(node));
            && t == s.(nodes := t.nodes, allocs := t.allocs)
            && OnlyMarked(s.allocs, t.allocs, node)
            && (forall i :: 0 <= i < |s.nodes| && s.nodes[i].name == node ==> OneGone(s.nodes, t.nodes, i))
            && ((forall i :: 0 <= i < |s.nodes| ==> s.nodes[i].name != node) ==> t.nodes == s.nodes)
  {
    MarkedOnly(s.allocs, node);
    var i := IndexOfNode(s.nodes, node);
    forall j | 0 <= j < |s.nodes| && s.nodes[j].name == node
      ensures j == i
    {
      assert i <= j;
    }
  }

  // An operator that comes touches nothing but its node.
  lemma ReadyEffect(s: State, node: string, operator: Operator, order: seq<Key>)
    requires Elements(order) == s.allocs.Keys
    ensures var t := Apply(s, OperatorReady(node, operator, order));
            var i := IndexOfNode(s.nodes, node);
            && t == s.(nodes := t.nodes) && i < |t.nodes| && InPlace(s.nodes, t.nodes, i, t.nodes[i])
            && t.nodes[i].name == node && t.nodes[i].ready && t.nodes[i].operator.links == operator.links
  {
    ReadyArrives(s, node, operator, order);
    RestoreMeaning(operator.(table := Swept(operator, KeepList(s.allocs, order, node), {})),
      KeepList(s.allocs, order, node), {});
  }

  // Addresses vanish from a node: what its operator has listed, on interfaces the node has, is there again with its
  // label, what was not lost is as it was, the rest is gone; nothing else changes.
  lemma LossEffect(s: State, node: string, lost: set<Slot>)
    requires OneOperatorPerNode(s.nodes)
    ensures var t := Apply(s, AddressesLost(node, lost));
            && t == s.(nodes := t.nodes) && |t.nodes| == |s.nodes|
            && (forall i :: 0 <= i < |s.nodes| && s.nodes[i].name != node ==> t.nodes[i] == s.nodes[i])
            && (forall i :: 0 <= i < |s.nodes| && s.nodes[i].name == node ==>
                  var a, b := s.nodes[i].operator, t.nodes[i].operator;
                  && t.nodes[i] == s.nodes[i].(operator := a.(table := b.table))
                  && (forall x :: x in b.table <==>
                        (x in a.table && x !in lost) || (x in a.listed && x.networkInterface in a.links))
                  && (forall x :: x in b.table ==>
                        b.table[x] == if x in a.table && x !in lost then a.table[x] else LinkLabel(x.networkInterface)))
  {
  }
}

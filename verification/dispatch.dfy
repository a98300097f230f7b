// When handlers run in the states that call for them, the nodes that allocations name have operators: what ensuring an
// allocation otherwise has to assume.
module Dispatch {
  import opened Types
  import opened Availability
  import opened Allocations
  import OperatorNode
  import opened Speaker
  import opened Cluster
  import opened Ledger
  import opened Placement
  import opened Relocation

  // The node has an operator.
  ghost predicate Listed(nodes: seq<Node>, name: string) {
    exists i :: 0 <= i < |nodes| && nodes[i].name == name
  }

  // An entry on a host names such a node,
  ghost predicate AtListed(pools: seq<Pool>, nodes: seq<Node>, e: Entry) {
    OnHost(pools, e) ==> Listed(nodes, e.nodeName)
  }

  // or at least no other one.
  ghost predicate NotElsewhere(pools: seq<Pool>, nodes: seq<Node>, e: Entry) {
    OnHost(pools, e) && e.nodeName != "" ==> Listed(nodes, e.nodeName)
  }

  // The entries of an object that may be stored with this status.
  ghost predicate FineEntries(pools: seq<Pool>, nodes: seq<Node>, entries: seq<Entry>, complete: bool) {
    forall e :: e in entries ==> NotElsewhere(pools, nodes, e) && (complete ==> AtListed(pools, nodes, e))
  }

  // Only an allocation that is to be moved names a node without an operator, and one that is pending or in success
  // names a node for each of its addresses on a host.
  ghost predicate HomesListed(s: State) {
    forall k :: k in s.allocs ==> FineObject(s.pools, s.nodes, s.allocs[k])
  }

  ghost predicate FineObject(pools: seq<Pool>, nodes: seq<Node>, o: IPAllocation) {
    o.status != NodeError ==> FineEntries(pools, nodes, o.entries, o.status == Pending || o.status == Success)
  }

  // Every node that was picked has an operator.
  ghost predicate PicksListed(nodes: seq<Node>, picks: seq<Option<string>>) {
    forall p :: p in picks && p.Some? ==> Listed(nodes, p.value)
  }

  // ---- what building and moving choose ----

  lemma AssignedNode(pools: seq<Pool>, nodes: seq<Node>, d: Pool, pool: Pool, e: Entry, pick: Option<string>)
    requires DisjointPools(pools) && d in pools && pool == d.(addresses := pool.addresses) && e.pool == d.name
    requires NotElsewhere(pools, nodes, e) && (pick.Some? ==> Listed(nodes, pick.value))
    ensures NotElsewhere(pools, nodes, AssignNode(pool, e, pick))
    ensures !PickFails(pool, e, pick) ==> AtListed(pools, nodes, AssignNode(pool, e, pick))
  {
    PoolByNameIs(pools, d);
  }

  // A build names nodes with operators only, when the picks and the held entries it goes on with do, and names one for
  // every address on a host when it reports no error.
  lemma {:induction false} BuildNodes(declared: seq<Pool>, av: seq<Pool>, free: set<string>, nodes: seq<Node>,
      namespace: string, current: seq<Entry>, ips: seq<string>, picks: seq<Option<string>>)
    requires |picks| == |ips| && PicksListed(nodes, picks)
    requires DisjointPools(declared) && Offers(declared, av, free) && AllBacked(declared, namespace, current)
    requires forall e :: e in current && e.address in ips ==> NotElsewhere(declared, nodes, e)
    ensures var b := Build(declared, av, namespace, current, ips, picks);
            FineEntries(declared, nodes, b.entries, b.error.None?)
  {
    if ips != [] {
      var n := |ips| - 1;
      BuildNodes(declared, av, free, nodes, namespace, current, ips[..n], picks[..n]);
      BuildMeaning(declared, av, free, namespace, current, ips[..n], picks[..n]);
      var b := Build(declared, av, namespace, current, ips[..n], picks[..n]);
      assert picks[n] in picks && ips[n] in ips;
      BuildStepNodes(declared, b, free - Obtained(declared, free, namespace, current, ips[..n]), nodes, namespace,
          current,
        ips[n], picks[n]);
    }
  }

  lemma BuildStepNodes(declared: seq<Pool>, b: Built, free: set<string>, nodes: seq<Node>, namespace: string,
      current: seq<Entry>, ip: string, pick: Option<string>)
    requires DisjointPools(declared) && Offers(declared, b.av, free) && AllBacked(declared, namespace, current)
    requires FineEntries(declared, nodes, b.entries, b.error.None?) && (pick.Some? ==> Listed(nodes, pick.value))
    requires forall e :: e in current && e.address == ip ==> NotElsewhere(declared, nodes, e)
    ensures var after := BuildStep(declared, namespace, current, b, ip, pick);
            FineEntries(declared, nodes, after.entries, after.error.None?)
  {
    match FindEntry(current, ip) {
      case Some(ready) =>
        assert Backed(declared, namespace, ready);
        var d :| d in declared && Serves(d, namespace, ip) && d.name == ready.pool;
        PoolOfAddressIs(declared, namespace, ip, d);
        AssignedNode(declared, nodes, d, d, ready, pick);
      case None =>
        UseTakesOne(declared, b.av, free, namespace, ip);
        var u := UseIP(b.av, namespace, ip);
        if u.pool.Some? {
          var d := PoolOfAddress(declared, namespace, ip).value;
          AssignedNode(declared, nodes, d, u.pool.value, Entry(ip, "", "", "", d.name), pick);
        }
    }
  }

  lemma {:induction false} MoveNodes(pools: seq<Pool>, nodes: seq<Node>, entries: seq<Entry>,
      picks: seq<Option<string>>)
    requires |picks| == |entries| && PicksListed(nodes, picks)
    requires forall e :: e in entries ==> PoolByName(pools, e.pool).Some?
    ensures var m := Move(pools, entries, picks);
            !m.stopped && FineEntries(pools, nodes, m.entries, m.error.None?)
  {
    if entries != [] {
      var n := |entries| - 1;
      assert entries[n] in entries && picks[n] in picks;
      MoveNodes(pools, nodes, entries[..n], picks[..n]);
    }
  }

  // ---- nodes that keep their names ----

  ghost predicate SameNames(a: seq<Node>, b: seq<Node>) {
    |a| == |b| && forall i :: 0 <= i < |a| ==> a[i].name == b[i].name
  }

  lemma RemovalNames(nodes: seq<Node>, target: string, x: OperatorNode.Slot, failing: set<string>)
    ensures SameNames(nodes, RemoveFromNode(nodes, target, x, failing).nodes)
  {
    RemoveFromNodeMeaning(nodes, target, x, failing);
    forall i | 0 <= i < |nodes|
      ensures RemoveFromNode(nodes, target, x, failing).nodes[i].name == nodes[i].name
    {
      assert SameBut(nodes[i], RemoveFromNode(nodes, target, x, failing).nodes[i], x.address);
    }
  }

  lemma {:induction false} RemoveEntriesNames(nodes: seq<Node>, entries: seq<Entry>, failing: set<string>)
    ensures SameNames(nodes, RemoveEntries(nodes, entries, failing))
  {
    if entries != [] {
      var n := |entries| - 1;
      var e := entries[n];
      RemoveEntriesNames(nodes, entries[..n], failing);
      RemovalNames(RemoveEntries(nodes, entries[..n], failing), e.nodeName,
        OperatorNode.Slot(e.networkInterface, e.address), failing);
    }
  }

  lemma {:induction false} DeallocateRemovedNames(pools: seq<Pool>, nodes: seq<Node>, entries: seq<Entry>,
      failing: set<string>)
    ensures SameNames(nodes, DeallocateRemoved(pools, nodes, entries, failing))
  {
    if entries != [] {
      var n := |entries| - 1;
      var e := entries[n];
      DeallocateRemovedNames(pools, nodes, entries[..n], failing);
      if OnHost(pools, e) {
        RemovalNames(DeallocateRemoved(pools, nodes, entries[..n], failing), e.nodeName, HostSlot(pools, e), failing);
      }
    }
  }

  // Nodes may come; a name that is listed stays listed.
  ghost predicate NamesStay(a: seq<Node>, b: seq<Node>) {
    forall name :: Listed(a, name) ==> Listed(b, name)
  }

  lemma SameNamesStay(a: seq<Node>, b: seq<Node>)
    requires SameNames(a, b)
    ensures NamesStay(a, b)
  {
    forall name | Listed(a, name)
      ensures Listed(b, name)
    {
      var i :| 0 <= i < |a| && a[i].name == name;
      assert b[i].name == name;
    }
  }

  lemma FineStays(pools: seq<Pool>, a: seq<Node>, b: seq<Node>, o: IPAllocation)
    requires NamesStay(a, b) && FineObject(pools, a, o)
    ensures FineObject(pools, b, o)
  {
  }

  lemma NodesKeepHomes(s: State, av: seq<Pool>, deleted: seq<Deleted>, nodes: seq<Node>)
    requires HomesListed(s) && NamesStay(s.nodes, nodes)
    ensures HomesListed(s.(avail := av, deleted := deleted, nodes := nodes))
  {
    forall k | k in s.allocs
      ensures FineObject(s.pools, nodes, s.allocs[k])
    {
      FineStays(s.pools, s.nodes, nodes, s.allocs[k]);
    }
  }

  lemma StoreKeepsHomes(s: State, key: Key, o: IPAllocation, av: seq<Pool>, nodes: seq<Node>)
    requires HomesListed(s) && NamesStay(s.nodes, nodes) && FineObject(s.pools, s.nodes, o)
    ensures HomesListed(s.(avail := av, allocs := s.allocs[key := o], nodes := nodes))
  {
    NodesKeepHomes(s, av, s.deleted, nodes);
    FineStays(s.pools, s.nodes, nodes, o);
  }

  // ---- the steps ----

  // No unreachable ready node other than the one it names has the address.
  ghost predicate OthersReachable(pools: seq<Pool>, nodes: seq<Node>, e: Entry, failing: set<string>) {
    OnHost(pools, e) ==> forall i, x :: HasReady(nodes, i, x) && x.address == e.address ==>
      nodes[i].name == e.nodeName || nodes[i].name !in failing
  }

  // An allocation that is to be moved keeps no address on a node without an operator when it is written anew.
  ghost predicate LeavesLostNodes(s: State, key: Key, svc: Service, picks: seq<Option<string>>, updateOk: bool) {
    key in s.allocs && s.allocs[key].status == NodeError && |picks| == |svc.externalIPs| &&
    Patch(s.pools, s.avail, key.namespace, s.allocs[key], svc.externalIPs, picks, updateOk).written ==>
      forall e :: e in s.allocs[key].entries && e.address in svc.externalIPs ==> NotElsewhere(s.pools, s.nodes, e)
  }

  // The allocation is ensured in the states that call for it: pending, in success, or in error with nothing to patch,
  // so that no entry is without a node.
  ghost predicate CallsForEnsuring(s: State, o: IPAllocation) {
    || o.status == Pending || o.status == Success
    || (o.status.Error? && forall e :: e in o.entries && OnHost(s.pools, e) ==> e.nodeName != "")
  }

  // What a handler can rely on when it runs: it picks nodes from the operator list, and it is called for by the status.
  ghost predicate Dispatched(s: State, e: Event) {
    match e
    case ServiceCreated(_, svc, picks, _) => Distinct(svc.externalIPs) && PicksListed(s.nodes, picks)
    case Reconciled(key, svc, picks, updateOk, _) =>
      Distinct(svc.externalIPs) && PicksListed(s.nodes, picks) && LeavesLostNodes(s, key, svc, picks, updateOk)
    case DeletionHandled(_, svc, picks, _, _) =>
      (svc.Some? ==> Distinct(svc.value.externalIPs)) && PicksListed(s.nodes, picks)
    case IPsEnsured(key, _, failing, cloudFails) =>
      key in s.allocs ==>
        && CallsForEnsuring(s, s.allocs[key])
        && (EndsWell(s, key, failing, cloudFails) ==>
              forall x :: x in s.allocs[key].entries ==> OthersReachable(s.pools, s.nodes, x, failing))
    case NodeChanged(_, picks) => PicksListed(s.nodes, picks)
    case _ => Admissible(s, e)
  }

  lemma EnsuredAtListed(s: State, key: Key, e: Entry)
    requires HomesListed(s) && key in s.allocs && CallsForEnsuring(s, s.allocs[key]) && e in s.allocs[key].entries
    ensures AtListed(s.pools, s.nodes, e)
  {
    assert FineObject(s.pools, s.nodes, s.allocs[key]);
  }

  // In a state where homes are listed, what is dispatched is admissible: the nodes need not be assumed.
  lemma DispatchedIsAdmissible(s: State, e: Event)
    requires HomesListed(s) && Dispatched(s, e)
    ensures Admissible(s, e)
  {
    if e.IPsEnsured? && e.key in s.allocs {
      forall x | x in s.allocs[e.key].entries
        ensures AtListed(s.pools, s.nodes, x)
      {
        EnsuredAtListed(s, e.key, x);
      }
    }
  }

  lemma CreateKeepsHomes(s: State, key: Key, svc: Service, picks: seq<Option<string>>, createOk: bool)
    requires LedgerAgrees(s) && HomesListed(s) && PicksListed(s.nodes, picks)
    ensures HomesListed(CreateForService(s, key, svc, picks, createOk))
  {
    if ExpectedType(svc) == Persistent && key !in s.allocs && |picks| == |svc.externalIPs| {
      var c := Create(s.pools, s.avail, key.namespace, svc.externalIPs, picks, createOk);
      if createOk {
        BuildNodes(s.pools, s.avail, FreeOf(s), s.nodes, key.namespace, [], svc.externalIPs, picks);
        StoreKeepsHomes(s, key, c.stored.value, c.av, s.nodes);
        assert s.(avail := c.av, allocs := s.allocs[key := c.stored.value], nodes := s.nodes)
            == CreateForService(s, key, svc, picks, createOk);
      }
    }
  }

  lemma PatchedHomes(s: State, key: Key, svc: Service, picks: seq<Option<string>>, updateOk: bool)
    requires LedgerAgrees(s) && HomesListed(s) && PicksListed(s.nodes, picks)
    requires LeavesLostNodes(s, key, svc, picks, updateOk) && key in s.allocs && |picks| == |svc.externalIPs|
    ensures var p := Patch(s.pools, s.avail, key.namespace, s.allocs[key], svc.externalIPs, picks, updateOk);
            FineObject(s.pools, s.nodes, p.stored)
  {
    var o := s.allocs[key];
    var p := Patch(s.pools, s.avail, key.namespace, o, svc.externalIPs, picks, updateOk);
    assert FineObject(s.pools, s.nodes, o);
    if p.written {
      forall e | e in o.entries && e.address in svc.externalIPs
        ensures NotElsewhere(s.pools, s.nodes, e)
      {
      }
      BuildNodes(s.pools, s.avail, FreeOf(s), s.nodes, key.namespace, o.entries, svc.externalIPs, picks);
    }
  }

  lemma ReconcileKeepsHomes(s: State, key: Key, svc: Service, picks: seq<Option<string>>, updateOk: bool,
      failing: set<string>)
    requires LedgerAgrees(s) && HomesListed(s) && PicksListed(s.nodes, picks)
    requires LeavesLostNodes(s, key, svc, picks, updateOk)
    ensures HomesListed(Reconcile(s, key, svc, picks, updateOk, failing))
  {
    var t := Reconcile(s, key, svc, picks, updateOk, failing);
    if key in t.allocs && |picks| == |svc.externalIPs| {
      var p := Patch(s.pools, s.avail, key.namespace, s.allocs[key], svc.externalIPs, picks, updateOk);
      PatchedHomes(s, key, svc, picks, updateOk);
      DeallocateRemovedNames(s.pools, s.nodes, p.removed, failing);
      SameNamesStay(s.nodes, DeallocateRemoved(s.pools, s.nodes, p.removed, failing));
      StoreKeepsHomes(s, key, p.stored, t.avail, t.nodes);
    }
  }

  lemma HandleDeletedKeepsHomes(s: State, i: nat, svc: Option<Service>, picks: seq<Option<string>>, createOk: bool,
      failing: set<string>)
    requires LedgerAgrees(s) && HomesListed(s) && PicksListed(s.nodes, picks)
    ensures HomesListed(HandleDeleted(s, i, svc, picks, createOk, failing))
  {
    if i < |s.deleted| {
      var released := HandleDeleted(s, i, None, picks, createOk, failing);
      HandleDeletedKeepsLedger(s, i, None, picks, createOk, failing);
      RemoveEntriesNames(s.nodes, s.deleted[i].allocation.entries, failing);
      SameNamesStay(s.nodes, released.nodes);
      NodesKeepHomes(s, released.avail, released.deleted, released.nodes);
      if svc.Some? && svc.value.isLoadBalancer {
        CreateKeepsHomes(released, s.deleted[i].key, svc.value, picks, createOk);
      }
    }
  }

  lemma EnsureKeepsHomes(s: State, key: Key, svc: Option<Service>, failing: set<string>, cloudFails: set<string>)
    requires HomesListed(s) && (key in s.allocs ==> CallsForEnsuring(s, s.allocs[key]))
    ensures HomesListed(Ensure(s, key, svc, failing, cloudFails))
  {
    if key in s.allocs && svc.Some? && svc.value.isLoadBalancer {
      var t := Ensure(s, key, svc, failing, cloudFails);
      EnsureErrorIs(s.pools, s.avail, s.nodes, s.allocs[key].entries, failing, cloudFails);
      forall e | e in s.allocs[key].entries
        ensures AtListed(s.pools, s.nodes, e)
      {
        EnsuredAtListed(s, key, e);
      }
      SameNamesStay(s.nodes, t.nodes);
      StoreKeepsHomes(s, key, t.allocs[key], t.avail, t.nodes);
    }
  }

  lemma ChangeNodeKeepsHomes(s: State, key: Key, picks: seq<Option<string>>)
    requires LedgerAgrees(s) && HomesListed(s) && PicksListed(s.nodes, picks)
    ensures HomesListed(ChangeNode(s, key, picks))
  {
    if key in s.allocs && |picks| == |s.allocs[key].entries| {
      EntriesHavePools(s, key);
      MoveNodes(s.pools, s.nodes, s.allocs[key].entries, picks);
      var m := Move(s.pools, s.allocs[key].entries, picks);
      StoreKeepsHomes(s, key, s.allocs[key].(entries := m.entries, status := StatusAfter(m.error)), s.avail, s.nodes);
    }
  }

  // What named the node is to be moved; all other names stay.
  lemma NodesGoneKeepHomes(s: State, node: string, nodes: seq<Node>)
    requires HomesListed(s) && forall name :: name != node && Listed(s.nodes, name) ==> Listed(nodes, name)
    ensures HomesListed(s.(nodes := nodes, allocs := LostAllocs(s.allocs, node)))
  {
    var allocs := LostAllocs(s.allocs, node);
    forall k | k in allocs && allocs[k].status != NodeError
      ensures FineObject(s.pools, nodes, allocs[k])
    {
      assert allocs[k] == s.allocs[k] && !Names(s.allocs[k].entries, node);
      assert FineObject(s.pools, s.nodes, s.allocs[k]);
    }
  }

  lemma LostKeepsHomes(s: State, node: string)
    requires HomesListed(s)
    ensures HomesListed(NodeLost(s, node)) && HomesListed(NodeDeleted(s, node))
  {
    var i := IndexOfNode(s.nodes, node);
    SameNamesStay(s.nodes, NodeLost(s, node).nodes);
    NodesGoneKeepHomes(s, node, NodeLost(s, node).nodes);
    if i < |s.nodes| {
      NodesWithout(s.nodes, i, node);
    }
    forall name | name != node && Listed(s.nodes, name)
      ensures Listed(NodeDeleted(s, node).nodes, name)
    {
      var j :| 0 <= j < |s.nodes| && s.nodes[j].name == name;
      assert s.nodes[j] in NodeDeleted(s, node).nodes;
    }
    NodesGoneKeepHomes(s, node, NodeDeleted(s, node).nodes);
  }

  lemma ReadyKeepsHomes(s: State, node: string, operator: OperatorNode.Operator, order: seq<Key>)
    requires HomesListed(s)
    ensures HomesListed(s.(nodes := NodeReady(s, node, operator, order).nodes))
  {
    var nodes := NodeReady(s, node, operator, order).nodes;
    if Elements(order) == s.allocs.Keys {
      ReadyArrives(s, node, operator, order);
      forall name | Listed(s.nodes, name)
        ensures Listed(nodes, name)
      {
        var j :| 0 <= j < |s.nodes| && s.nodes[j].name == name;
        assert nodes[j].name == name;
      }
    }
    NodesKeepHomes(s, s.avail, s.deleted, nodes);
  }

  lemma StepKeepsHomes(s: State, e: Event)
    requires LedgerAgrees(s) && HomesListed(s) && Dispatched(s, e)
    ensures HomesListed(Apply(s, e))
  {
    match e
    case ServiceCreated(key, svc, picks, createOk) => CreateKeepsHomes(s, key, svc, picks, createOk);
    case Reconciled(key, svc, picks, updateOk, failing) => ReconcileKeepsHomes(s, key, svc, picks, updateOk, failing);
    case AllocationRemoved(key) =>
    case DeletionHandled(i, svc, picks, createOk, failing) => HandleDeletedKeepsHomes(s, i, svc, picks, createOk,
        failing);
    case IPsEnsured(key, svc, failing, cloudFails) => EnsureKeepsHomes(s, key, svc, failing, cloudFails);
    case NodeChanged(key, picks) => ChangeNodeKeepsHomes(s, key, picks);
    case OperatorLost(node) => LostKeepsHomes(s, node);
    case OperatorDeleted(node) => LostKeepsHomes(s, node);
    case OperatorReady(node, operator, order) => ReadyKeepsHomes(s, node, operator, order);
    case AddressesLost(node, lost) =>
      SameNamesStay(s.nodes, Apply(s, e).nodes);
      NodesKeepHomes(s, s.avail, s.deleted, Apply(s, e).nodes);
  }

  // Through every run whose handlers are called for by the states they find, pick listed nodes and write no allocation
  // back onto a node without an operator: the ledger and the placement hold, and so do the homes, which were assumed
  // before.
  lemma {:induction false} DispatchedRunKeepsAll(s: State, events: seq<Event>)
    requires LedgerAgrees(s) && PlacementHolds(s) && HomesListed(s)
    requires forall i :: 0 <= i < |events| ==>
               UpdateSucceeds(Run(s, events[..i]), events[i]) && Dispatched(Run(s, events[..i]), events[i])
    ensures LedgerAgrees(Run(s, events)) && PlacementHolds(Run(s, events)) && HomesListed(Run(s, events))
  {
    if events != [] {
      var n := |events| - 1;
      assert forall i :: 0 <= i < n ==> events[..n][..i] == events[..i];
      DispatchedRunKeepsAll(s, events[..n]);
      var t := Run(s, events[..n]);
      DispatchedIsAdmissible(t, events[n]);
      StepKeepsLedger(t, events[n]);
      StepKeepsPlacement(t, events[n]);
      StepKeepsHomes(t, events[n]);
    }
  }
}

// The whole system as a state machine: declared pools, availability, allocation objects, deletions not yet handled and
// operators. One event is one handler run to its end.
module Cluster {
  import opened Types
  import opened Availability
  import opened Allocations
  import opened OperatorNode
  import opened Speaker

  // An allocation object that is gone from the API and whose addresses are not released yet.
  datatype Deleted = Deleted(key: Key, allocation: IPAllocation)

  datatype State = State(
    pools: seq<Pool>,
    avail: seq<Pool>,
    allocs: map<Key, IPAllocation>,
    deleted: seq<Deleted>,
    nodes: seq<Node>)

  // ---- creating and deleting ----

  function ExpectedType(svc: Service): IPType {
    if svc.externalIPs != [] then Persistent else Ephemeral
  }

  // CreateAllocationForService, for a service with external IPs; an object that exists is left alone.
  function CreateForService(s: State, key: Key, svc: Service, picks: seq<Option<string>>, createOk: bool): State {
    if ExpectedType(svc) != Persistent || key in s.allocs || |picks| != |svc.externalIPs| then s
    else
      var c := Create(s.pools, s.avail, key.namespace, svc.externalIPs, picks, createOk);
      s.(avail := c.av, allocs := if c.stored.Some? then s.allocs[key := c.stored.value] else s.allocs)
  }

  function DeleteAllocation(s: State, key: Key): State {
    if key !in s.allocs then s
    else s.(allocs := s.allocs - {key}, deleted := s.deleted + [Deleted(key, s.allocs[key])])
  }

  // DeallocateAllocation on the nodes: each entry with an interface is removed from the node it names.
  function RemoveEntries(nodes: seq<Node>, entries: seq<Entry>, failing: set<string>): seq<Node> {
    if entries == [] then nodes
    else
      var n := |entries| - 1;
      var e := entries[n];
      var before := RemoveEntries(nodes, entries[..n], failing);
      if e.networkInterface != ""
          then RemoveFromNode(before, e.nodeName, Slot(e.networkInterface, e.address), failing).nodes else before
  }

  // allocationDeleted: release, then recreate when the service still asks for it.
  function HandleDeleted(s: State, i: nat, svc: Option<Service>, picks: seq<Option<string>>, createOk: bool,
      failing: set<string>): State {
    if i >= |s.deleted| then s
    else
      var d := s.deleted[i];
      var released := s.(
        avail := ReleaseEntries(s.pools, s.avail, d.key.namespace, d.allocation.entries),
        nodes := RemoveEntries(s.nodes, d.allocation.entries, failing),
        deleted := s.deleted[..i] + s.deleted[i + 1..]);
      if svc.Some? && svc.value.isLoadBalancer then CreateForService(released, d.key, svc.value, picks, createOk)
          else released
  }

  // ---- reconciling ----

  // DeallocateAddress: off the node, when the pool puts its addresses on an interface, then off the cloud.
  function DeallocateAddress(pools: seq<Pool>, nodes: seq<Node>, e: Entry, failing: set<string>,
      cloudFails: set<string>): Reply {
    match PoolByName(pools, e.pool)
    case None => Reply(nodes, Some(PoolNotFound))
    case Some(p) =>
      var r := if p.HasHostNetwork() then RemoveFromNode(nodes, e.nodeName, Slot(p.InterfaceName(), e.address), failing)
          else Reply(nodes, None);
      if r.error.None? && p.hetzner && e.address in cloudFails then r.(error := Some(CloudFailure)) else r
  }

  // The error of each call is ignored, so what the cloud answers makes no difference.
  function DeallocateRemoved(pools: seq<Pool>, nodes: seq<Node>, entries: seq<Entry>, failing: set<string>): seq<Node> {
    if entries == [] then nodes
    else
      var n := |entries| - 1;
      DeallocateAddress(pools, DeallocateRemoved(pools, nodes, entries[..n], failing), entries[n], failing, {}).nodes
  }

  lemma DeallocateNext(pools: seq<Pool>, nodes: seq<Node>, entries: seq<Entry>, failing: set<string>, n: nat)
    requires n < |entries|
    ensures DeallocateRemoved(pools, nodes, entries[..n + 1], failing)
            == DeallocateAddress(pools, DeallocateRemoved(pools, nodes, entries[..n], failing), entries[n], failing,
                {}).nodes
  {
    assert entries[..n + 1][..n] == entries[..n];
  }

  // ReconcileAllocation of a persistent allocation. Only a success allocation cleans up what it no longer needs,
  // and then releases it a second time.
  function Reconcile(s: State, key: Key, svc: Service, picks: seq<Option<string>>, updateOk: bool,
      failing: set<string>): State {
    if key !in s.allocs then s
    else
      var current := s.allocs[key];
      if !svc.isLoadBalancer || current.kind != ExpectedType(svc) then DeleteAllocation(s, key)
      else if current.kind != Persistent || |picks| != |svc.externalIPs| then s
      else
        var p := Patch(s.pools, s.avail, key.namespace, current, svc.externalIPs, picks, updateOk);
        var cleans := p.error.None? && current.status.Success?;
        s.(avail := if cleans then ReleaseEntries(s.pools, p.av, key.namespace, p.removed) else p.av,
           allocs := s.allocs[key := p.stored],
           nodes := if cleans then DeallocateRemoved(s.pools, s.nodes, p.removed, failing) else s.nodes)
  }

  // ---- allocating for real ----

  function AllocateAddress(pools: seq<Pool>, nodes: seq<Node>, e: Entry, failing: set<string>,
      cloudFails: set<string>): Reply {
    match PoolByName(pools, e.pool)
    case None => Reply(nodes, Some(PoolNotFound))
    case Some(p) =>
      var r := if p.HasHostNetwork() then EnsureOnNode(nodes, e.nodeName, Slot(p.InterfaceName(), e.address), failing)
          else Reply(nodes, None);
      if r.error.None? && p.hetzner && e.address in cloudFails then r.(error := Some(CloudFailure)) else r
  }

  datatype Ensured = Ensured(av: seq<Pool>, nodes: seq<Node>, error: Option<Error>)

  function EnsureEntries(pools: seq<Pool>, av: seq<Pool>, nodes: seq<Node>, entries: seq<Entry>, failing: set<string>,
      cloudFails: set<string>): Ensured {
    if entries == [] then Ensured(av, nodes, None)
    else
      var n := |entries| - 1;
      var r := EnsureEntries(pools, av, nodes, entries[..n], failing, cloudFails);
      if r.error.Some? then r
      else
        var reply := AllocateAddress(pools, r.nodes, entries[n], failing, cloudFails);
        Ensured(EnsureNotAvailable(r.av, entries[n].pool, entries[n].address), reply.nodes, reply.error)
  }

  // How EnsureIPAllocation maps the first error to the status.
  function EnsuredStatus(error: Option<Error>): Status {
    match error
    case None => Success
    case Some(e) => if e == NoNode || e == OperatorUnreachable then NodeError else Status.Error(e)
  }

  // A service that was not found, or whose lookup failed for whatever reason, is no load balancer: its allocation goes.
  function Ensure(s: State, key: Key, svc: Option<Service>, failing: set<string>, cloudFails: set<string>): State {
    if key !in s.allocs then s
    else if svc.None? || !svc.value.isLoadBalancer then DeleteAllocation(s, key)
    else
      var r := EnsureEntries(s.pools, s.avail, s.nodes, s.allocs[key].entries, failing, cloudFails);
      s.(avail := r.av, nodes := r.nodes, allocs := s.allocs[key := s.allocs[key].(status := EnsuredStatus(r.error))])
  }

  // processAllocationNodeError
  function ChangeNode(s: State, key: Key, picks: seq<Option<string>>): State {
    if key !in s.allocs || s.allocs[key].status != NodeError || |picks| != |s.allocs[key].entries| then s
    else
      var m := Move(s.pools, s.allocs[key].entries, picks);
      s.(allocs := s.allocs[key := s.allocs[key].(entries := m.entries, status := StatusAfter(m.error))])
  }

  // ---- nodes ----

  predicate Names(entries: seq<Entry>, node: string) {
    exists e :: e in entries && e.nodeName == node
  }

  // operatorNodeLost: every allocation with an address on the node is to be moved.
  function LostAllocs(allocs: map<Key, IPAllocation>, node: string): map<Key, IPAllocation> {
    map k | k in allocs :: if Names(allocs[k].entries, node) then allocs[k].(status := NodeError) else allocs[k]
  }

  // The pod of the node is no longer ready.
  function NodeLost(s: State, node: string): State {
    var i := IndexOfNode(s.nodes, node);
    s.(nodes := if i < |s.nodes| then s.nodes[i := s.nodes[i].(ready := false)] else s.nodes,
       allocs := LostAllocs(s.allocs, node))
  }

  // The pod of the node is deleted.
  function NodeDeleted(s: State, node: string): State {
    var i := IndexOfNode(s.nodes, node);
    s.(nodes := if i < |s.nodes| then s.nodes[..i] + s.nodes[i + 1..] else s.nodes,
       allocs := LostAllocs(s.allocs, node))
  }

  function KeepOf(entries: seq<Entry>, node: string): (r: seq<Slot>)
    ensures forall x :: x in r <==>
        exists e :: e in entries && e.nodeName == node && x == Slot(e.networkInterface, e.address)
  {
    if entries == [] then []
    else
      var n := |entries| - 1;
      assert entries == entries[..n] + [entries[n]];
      var rest := KeepOf(entries[..n], node);
      if entries[n].nodeName == node then rest + [Slot(entries[n].networkInterface, entries[n].address)] else rest
  }

  // The addresses of all allocations that name the node, in the order the store lists the allocations.
  function KeepList(allocs: map<Key, IPAllocation>, order: seq<Key>, node: string): (r: seq<Slot>)
    requires forall k :: k in order ==> k in allocs
    ensures forall x :: x in r <==> exists k :: k in order && x in KeepOf(allocs[k].entries, node)
  {
    if order == [] then []
    else
      var n := |order| - 1;
      assert order == order[..n] + [order[n]];
      KeepList(allocs, order[..n], node) + KeepOf(allocs[order[n]].entries, node)
  }

  // An operator becomes ready on the node, in whatever state it is, and is cleaned up (newOperatorNode).
  ghost function NodeReady(s: State, node: string, operator: Operator, order: seq<Key>): Reply {
    var i := IndexOfNode(s.nodes, node);
    var n := Node(node, true, operator);
    var nodes := if i < |s.nodes| then s.nodes[i := n] else s.nodes + [n];
    if Elements(order) == s.allocs.Keys then DoCleanup(nodes, node, KeepList(s.allocs, order, node), {})
        else Reply(s.nodes, None)
  }

  // The kernel of a node loses addresses and its operator repairs the loss.
  function LossAndRepair(s: State, node: string, lost: set<Slot>): State {
    var i := IndexOfNode(s.nodes, node);
    if i == |s.nodes| then s
    else s.(nodes := s.nodes[i := s.nodes[i].(operator := Repair(Lose(s.nodes[i].operator, lost), {}))])
  }

  // ---- runs ----

  datatype Event =
    | ServiceCreated(key: Key, svc: Service, picks: seq<Option<string>>, createOk: bool)
    | Reconciled(key: Key, svc: Service, picks: seq<Option<string>>, updateOk: bool, failing: set<string>)
    | AllocationRemoved(key: Key)
    | DeletionHandled(index: nat, service: Option<Service>, picks: seq<Option<string>>, createOk: bool,
        failing: set<string>)
    | IPsEnsured(key: Key, service: Option<Service>, failing: set<string>, cloudFails: set<string>)
    | NodeChanged(key: Key, picks: seq<Option<string>>)
    | OperatorLost(node: string)
    | OperatorDeleted(node: string)
    | OperatorReady(node: string, operator: Operator, order: seq<Key>)
    | AddressesLost(node: string, lost: set<Slot>)

  ghost function Apply(s: State, e: Event): State {
    match e
    case ServiceCreated(key, svc, picks, createOk) => if svc.isLoadBalancer
        then CreateForService(s, key, svc, picks, createOk) else s
    case Reconciled(key, svc, picks, updateOk, failing) => Reconcile(s, key, svc, picks, updateOk, failing)
    case AllocationRemoved(key) => DeleteAllocation(s, key)
    case DeletionHandled(i, svc, picks, createOk, failing) => HandleDeleted(s, i, svc, picks, createOk, failing)
    case IPsEnsured(key, svc, failing, cloudFails) => Ensure(s, key, svc, failing, cloudFails)
    case NodeChanged(key, picks) => ChangeNode(s, key, picks)
    case OperatorLost(node) => NodeLost(s, node)
    case OperatorDeleted(node) => NodeDeleted(s, node)
    case OperatorReady(node, operator, order) => s.(nodes := NodeReady(s, node, operator, order).nodes)
    case AddressesLost(node, lost) => LossAndRepair(s, node, lost)
  }

  ghost function Run(s: State, events: seq<Event>): State {
    if events == [] then s else Apply(Run(s, events[..|events| - 1]), events[|events| - 1])
  }
}

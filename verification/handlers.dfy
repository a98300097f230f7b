// The event loop: every event of the cluster goes to the handler of the controller that answers it, and what the
// handlers do to the heap is exactly the step of the state machine.
module Handlers {
  import opened Types
  import opened OperatorNode
  import opened Cluster
  import opened Ledger
  import opened LedgerResults
  import opened Placement
  import opened ControllerSteps

  // One node is chosen per address, and the object an event is about is still there.
  ghost predicate Fits(s: State, e: Event) {
    match e
    case ServiceCreated(_, svc, picks, _) => |picks| == |svc.externalIPs|
    case Reconciled(key, svc, picks, _, _) => key in s.allocs && |picks| == |svc.externalIPs|
    case DeletionHandled(i, svc, picks, _, _) => i < |s.deleted| && (svc.Some? ==> |picks| == |svc.value.externalIPs|)
    case IPsEnsured(key, _, _, _) => key in s.allocs
    case OperatorReady(_, _, order) => Elements(order) == s.allocs.Keys
    case _ => true
  }

  // The store lists its keys in some order.
  method ListKeys(allocs: map<Key, IPAllocation>) returns (order: seq<Key>)
    ensures Elements(order) == allocs.Keys && Distinct(order)
  {
    order := [];
    var left := allocs.Keys;
    while left != {}
      invariant Elements(order) + left == allocs.Keys && Elements(order) !! left && Distinct(order)
      decreases left
    {
      var k :| k in left;
      ghost var before := Elements(order);
      assert forall i :: 0 <= i < |order| ==> order[i] in before;
      order := order + [k];
      left := left - {k};
      assert Elements(order) == before + {k};
    }
  }

  // The kernel of a node drops addresses; the operator there notices and puts back what it has listed.
  method LoseAndRepair(c: Controller, node: string, lost: set<Slot>)
    modifies c`nodes
    ensures c.Abs() == LossAndRepair(old(c.Abs()), node, lost)
  {
    var i := c.SearchOperatorByClusterNodeName(node);
    if i < |c.nodes| {
      c.nodes := c.nodes[i := c.nodes[i].(operator := Repair(Lose(c.nodes[i].operator, lost), {}))];
    }
  }

  method HandleEvent(c: Controller, e: Event)
    requires c.Valid() && Fits(c.Abs(), e)
    modifies c`allocs, c`deleted, c`nodes, c.manager`availablesPools, c.manager.Repr()
    ensures c.Valid() && fresh(c.manager.Repr() - old(c.manager.Repr()))
    ensures c.Abs() == Apply(old(c.Abs()), e)
  {
    match e {
      case ServiceCreated(key, svc, picks, createOk) =>
        if svc.isLoadBalancer {
          c.CreateAllocationForService(key, svc, picks, createOk);
        }
      case Reconciled(key, svc, picks, updateOk, failing) =>
        c.ReconcileAllocation(key, svc, picks, updateOk, failing, {});
      case AllocationRemoved(key) =>
        c.DeleteAllocationByName(key);
      case DeletionHandled(i, svc, picks, createOk, failing) =>
        c.AllocationDeleted(i, svc, picks, createOk, failing);
      case IPsEnsured(key, svc, failing, cloudFails) =>
        c.EnsureIPAllocation(key, svc, failing, cloudFails);
      case NodeChanged(key, picks) =>
        c.ProcessAllocationNodeError(key, picks);
      case OperatorLost(node) =>
        var order := ListKeys(c.allocs);
        c.OperatorNodeLost(node, order);
      case OperatorDeleted(node) =>
        var order := ListKeys(c.allocs);
        c.OperatorNodeDeleted(node, order);
      case OperatorReady(node, operator, order) =>
        var _ := c.NewOperatorNode(node, operator, order);
      case AddressesLost(node, lost) =>
        LoseAndRepair(c, node, lost);
    }
  }

  // A run on the heap: it reaches the state of the abstract run, so the ledger and the placement hold of the
  // controller's own fields, the pool objects it edits in place included.
  method HandleAll(c: Controller, events: seq<Event>)
    requires c.Valid()
    requires forall i :: 0 <= i < |events| ==> Fits(Run(c.Abs(), events[..i]), events[i])
    modifies c`allocs, c`deleted, c`nodes, c.manager`availablesPools, c.manager.Repr()
    ensures c.Valid() && fresh(c.manager.Repr() - old(c.manager.Repr()))
    ensures c.Abs() == Run(old(c.Abs()), events)
    ensures LedgerAgrees(old(c.Abs())) && UpdatesSucceed(old(c.Abs()), events) ==>
              LedgerAgrees(c.Abs()) && forall d, a :: d in c.manager.poolStore && a in d.addresses ==>
                  ExactlyOnePlace(c.Abs(), d, a)
    ensures LedgerAgrees(old(c.Abs())) && PlacementHolds(old(c.Abs())) && AdmissibleRun(old(c.Abs()), events) ==>
        PlacementHolds(c.Abs())
  {
    ghost var start := c.Abs();
    for i := 0 to |events|
      invariant c.Valid() && fresh(c.manager.Repr() - old(c.manager.Repr()))
      invariant c.Abs() == Run(start, events[..i])
    {
      assert events[..i + 1][..i] == events[..i];
      HandleEvent(c, events[i]);
    }
    assert events[..|events|] == events;
    if LedgerAgrees(start) && UpdatesSucceed(start, events) {
      RunKeepsLedger(start, events);
      forall d, a | d in c.manager.poolStore && a in d.addresses
        ensures ExactlyOnePlace(c.Abs(), d, a)
      {
        AgreeingPlaces(c.Abs(), d, a);
      }
    }
    if LedgerAgrees(start) && PlacementHolds(start) && AdmissibleRun(start, events) {
      RunKeepsPlacement(start, events);
    }
  }
}

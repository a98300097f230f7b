// The controller: allocator.go of persistentips, speaker.go, allocator.go, reconciler.go and the handlers of
// allocationswatcher.go, editing the availability, the allocation objects and (through calls) the nodes.
module ControllerSteps {
  import opened Types
  import opened Allocations
  import opened OperatorNode
  import opened Speaker
  import opened Cluster
  import opened PoolsManager

  // utils.ContainsAddress
  method ContainsAddress(entries: seq<Entry>, address: string) returns (found: Option<Entry>)
    ensures found == FindEntry(entries, address)
  {
    for i := 0 to |entries|
      invariant FindEntry(entries, address) == FindEntry(entries[i..], address)
    {
      assert entries[i..][1..] == entries[i + 1..];
      if entries[i].address == address {
        return Some(entries[i]);
      }
    }
    return None;
  }

  method AddOperatorNodeToAllocation(pool: Pool, e: Entry, pick: Option<string>)
      returns (allocation: Entry, error: Option<Error>)
    ensures allocation == AssignNode(pool, e, pick)
    ensures error == if PickFails(pool, e, pick) then Some(NoNode) else None
  {
    allocation, error := e, None;
    if pool.HasHostNetwork()
        && (e.nodeName == "" || e.networkInterface == "" || e.networkInterface != pool.InterfaceName()) {
      if pick.None? {
        error := Some(NoNode);
      } else {
        allocation := allocation.(nodeName := pick.value);
      }
      allocation := allocation.(networkInterface := pool.InterfaceName());
    } else if pool.hetzner && e.nodeName == "" {
      if pick.None? {
        error := Some(NoNode);
      } else {
        allocation := allocation.(nodeName := pick.value);
      }
    }
    allocation := allocation.(cloudProvider := pool.CloudProvider());
  }

  class Controller {
    const manager: Manager
    var allocs: map<Key, IPAllocation>
    // deletions the watch has still to deliver
    var deleted: seq<Deleted>
    // the operators, reached by calls only
    var nodes: seq<Node>

    ghost predicate Valid()
      reads this, manager
    {
      manager.Valid()
    }

    ghost function Abs(): State
      reads this, manager, manager.availablesPools
    {
      State(manager.poolStore, manager.Available(), allocs, deleted, nodes)
    }

    constructor (manager: Manager)
      requires manager.Valid()
      ensures Valid() && this.manager == manager
      ensures Abs() == State(manager.poolStore, manager.Available(), map[], [], [])
    {
      this.manager := manager;
      allocs, deleted, nodes := map[], [], [];
    }

    // ---- allocator.go of persistentips ----

    method BuildAllocations(namespace: string, current: seq<Entry>, ips: seq<string>, picks: seq<Option<string>>)
      returns (allocations: seq<Entry>, allocationErr: Option<Error>)
      requires Valid() && |picks| == |ips|
      modifies manager`availablesPools, manager.Repr()
      ensures Valid() && fresh(manager.Repr() - old(manager.Repr()))
      ensures Built(manager.Available(), allocations, allocationErr)
          == Build(manager.poolStore, old(manager.Available()), namespace, current, ips, picks)
    {
      allocations, allocationErr := [], None;
      for i := 0 to |ips|
        invariant Valid() && fresh(manager.Repr() - old(manager.Repr()))
        invariant Built(manager.Available(), allocations, allocationErr)
            == Build(manager.poolStore, old(manager.Available()), namespace, current, ips[..i], picks[..i])
      {
        BuildNext(manager.poolStore, old(manager.Available()), namespace, current, ips, picks, i);
        var ip := ips[i];
        var allocation := Entry(ip, "", "", "", "");
        var pool: Option<Pool> := None;
        var ready := ContainsAddress(current, ip);
        if ready.Some? {
          // when the pool is gone the error stays in an inner variable and is lost
          pool := manager.GetPoolOfAddress(namespace, ready.value.address);
          allocation := ready.value;
        } else {
          pool := manager.UseIP(namespace, ip);
          if pool.None? {
            allocationErr := Some(NoIPAvailable);
          } else {
            allocation := allocation.(pool := pool.value.name);
          }
        }
        if pool.Some? {
          var placed, err := AddOperatorNodeToAllocation(pool.value, allocation, picks[i]);
          if err.Some? {
            allocationErr := err;
          }
          allocations := allocations + [placed];
        }
      }
      assert ips[..|ips|] == ips && picks[..|picks|] == picks;
    }

    // The loop that gives back what the new spec does not contain.
    method ReleaseDropped(namespace: string, entries: seq<Entry>, kept: seq<Entry>)
        returns (removedAllocations: seq<Entry>)
      requires Valid()
      modifies manager`availablesPools, manager.Repr()
      ensures Valid() && fresh(manager.Repr() - old(manager.Repr()))
      ensures removedAllocations == Dropped(entries, kept)
      ensures manager.Available()
          == ReleaseEntries(manager.poolStore, old(manager.Available()), namespace, removedAllocations)
    {
      removedAllocations := [];
      for i := 0 to |entries|
        invariant Valid() && fresh(manager.Repr() - old(manager.Repr()))
        invariant removedAllocations == Dropped(entries[..i], kept)
        invariant manager.Available()
            == ReleaseEntries(manager.poolStore, old(manager.Available()), namespace, removedAllocations)
      {
        assert entries[..i + 1][..i] == entries[..i];
        var alloc := entries[i];
        var contained := ContainsAddress(kept, alloc.address);
        if contained.None? {
          manager.ReleaseIP(alloc.pool, namespace, alloc.address);
          ghost var before := removedAllocations;
          removedAllocations := removedAllocations + [alloc];
          assert removedAllocations[..|removedAllocations| - 1] == before;
        }
      }
      assert entries[..|entries|] == entries;
    }

    method CheckAndPatchAllocation(key: Key, ips: seq<string>, picks: seq<Option<string>>, updateOk: bool)
      returns (removedAllocations: seq<Entry>, allocationErr: Option<Error>, err: Option<Error>)
      requires Valid() && |picks| == |ips| && key in allocs
      modifies this`allocs, manager`availablesPools, manager.Repr()
      ensures Valid() && fresh(manager.Repr() - old(manager.Repr()))
      ensures var p :=
          Patch(manager.poolStore, old(manager.Available()), key.namespace, old(allocs[key]), ips, picks, updateOk);
              && manager.Available() == p.av && allocs == old(allocs)[key := p.stored]
              && removedAllocations == p.removed && allocationErr == p.allocError && err == p.error
    {
      var current := allocs[key];
      var allocations;
      allocations, allocationErr := BuildAllocations(key.namespace, current.entries, ips, picks);
      removedAllocations := ReleaseDropped(key.namespace, current.entries, allocations);
      if allocationErr.None? && allocations == current.entries {
        assert allocs[key := current] == allocs;
        return removedAllocations, None, None;
      }
      if !updateOk {
        assert allocs[key := current] == allocs;
        return [], allocationErr, Some(WriteFailed);
      }
      var patched := current.(entries := allocations);
      if allocationErr.Some? {
        allocs := allocs[key := patched.(status := Status.Error(allocationErr.value))];
      } else {
        allocs := allocs[key := patched.(status := Pending)];
      }
      return removedAllocations, allocationErr, None;
    }

    method ReleaseAll(namespace: string, entries: seq<Entry>)
      requires Valid()
      modifies manager`availablesPools, manager.Repr()
      ensures Valid() && fresh(manager.Repr() - old(manager.Repr()))
      ensures manager.Available() == ReleaseEntries(manager.poolStore, old(manager.Available()), namespace, entries)
    {
      for i := 0 to |entries|
        invariant Valid() && fresh(manager.Repr() - old(manager.Repr()))
        invariant manager.Available()
            == ReleaseEntries(manager.poolStore, old(manager.Available()), namespace, entries[..i])
      {
        assert entries[..i + 1][..i] == entries[..i];
        manager.ReleaseIP(entries[i].pool, namespace, entries[i].address);
      }
      assert entries[..|entries|] == entries;
    }

    // EnsurePersistentAllocation with createPersistentAllocation.
    method EnsurePersistentAllocation(key: Key, ips: seq<string>, picks: seq<Option<string>>, createOk: bool)
        returns (err: Option<Error>)
      requires Valid() && |picks| == |ips|
      modifies this`allocs, manager`availablesPools, manager.Repr()
      ensures Valid() && fresh(manager.Repr() - old(manager.Repr()))
      ensures if key in old(allocs) then allocs == old(allocs) && manager.Available() == old(manager.Available())
              else var c := Create(manager.poolStore, old(manager.Available()), key.namespace, ips, picks, createOk);
                   manager.Available() == c.av && allocs == if c.stored.Some? then old(allocs)[key := c.stored.value]
                       else old(allocs)
      ensures err.Some? <==> key !in old(allocs) && !createOk
    {
      if key in allocs {
        return None;
      }
      var allocations, allocationErr := BuildAllocations(key.namespace, [], ips, picks);
      if !createOk {
        ReleaseAll(key.namespace, allocations);
        return Some(WriteFailed);
      }
      var created := IPAllocation(Persistent, allocations, NoStatus);
      allocs := allocs[key :=
          created.(status := if allocationErr.Some? then Status.Error(allocationErr.value) else Pending)];
      return None;
    }

    // The loop of ChangeAllocationNode: it stops at the first entry whose pool is gone.
    method ChangeEntries(entries: seq<Entry>, picks: seq<Option<string>>)
        returns (moved: seq<Entry>, allocationErr: Option<Error>)
      requires |picks| == |entries|
      ensures moved == Move(manager.poolStore, entries, picks).entries
          && allocationErr == Move(manager.poolStore, entries, picks).error
    {
      moved, allocationErr := [], None;
      for i := 0 to |entries|
        invariant Moved(moved, allocationErr, false) == Move(manager.poolStore, entries[..i], picks[..i])
      {
        MoveNext(manager.poolStore, entries, picks, i);
        var stopped;
        moved, allocationErr, stopped := ChangeEntry(moved, allocationErr, entries[i], picks[i]);
        if stopped {
          MoveStops(manager.poolStore, entries, picks, i + 1);
          return moved + entries[i + 1..], allocationErr;
        }
      }
      assert entries[..|entries|] == entries && picks[..|picks|] == picks;
    }

    // The body of that loop.
    method ChangeEntry(before: seq<Entry>, err: Option<Error>, e: Entry, pick: Option<string>)
      returns (moved: seq<Entry>, allocationErr: Option<Error>, stopped: bool)
      ensures Moved(moved, allocationErr, stopped) == MoveStep(manager.poolStore, Moved(before, err, false), e, pick)
    {
      var pool := manager.SearchPoolByName(e.pool);
      if pool.None? {
        return before + [e], Some(PoolNotFound), true;
      }
      var nodeName, netInterface, failed := ChooseNode(pool.value, pick);
      allocationErr := if failed then Some(NoNode) else err;
      return before + [e.(networkInterface := netInterface, nodeName := nodeName)], allocationErr, false;
    }

    // Its choice for an entry whose pool is declared.
    static method ChooseNode(pool: Pool, pick: Option<string>)
        returns (nodeName: string, netInterface: string, failed: bool)
      ensures var picksNode := pool.HasHostNetwork() || pool.hetzner;
              && nodeName == (if picksNode && pick.Some? then pick.value else "")
              && netInterface == (if pool.HasHostNetwork() then pool.InterfaceName() else "")
              && (failed <==> picksNode && pick.None?)
    {
      nodeName, netInterface, failed := "", "", false;
      if pool.HasHostNetwork() {
        if pick.None? {
          failed := true;
        } else {
          nodeName := pick.value;
        }
        netInterface := pool.InterfaceName();
      } else if pool.hetzner {
        if pick.None? {
          failed := true;
        } else {
          nodeName := pick.value;
        }
      }
    }

    // processAllocationNodeError with ChangeAllocationNode.
    method ProcessAllocationNodeError(key: Key, picks: seq<Option<string>>)
      requires Valid()
      modifies this`allocs
      ensures Abs() == ChangeNode(old(Abs()), key, picks)
    {
      if key !in allocs || allocs[key].status != NodeError || |picks| != |allocs[key].entries| {
        return;
      }
      var moved, allocationErr := ChangeEntries(allocs[key].entries, picks);
      var updated := allocs[key].(entries := moved);
      allocs := allocs[key :=
          updated.(status := if allocationErr.Some? then Status.Error(allocationErr.value) else Pending)];
    }

    // ---- speaker.go ----

    method EnsureIPAllocationOnNode(nodeName: string, interfaceName: string, address: string, failing: set<string>)
        returns (err: Option<Error>)
      modifies this`nodes
      ensures Reply(nodes, err) == EnsureOnNode(old(nodes), nodeName, Slot(interfaceName, address), failing)
    {
      var s := Slot(interfaceName, address);
      ghost var before := nodes;
      for i := 0 to |nodes|
        invariant |nodes| == |before| && Reply(nodes, None) == EnsureUpTo(before, i, nodeName, s, failing)
      {
        var node := nodes[i];
        var reachable := node.name !in failing;
        if node.name == nodeName {
          if !node.ready {
            FailureStays(before, i + 1, nodeName, s, failing);
            return Some(OperatorUnreachable);
          }
          var r := Add(node.operator, s, {});
          if !reachable || !r.ok {
            FailureStays(before, i + 1, nodeName, s, failing);
            return Some(OperatorUnreachable);
          }
          nodes := nodes[i := node.(operator := r.operator)];
        } else if node.ready {
          if reachable {
            nodes := nodes[i := node.(operator := Remove(node.operator, s, {}).operator)];
          }
        }
      }
      return None;
    }

    method RemoveAddressFromNode(nodeName: string, interfaceName: string, address: string, failing: set<string>)
        returns (err: Option<Error>)
      modifies this`nodes
      ensures Reply(nodes, err) == RemoveFromNode(old(nodes), nodeName, Slot(interfaceName, address), failing)
    {
      var i := SearchOperatorByClusterNodeName(nodeName);
      if i == |nodes| || nodeName in failing {
        return Some(OperatorUnreachable);
      }
      var r := Remove(nodes[i].operator, Slot(interfaceName, address), {});
      if !r.ok {
        return Some(OperatorUnreachable);
      }
      nodes := nodes[i := nodes[i].(operator := r.operator)];
      return None;
    }

    method CleanupNode(nodeName: string, toKeep: seq<Slot>, failing: set<string>) returns (err: Option<Error>)
      modifies this`nodes
      ensures Reply(nodes, err) == DoCleanup(old(nodes), nodeName, toKeep, failing)
    {
      var i := SearchOperatorByClusterNodeName(nodeName);
      if i == |nodes| || nodeName in failing {
        return Some(OperatorUnreachable);
      }
      var r := Cleanup(nodes[i].operator, toKeep, {});
      nodes := nodes[i := nodes[i].(operator := r.operator)];
      return if r.ok then None else Some(OperatorUnreachable);
    }

    method SearchOperatorByClusterNodeName(name: string) returns (index: nat)
      ensures index == IndexOfNode(nodes, name)
    {
      index := 0;
      while index < |nodes|
        invariant index <= |nodes|
        invariant forall j :: 0 <= j < index ==> nodes[j].name != name
      {
        if nodes[index].name == name {
          break;
        }
        index := index + 1;
      }
    }

    // ---- addresses for real ----

    method AllocateOne(e: Entry, failing: set<string>, cloudFails: set<string>) returns (err: Option<Error>)
      modifies this`nodes
      ensures Reply(nodes, err) == AllocateAddress(manager.poolStore, old(nodes), e, failing, cloudFails)
    {
      var pool := manager.SearchPoolByName(e.pool);
      if pool.None? {
        return Some(PoolNotFound);
      }
      if pool.value.HasHostNetwork() {
        err := EnsureIPAllocationOnNode(e.nodeName, pool.value.InterfaceName(), e.address, failing);
        if err.Some? {
          return err;
        }
      }
      if pool.value.hetzner && e.address in cloudFails {
        return Some(CloudFailure);
      }
      return None;
    }

    method DeallocateOne(e: Entry, failing: set<string>, cloudFails: set<string>) returns (err: Option<Error>)
      modifies this`nodes
      ensures Reply(nodes, err) == DeallocateAddress(manager.poolStore, old(nodes), e, failing, cloudFails)
    {
      var pool := manager.SearchPoolByName(e.pool);
      if pool.None? {
        return Some(PoolNotFound);
      }
      if pool.value.HasHostNetwork() {
        err := RemoveAddressFromNode(e.nodeName, pool.value.InterfaceName(), e.address, failing);
        if err.Some? {
          return err;
        }
      }
      if pool.value.hetzner && e.address in cloudFails {
        return Some(CloudFailure);
      }
      return None;
    }

    // DeallocateAllocation
    method DeallocateAllocation(namespace: string, entries: seq<Entry>, failing: set<string>)
      requires Valid()
      modifies this`nodes, manager`availablesPools, manager.Repr()
      ensures Valid() && fresh(manager.Repr() - old(manager.Repr()))
      ensures manager.Available() == ReleaseEntries(manager.poolStore, old(manager.Available()), namespace, entries)
      ensures nodes == RemoveEntries(old(nodes), entries, failing)
    {
      for i := 0 to |entries|
        invariant Valid() && fresh(manager.Repr() - old(manager.Repr()))
        invariant manager.Available()
            == ReleaseEntries(manager.poolStore, old(manager.Available()), namespace, entries[..i])
        invariant nodes == RemoveEntries(old(nodes), entries[..i], failing)
      {
        assert entries[..i + 1][..i] == entries[..i];
        var e := entries[i];
        if e.networkInterface != "" {
          var _ := RemoveAddressFromNode(e.nodeName, e.networkInterface, e.address, failing);
        }
        manager.ReleaseIP(e.pool, namespace, e.address);
      }
      assert entries[..|entries|] == entries;
    }

    // ---- reconciler.go ----

    method CreateAllocationForService(key: Key, svc: Service, picks: seq<Option<string>>, createOk: bool)
      requires Valid() && |picks| == |svc.externalIPs|
      modifies this`allocs, manager`availablesPools, manager.Repr()
      ensures Valid() && fresh(manager.Repr() - old(manager.Repr()))
      ensures Abs() == CreateForService(old(Abs()), key, svc, picks, createOk)
    {
      if |svc.externalIPs| > 0 {
        var _ := EnsurePersistentAllocation(key, svc.externalIPs, picks, createOk);
      }
    }

    method DeleteAllocationByName(key: Key)
      requires Valid()
      modifies this`allocs, this`deleted
      ensures Abs() == DeleteAllocation(old(Abs()), key)
    {
      if key in allocs {
        deleted := deleted + [Deleted(key, allocs[key])];
        allocs := allocs - {key};
      }
    }

    method ReconcileAllocation(key: Key, svc: Service, picks: seq<Option<string>>, updateOk: bool, failing: set<string>,
        cloudFails: set<string>)
      requires Valid() && |picks| == |svc.externalIPs| && key in allocs
      modifies this`allocs, this`deleted, this`nodes, manager`availablesPools, manager.Repr()
      ensures Valid() && fresh(manager.Repr() - old(manager.Repr()))
      ensures Abs() == Reconcile(old(Abs()), key, svc, picks, updateOk, failing)
    {
      var current := allocs[key];
      if !svc.isLoadBalancer {
        DeleteAllocationByName(key);
        return;
      }
      var expected := if |svc.externalIPs| > 0 then Persistent else Ephemeral;
      if current.kind != expected {
        DeleteAllocationByName(key);
        return;
      }
      if expected == Persistent {
        var removed, allocErr, err := CheckAndPatchAllocation(key, svc.externalIPs, picks, updateOk);
        if err.Some? {
          return;
        }
        if current.status.Success? {
          ReleaseAndDeallocate(key.namespace, removed, failing, cloudFails);
        }
      }
    }

    // The clean-up loop of reconcilePersistentAllocation.
    method ReleaseAndDeallocate(namespace: string, removed: seq<Entry>, failing: set<string>, cloudFails: set<string>)
      requires Valid()
      modifies this`nodes, manager`availablesPools, manager.Repr()
      ensures Valid() && fresh(manager.Repr() - old(manager.Repr()))
      ensures manager.Available() == ReleaseEntries(manager.poolStore, old(manager.Available()), namespace, removed)
      ensures nodes == DeallocateRemoved(manager.poolStore, old(nodes), removed, failing)
    {
      for i := 0 to |removed|
        invariant Valid() && fresh(manager.Repr() - old(manager.Repr()))
        invariant manager.Available()
            == ReleaseEntries(manager.poolStore, old(manager.Available()), namespace, removed[..i])
        invariant nodes == DeallocateRemoved(manager.poolStore, old(nodes), removed[..i], failing)
      {
        ReleaseNext(manager.poolStore, old(manager.Available()), namespace, removed, i);
        DeallocateNext(manager.poolStore, old(nodes), removed, failing, i);
        manager.ReleaseIP(removed[i].pool, namespace, removed[i].address);
        var _ := DeallocateOne(removed[i], failing, cloudFails);
      }
      assert removed[..|removed|] == removed;
    }

    // ---- allocator.go ----

    // The loop of EnsureIPAllocation: it stops at the first address that cannot be allocated.
    method EnsureAddresses(namespace: string, entries: seq<Entry>, failing: set<string>, cloudFails: set<string>)
        returns (err: Option<Error>)
      requires Valid()
      modifies this`nodes, manager`availablesPools, manager.Repr()
      ensures Valid() && fresh(manager.Repr() - old(manager.Repr()))
      ensures Ensured(manager.Available(), nodes, err)
          == EnsureEntries(manager.poolStore, old(manager.Available()), old(nodes), entries, failing, cloudFails)
    {
      for i := 0 to |entries|
        invariant Valid() && fresh(manager.Repr() - old(manager.Repr()))
        invariant Ensured(manager.Available(), nodes, None)
            == EnsureEntries(manager.poolStore, old(manager.Available()), old(nodes), entries[..i], failing, cloudFails)
      {
        assert entries[..i + 1][..i] == entries[..i];
        manager.EnsureAddressIsNotAvailable(entries[i].pool, namespace, entries[i].address);
        err := AllocateOne(entries[i], failing, cloudFails);
        if err.Some? {
          EnsureEntriesStops(
            manager.poolStore, old(manager.Available()), old(nodes), entries, failing, cloudFails, i + 1);
          return err;
        }
      }
      assert entries[..|entries|] == entries;
      return None;
    }

    method EnsureIPAllocation(key: Key, svc: Option<Service>, failing: set<string>, cloudFails: set<string>)
      requires Valid() && key in allocs
      modifies this`allocs, this`deleted, this`nodes, manager`availablesPools, manager.Repr()
      ensures Valid() && fresh(manager.Repr() - old(manager.Repr()))
      ensures Abs() == Ensure(old(Abs()), key, svc, failing, cloudFails)
    {
      if svc.None? || !svc.value.isLoadBalancer {
        DeleteAllocationByName(key);
        return;
      }
      var allocation := allocs[key];
      var err := EnsureAddresses(key.namespace, allocation.entries, failing, cloudFails);
      if err.None? {
        allocs := allocs[key := allocation.(status := Success)];
      } else if err.value == NoNode || err.value == OperatorUnreachable {
        allocs := allocs[key := allocation.(status := NodeError)];
      } else {
        allocs := allocs[key := allocation.(status := Status.Error(err.value))];
      }
    }

    // ---- allocationswatcher.go ----

    method AllocationDeleted(i: nat, svc: Option<Service>, picks: seq<Option<string>>, createOk: bool,
        failing: set<string>)
      requires Valid() && i < |deleted| && (svc.Some? ==> |picks| == |svc.value.externalIPs|)
      modifies this`allocs, this`deleted, this`nodes, manager`availablesPools, manager.Repr()
      ensures Valid() && fresh(manager.Repr() - old(manager.Repr()))
      ensures Abs() == HandleDeleted(old(Abs()), i, svc, picks, createOk, failing)
    {
      var d := deleted[i];
      deleted := deleted[..i] + deleted[i + 1..];
      DeallocateAllocation(d.key.namespace, d.allocation.entries, failing);
      if svc.Some? && svc.value.isLoadBalancer {
        CreateAllocationForService(d.key, svc.value, picks, createOk);
      }
    }

    // The pod of the node is no longer ready, then operatorNodeLost; `order` is the listing of the store.
    method OperatorNodeLost(clusterNodeName: string, order: seq<Key>)
      requires Valid() && Elements(order) == allocs.Keys
      modifies this`allocs, this`nodes
      ensures Abs() == NodeLost(old(Abs()), clusterNodeName)
    {
      var at := SearchOperatorByClusterNodeName(clusterNodeName);
      if at < |nodes| {
        nodes := nodes[at := nodes[at].(ready := false)];
      }
      MarkLost(clusterNodeName, order);
    }

    // The pod of the node is deleted, then operatorNodeLost.
    method OperatorNodeDeleted(clusterNodeName: string, order: seq<Key>)
      requires Valid() && Elements(order) == allocs.Keys
      modifies this`allocs, this`nodes
      ensures Abs() == NodeDeleted(old(Abs()), clusterNodeName)
    {
      var at := SearchOperatorByClusterNodeName(clusterNodeName);
      if at < |nodes| {
        nodes := nodes[..at] + nodes[at + 1..];
      }
      MarkLost(clusterNodeName, order);
    }

    // The loop over the store.
    method MarkLost(clusterNodeName: string, order: seq<Key>)
      requires Elements(order) == allocs.Keys
      modifies this`allocs
      ensures allocs == LostAllocs(old(allocs), clusterNodeName)
    {
      ghost var before := allocs;
      for i := 0 to |order|
        invariant allocs.Keys == before.Keys
        invariant forall k :: k in before ==>
                    allocs[k] == if k in order[..i] && Names(before[k].entries, clusterNodeName)
                        then before[k].(status := NodeError) else before[k]
      {
        assert order[i] in Elements(order);
        var allocation := allocs[order[i]];
        var named := NamesNode(allocation.entries, clusterNodeName);
        if named {
          allocs := allocs[order[i] := allocation.(status := NodeError)];
        }
        assert order[..i + 1] == order[..i] + [order[i]];
      }
      assert order[..|order|] == order;
      forall k | k in before
        ensures k in order
      {
        assert k in Elements(order);
      }
    }

    method NamesNode(entries: seq<Entry>, clusterNodeName: string) returns (named: bool)
      ensures named <==> Names(entries, clusterNodeName)
    {
      for j := 0 to |entries|
        invariant !Names(entries[..j], clusterNodeName)
      {
        if entries[j].nodeName == clusterNodeName {
          assert entries[j] in entries;
          return true;
        }
      }
      assert entries[..|entries|] == entries;
      return false;
    }

    // The pod of a node is ready, then newOperatorNode; `order` is the listing of the store.
    method NewOperatorNode(clusterNodeName: string, operator: Operator, order: seq<Key>) returns (err: Option<Error>)
      requires Valid() && Elements(order) == allocs.Keys
      modifies this`nodes
      ensures Reply(nodes, err) == NodeReady(old(Abs()), clusterNodeName, operator, order)
      ensures Abs() == old(Abs()).(nodes := nodes)
    {
      assert forall k :: k in order ==> k in allocs by {
        assert forall k :: k in order ==> k in Elements(order);
      }
      var at := SearchOperatorByClusterNodeName(clusterNodeName);
      var node := Node(clusterNodeName, true, operator);
      if at < |nodes| {
        nodes := nodes[at := node];
      } else {
        nodes := nodes + [node];
      }
      var toKeep := AddressesToKeep(clusterNodeName, order);
      err := CleanupNode(clusterNodeName, toKeep, {});
    }

    // The loop over the store.
    method AddressesToKeep(clusterNodeName: string, order: seq<Key>) returns (toKeep: seq<Slot>)
      requires forall k :: k in order ==> k in allocs
      ensures toKeep == KeepList(allocs, order, clusterNodeName)
    {
      toKeep := [];
      for i := 0 to |order|
        invariant toKeep == KeepList(allocs, order[..i], clusterNodeName)
      {
        assert order[..i + 1][..i] == order[..i];
        var entries := allocs[order[i]].entries;
        ghost var kept := toKeep;
        for j := 0 to |entries|
          invariant toKeep == kept + KeepOf(entries[..j], clusterNodeName)
        {
          assert entries[..j + 1][..j] == entries[..j];
          if entries[j].nodeName == clusterNodeName {
            toKeep := toKeep + [Slot(entries[j].networkInterface, entries[j].address)];
          }
        }
        assert entries[..|entries|] == entries;
      }
      assert order[..|order|] == order;
    }
  }

  lemma MoveNext(declared: seq<Pool>, entries: seq<Entry>, picks: seq<Option<string>>, n: nat)
    requires n < |entries| == |picks|
    ensures Move(declared, entries[..n + 1], picks[..n + 1])
        == MoveStep(declared, Move(declared, entries[..n], picks[..n]), entries[n], picks[n])
  {
    assert entries[..n + 1][..n] == entries[..n] && picks[..n + 1][..n] == picks[..n];
  }

  // Once moving stopped, the rest of the entries stay as they are.
  lemma {:induction false} MoveStops(declared: seq<Pool>, entries: seq<Entry>, picks: seq<Option<string>>, n: nat)
    requires n <= |entries| == |picks| && Move(declared, entries[..n], picks[..n]).stopped
    ensures var m := Move(declared, entries[..n], picks[..n]);
            Move(declared, entries, picks) == Moved(m.entries + entries[n..], m.error, true)
    decreases |entries| - n
  {
    var m := Move(declared, entries[..n], picks[..n]);
    if n < |entries| {
      MoveNext(declared, entries, picks, n);
      MoveStops(declared, entries, picks, n + 1);
      assert m.entries + [entries[n]] + entries[n + 1..] == m.entries + entries[n..];
    } else {
      assert entries[..n] == entries && picks[..n] == picks;
      assert m.entries + entries[n..] == m.entries;
    }
  }

  lemma EnsureEntriesNext(pools: seq<Pool>, av: seq<Pool>, nodes: seq<Node>, entries: seq<Entry>, failing: set<string>,
      cloudFails: set<string>, n: nat)
    requires n < |entries| && EnsureEntries(pools, av, nodes, entries[..n], failing, cloudFails).error.Some?
    ensures EnsureEntries(pools, av, nodes, entries[..n + 1], failing, cloudFails)
        == EnsureEntries(pools, av, nodes, entries[..n], failing, cloudFails)
  {
    assert entries[..n + 1][..n] == entries[..n];
  }

  lemma {:induction false} EnsureEntriesStops(pools: seq<Pool>, av: seq<Pool>, nodes: seq<Node>, entries: seq<Entry>,
      failing: set<string>, cloudFails: set<string>, n: nat)
    requires n <= |entries| && EnsureEntries(pools, av, nodes, entries[..n], failing, cloudFails).error.Some?
    ensures EnsureEntries(pools, av, nodes, entries, failing, cloudFails)
        == EnsureEntries(pools, av, nodes, entries[..n], failing, cloudFails)
    decreases |entries| - n
  {
    if n < |entries| {
      EnsureEntriesNext(pools, av, nodes, entries, failing, cloudFails, n);
      EnsureEntriesStops(pools, av, nodes, entries, failing, cloudFails, n + 1);
    } else {
      assert entries[..n] == entries;
    }
  }
}

// What single handlers reach: the status an ensured allocation ends in, the move to another node, the removal from a
// node.
module Relocation {
  import opened Types
  import opened Availability
  import opened Allocations
  import opened OperatorNode
  import opened Speaker
  import opened Cluster
  import opened Ledger
  import opened Placement

  // ---- the status an allocation ends in ----

  // The operator of the entry's node is there but cannot take the address.
  ghost predicate OperatorRefuses(pools: seq<Pool>, nodes: seq<Node>, e: Entry, failing: set<string>) {
    OnHost(pools, e) && exists i :: 0 <= i < |nodes| && CannotTake(nodes[i], e.nodeName, HostSlot(pools, e), failing)
  }

  ghost predicate CloudRefuses(pools: seq<Pool>, e: Entry, cloudFails: set<string>) {
    PoolByName(pools, e.pool).Some? && PoolByName(pools, e.pool).value.hetzner && e.address in cloudFails
  }

  // Nodes that look the same from outside: names, readiness and interfaces.
  ghost predicate SameOutside(a: seq<Node>, b: seq<Node>) {
    |a| == |b| && forall i :: 0 <= i < |a| ==>
        a[i].name == b[i].name && a[i].ready == b[i].ready && a[i].operator.links == b[i].operator.links
  }

  // The error of an entry, judged by the nodes before the call.
  ghost function FaultOf(pools: seq<Pool>, nodes: seq<Node>, e: Entry, failing: set<string>,
      cloudFails: set<string>): Option<Error> {
    if PoolByName(pools, e.pool).None? then Some(PoolNotFound)
    else if OperatorRefuses(pools, nodes, e, failing) then Some(OperatorUnreachable)
    else if CloudRefuses(pools, e, cloudFails) then Some(CloudFailure)
    else None
  }

  lemma AllocateFailsIff(pools: seq<Pool>, nodes: seq<Node>, e: Entry, failing: set<string>, cloudFails: set<string>)
    ensures AllocateAddress(pools, nodes, e, failing, cloudFails).error == FaultOf(pools, nodes, e, failing, cloudFails)
    ensures SameOutside(nodes, AllocateAddress(pools, nodes, e, failing, cloudFails).nodes)
  {
    if OnHost(pools, e) {
      EnsureFailsIff(nodes, |nodes|, e.nodeName, HostSlot(pools, e), failing);
    }
    AllocateSame(pools, nodes, e, failing, cloudFails);
    var after := AllocateAddress(pools, nodes, e, failing, cloudFails).nodes;
    forall i | 0 <= i < |nodes|
      ensures after[i].name == nodes[i].name && after[i].ready == nodes[i].ready
          && after[i].operator.links == nodes[i].operator.links
    {
      assert SameBut(nodes[i], after[i], e.address);
    }
  }

  lemma SameFault(pools: seq<Pool>, a: seq<Node>, b: seq<Node>, e: Entry, failing: set<string>, cloudFails: set<string>)
    requires SameOutside(a, b)
    ensures FaultOf(pools, a, e, failing, cloudFails) == FaultOf(pools, b, e, failing, cloudFails)
  {
    if OnHost(pools, e) {
      forall i | 0 <= i < |a|
        ensures CannotTake(a[i], e.nodeName, HostSlot(pools, e), failing)
            == CannotTake(b[i], e.nodeName, HostSlot(pools, e), failing)
      {
      }
    }
  }

  ghost function FirstFault(pools: seq<Pool>, nodes: seq<Node>, entries: seq<Entry>, failing: set<string>,
      cloudFails: set<string>): Option<Error> {
    if entries == [] then None
    else
      var fault := FaultOf(pools, nodes, entries[0], failing, cloudFails);
      if fault.Some? then fault else FirstFault(pools, nodes, entries[1..], failing, cloudFails)
  }

  lemma {:induction false} FirstFaultLast(pools: seq<Pool>, nodes: seq<Node>, entries: seq<Entry>, failing: set<string>,
      cloudFails: set<string>)
    requires entries != []
    ensures var n := |entries| - 1;
            var before := FirstFault(pools, nodes, entries[..n], failing, cloudFails);
            FirstFault(pools, nodes, entries, failing, cloudFails)
            == if before.Some? then before else FaultOf(pools, nodes, entries[n], failing, cloudFails)
  {
    var n := |entries| - 1;
    if n > 0 {
      assert entries[..n][1..] == entries[1..][..n - 1];
      FirstFaultLast(pools, nodes, entries[1..], failing, cloudFails);
    }
  }

  // Ensuring stops at the first entry at fault, and the fault of each entry does not depend on the ones before it.
  lemma {:induction false} EnsureErrorIs(pools: seq<Pool>, av: seq<Pool>, nodes: seq<Node>, entries: seq<Entry>,
      failing: set<string>, cloudFails: set<string>)
    ensures var r := EnsureEntries(pools, av, nodes, entries, failing, cloudFails);
            r.error == FirstFault(pools, nodes, entries, failing, cloudFails) && SameOutside(nodes, r.nodes)
  {
    if entries != [] {
      var n := |entries| - 1;
      EnsureErrorIs(pools, av, nodes, entries[..n], failing, cloudFails);
      FirstFaultLast(pools, nodes, entries, failing, cloudFails);
      var r := EnsureEntries(pools, av, nodes, entries[..n], failing, cloudFails);
      if r.error.None? {
        AllocateFailsIff(pools, r.nodes, entries[n], failing, cloudFails);
        SameFault(pools, nodes, r.nodes, entries[n], failing, cloudFails);
      }
    }
  }

  lemma {:induction false} NoFaultIff(pools: seq<Pool>, nodes: seq<Node>, entries: seq<Entry>, failing: set<string>,
      cloudFails: set<string>)
    ensures FirstFault(pools, nodes, entries, failing, cloudFails).None?
            <==> forall e :: e in entries ==> FaultOf(pools, nodes, e, failing, cloudFails).None?
  {
    if entries != [] {
      assert entries == [entries[0]] + entries[1..];
      NoFaultIff(pools, nodes, entries[1..], failing, cloudFails);
    }
  }

  // The status an allocation of an existing service ends in: success exactly when no entry is at fault, to be moved
  // exactly when the first entry at fault is refused by its operator, error otherwise.
  lemma EnsuredStatusIs(s: State, key: Key, svc: Service, failing: set<string>, cloudFails: set<string>)
    requires key in s.allocs && svc.isLoadBalancer
    ensures var status := Ensure(s, key, Some(svc), failing, cloudFails).allocs[key].status;
            var fault := FirstFault(s.pools, s.nodes, s.allocs[key].entries, failing, cloudFails);
            && (status == Success <==>
                 forall e :: e in s.allocs[key].entries ==> FaultOf(s.pools, s.nodes, e, failing, cloudFails).None?)
            && (status == NodeError <==> fault == Some(OperatorUnreachable))
            && (status.Error? <==> fault == Some(PoolNotFound) || fault == Some(CloudFailure))
            && (status.Error? ==> fault == Some(status.reason))
  {
    var entries := s.allocs[key].entries;
    EnsureErrorIs(s.pools, s.avail, s.nodes, entries, failing, cloudFails);
    NoFaultIff(s.pools, s.nodes, entries, failing, cloudFails);
    FaultKinds(s.pools, s.nodes, entries, failing, cloudFails);
  }

  lemma {:induction false} FaultKinds(pools: seq<Pool>, nodes: seq<Node>, entries: seq<Entry>, failing: set<string>,
      cloudFails: set<string>)
    ensures FirstFault(pools, nodes, entries, failing, cloudFails) in {None, Some(PoolNotFound),
        Some(OperatorUnreachable), Some(CloudFailure)}
  {
    if entries != [] {
      FaultKinds(pools, nodes, entries[1..], failing, cloudFails);
    }
  }

  // ---- moving ----

  // Where ChangeAllocationNode puts an entry of a pool when it picked this node.
  ghost predicate MovedTo(pools: seq<Pool>, before: Entry, after: Entry, pick: Option<string>) {
    var p := PoolByName(pools, before.pool);
    && p.Some?
    && after.address == before.address && after.pool == before.pool && after.cloudProvider == before.cloudProvider
    && (p.value.HasHostNetwork() || p.value.hetzner ==> pick == Some(after.nodeName))
    && (!p.value.HasHostNetwork() && !p.value.hetzner ==> after.nodeName == "")
    && after.networkInterface == if p.value.HasHostNetwork() then p.value.InterfaceName() else ""
  }

  // A move without error takes every entry to the node picked for it; with every pool declared and every choice made
  // there is no error.
  lemma {:induction false} MoveMeaning(pools: seq<Pool>, entries: seq<Entry>, picks: seq<Option<string>>)
    requires |picks| == |entries|
    ensures var m := Move(pools, entries, picks);
            && (m.error.None? ==> !m.stopped && forall i :: 0 <= i < |entries| ==>
                 MovedTo(pools, entries[i], m.entries[i], picks[i]))
            && (m.stopped ==> m.error == Some(PoolNotFound))
            && ((forall i :: 0 <= i < |entries| ==> PoolByName(pools, entries[i].pool).Some? && picks[i].Some?) ==>
                 m.error.None?)
  {
    if entries != [] {
      var n := |entries| - 1;
      MoveMeaning(pools, entries[..n], picks[..n]);
    }
  }

  // The nodes picked for the entries on a host are ready, have the interface and are reachable.
  ghost predicate GoodChoice(s: State, e: Entry, pick: Option<string>) {
    && pick.Some?
    && (OnHost(s.pools, e) ==>
          exists i :: && 0 <= i < |s.nodes| && s.nodes[i].name == pick.value && s.nodes[i].ready
                      && HostSlot(s.pools, e).networkInterface in s.nodes[i].operator.links)
  }

  lemma MovedIsFine(s: State, before: Entry, after: Entry, pick: Option<string>)
    requires NodesSane(s.nodes) && MovedTo(s.pools, before, after, pick) && GoodChoice(s, before, pick)
    ensures FaultOf(s.pools, s.nodes, after, {}, {}).None? && Reachable(s.pools, s.nodes, after, {})
  {
    if OnHost(s.pools, after) {
      assert HostSlot(s.pools, after) == HostSlot(s.pools, before);
    }
  }

  // An allocation on a lost node recovers: moved to ready nodes and ensured while calls succeed, it ends in success,
  // with every address held by the node picked for it and by no other ready node.
  lemma MoveThenEnsureRecovers(s: State, key: Key, picks: seq<Option<string>>, svc: Service)
    requires LedgerAgrees(s) && PlacementHolds(s) && key in s.allocs && s.allocs[key].status == NodeError
    requires |picks| == |s.allocs[key].entries| && svc.isLoadBalancer
    requires forall i :: 0 <= i < |picks| ==> GoodChoice(s, s.allocs[key].entries[i], picks[i])
    ensures var t := Ensure(ChangeNode(s, key, picks), key, Some(svc), {}, {});
            var entries := s.allocs[key].entries;
            && t.allocs[key].status == Success
            && |t.allocs[key].entries| == |entries|
            && (forall i :: 0 <= i < |entries| ==> MovedTo(s.pools, entries[i], t.allocs[key].entries[i], picks[i]))
            && (forall e :: e in t.allocs[key].entries ==> Placed(t.pools, t.nodes, e))
  {
    var entries := s.allocs[key].entries;
    var u := ChangeNode(s, key, picks);
    var m := Move(s.pools, entries, picks);
    MoveMeaning(s.pools, entries, picks);
    EntriesHavePools(s, key);
    ChangeNodeKeepsPlacement(s, key, picks);
    assert u.allocs[key].entries == m.entries;
    forall e | e in m.entries
      ensures FaultOf(u.pools, u.nodes, e, {}, {}).None? && Reachable(u.pools, u.nodes, e, {})
    {
      var i :| 0 <= i < |m.entries| && m.entries[i] == e;
      MovedIsFine(s, entries[i], e, picks[i]);
    }
    EnsuredStatusIs(u, key, svc, {}, {});
    ChangeNodeKeepsLedger(s, key, picks);
    EnsureKeepsPlacement(u, key, Some(svc), {}, {});
  }

  lemma EntriesHavePools(s: State, key: Key)
    requires LedgerAgrees(s) && key in s.allocs
    ensures forall i :: 0 <= i < |s.allocs[key].entries| ==> PoolByName(s.pools, s.allocs[key].entries[i].pool).Some?
  {
    forall i | 0 <= i < |s.allocs[key].entries|
      ensures PoolByName(s.pools, s.allocs[key].entries[i].pool).Some?
    {
      assert Backed(s.pools, key.namespace, s.allocs[key].entries[i]);
    }
  }

  // ---- leaving a node ----

  ghost predicate OffNode(nodes: seq<Node>, name: string, x: Slot) {
    forall i :: 0 <= i < |nodes| && nodes[i].name == name ==> !Touches(nodes[i], x)
  }

  lemma RemoveTakesOff(nodes: seq<Node>, target: string, x: Slot, failing: set<string>)
    requires NodesSane(nodes) && target !in failing
    ensures OffNode(RemoveFromNode(nodes, target, x, failing).nodes, target, x)
  {
    var i := IndexOfNode(nodes, target);
    if i < |nodes| {
      assert OnOwnLinks(nodes[i]);
    }
  }

  lemma OffNodeSame(a: seq<Node>, b: seq<Node>, address: string, name: string, x: Slot)
    requires AllSameBut(a, b, address) && x.address != address && OffNode(a, name, x)
    ensures OffNode(b, name, x)
  {
    forall i | 0 <= i < |b| && b[i].name == name
      ensures !Touches(b[i], x)
    {
      assert SameBut(a[i], b[i], address);
    }
  }

  lemma FewerDistinct(entries: seq<Entry>, n: nat, i: nat)
    requires |entries| == n + 1 && i < n && Distinct(AddressList(entries))
    ensures Distinct(AddressList(entries[..n])) && entries[i].address != entries[n].address
  {
    assert AddressList(entries[..n]) == AddressList(entries)[..n];
    assert AddressList(entries)[i] != AddressList(entries)[n];
  }

  // Deallocating takes each address off the node it was on, if the operator of that node can be reached.
  lemma {:induction false} DeallocationLeavesNodes(nodes: seq<Node>, entries: seq<Entry>, failing: set<string>, i: nat)
    requires NodesSane(nodes) && Distinct(AddressList(entries)) && i < |entries|
    requires entries[i].networkInterface != "" && entries[i].nodeName !in failing
    ensures OffNode(RemoveEntries(nodes, entries, failing), entries[i].nodeName,
        Slot(entries[i].networkInterface, entries[i].address))
  {
    var n := |entries| - 1;
    var last := entries[n];
    var before := RemoveEntries(nodes, entries[..n], failing);
    var x := Slot(entries[i].networkInterface, entries[i].address);
    RemoveEntriesSane(nodes, entries[..n], failing);
    if i < n {
      FewerDistinct(entries, n, i);
      DeallocationLeavesNodes(nodes, entries[..n], failing, i);
      RemoveFromNodeMeaning(before, last.nodeName, Slot(last.networkInterface, last.address), failing);
      if last.networkInterface != "" {
        OffNodeSame(before, RemoveEntries(nodes, entries, failing), last.address, entries[i].nodeName, x);
      }
    } else {
      RemoveTakesOff(before, last.nodeName, x, failing);
    }
  }

  // The clean-up of a reconciled success allocation takes each removed address of a host pool off its node.
  lemma {:induction false} ReconcileLeavesNodes(pools: seq<Pool>, nodes: seq<Node>, removed: seq<Entry>,
      failing: set<string>, i: nat)
    requires NodesSane(nodes) && Distinct(AddressList(removed)) && i < |removed|
    requires OnHost(pools, removed[i]) && removed[i].nodeName !in failing
    ensures OffNode(DeallocateRemoved(pools, nodes, removed, failing), removed[i].nodeName, HostSlot(pools, removed[i]))
  {
    var n := |removed| - 1;
    var last := removed[n];
    var before := DeallocateRemoved(pools, nodes, removed[..n], failing);
    var x := HostSlot(pools, removed[i]);
    DeallocateRemovedSane(pools, nodes, removed[..n], failing);
    assert AddressList(removed[..n]) == AddressList(removed)[..n];
    if i < n {
      ReconcileLeavesNodes(pools, nodes, removed[..n], failing, i);
      assert AddressList(removed)[i] != AddressList(removed)[n];
      if OnHost(pools, last) {
        RemoveFromNodeMeaning(before, last.nodeName, HostSlot(pools, last), failing);
        OffNodeSame(before, DeallocateRemoved(pools, nodes, removed, failing), last.address, removed[i].nodeName, x);
      }
    } else {
      RemoveTakesOff(before, last.nodeName, x, failing);
    }
  }
}

// How a lost placement comes back: from any nodes whatever, once every ready node has been cleaned up and every
// allocation has been ensured.
module PlacementHeals {
  import opened Types
  import opened OperatorNode
  import opened Speaker
  import opened Cluster
  import opened Ledger
  import opened Placement

  // ---- the state as if nothing were placed yet ----

  // Every node not cleaned yet is taken as not ready, and every allocation not ensured yet as pending.
  function Asleep(nodes: seq<Node>, cleaned: set<string>): (r: seq<Node>)
    ensures |r| == |nodes|
    ensures forall i :: 0 <= i < |r| ==>
              r[i] == if nodes[i].name in cleaned then nodes[i] else nodes[i].(ready := false)
  {
    seq(|nodes|, i requires 0 <= i < |nodes| =>
      if nodes[i].name in cleaned then nodes[i] else nodes[i].(ready := false))
  }

  function Unsettled(allocs: map<Key, IPAllocation>, ensured: set<Key>): map<Key, IPAllocation> {
    map k | k in allocs :: if k in ensured then allocs[k] else allocs[k].(status := Pending)
  }

  function Shadow(s: State, cleaned: set<string>, ensured: set<Key>): State {
    s.(nodes := Asleep(s.nodes, cleaned), allocs := Unsettled(s.allocs, ensured))
  }

  // What is asked of the state: nodes with their own interfaces, and entries as the pools want them.
  ghost predicate Sound(s: State) {
    LedgerAgrees(s) && NodesSane(s.nodes) && forall k :: k in s.allocs ==> GoodEntries(s.pools, s.allocs[k].entries)
  }

  lemma ShadowLedger(s: State, cleaned: set<string>, ensured: set<Key>)
    requires LedgerAgrees(s)
    ensures LedgerAgrees(Shadow(s, cleaned, ensured))
  {
    var allocs := Unsettled(s.allocs, ensured);
    RelabelKeepsLedger(s, allocs);
    NodesDoNotMatter(s.(allocs := allocs), Asleep(s.nodes, cleaned));
  }

  lemma SaneShadow(nodes: seq<Node>, cleaned: set<string>)
    ensures NodesSane(Asleep(nodes, cleaned)) <==> NodesSane(nodes)
  {
    var asleep := Asleep(nodes, cleaned);
    forall i | 0 <= i < |nodes|
      ensures OnOwnLinks(asleep[i]) <==> OnOwnLinks(nodes[i])
    {
      assert forall x :: Touches(asleep[i], x) <==> Touches(nodes[i], x);
    }
    assert forall i :: 0 <= i < |nodes| ==> asleep[i].name == nodes[i].name;
  }

  // Then the placement holds from the start: there is nothing to hold.
  lemma ShadowStart(s: State)
    requires Sound(s)
    ensures PlacementHolds(Shadow(s, {}, {}))
  {
    SaneShadow(s.nodes, {});
  }

  // ---- cleaning up ----

  ghost predicate Cleans(s: State, e: Event) {
    && e.OperatorReady? && Elements(e.order) == s.allocs.Keys && CleanArrival(s.pools, e.operator)
    && NodeReady(s, e.node, e.operator, e.order).error.None?
  }

  lemma {:induction false} SameKeep(a: map<Key, IPAllocation>, b: map<Key, IPAllocation>, order: seq<Key>, node: string)
    requires forall k :: k in order ==> k in a && k in b && a[k].entries == b[k].entries
    ensures KeepList(a, order, node) == KeepList(b, order, node)
  {
    if order != [] {
      var n := |order| - 1;
      assert order[n] in order;
      SameKeep(a, b, order[..n], node);
    }
  }

  // The node that arrives is the same in the state and in its shadow, and so is the outcome of its cleanup.
  lemma SameArrival(s: State, e: Event, cleaned: set<string>)
    requires e.OperatorReady? && Elements(e.order) == s.allocs.Keys
    ensures var t := Shadow(s, cleaned, {});
            var i := IndexOfNode(s.nodes, e.node);
            var a, b := NodeReady(s, e.node, e.operator, e.order), NodeReady(t, e.node, e.operator, e.order);
            && IndexOfNode(t.nodes, e.node) == i
            && InPlace(s.nodes, a.nodes, i, Arrived(s, e)) && InPlace(t.nodes, b.nodes, i, Arrived(s, e))
            && a.error == b.error
  {
    var t := Shadow(s, cleaned, {});
    ReadyArrives(s, e.node, e.operator, e.order);
    ReadyArrives(t, e.node, e.operator, e.order);
    IndexOfNodeIs(t.nodes + [Arrived(s, e)], IndexOfNode(s.nodes, e.node), e.node);
    SameKeep(s.allocs, t.allocs, e.order, e.node);
  }

  ghost function Arrived(s: State, e: Event): Node
    requires e.OperatorReady? && Elements(e.order) == s.allocs.Keys
  {
    assert forall k :: k in e.order ==> k in Elements(e.order);
    Node(e.node, true, Cleanup(e.operator, KeepList(s.allocs, e.order, e.node), {}).operator)
  }

  lemma WakeOne(nodes: seq<Node>, a: seq<Node>, b: seq<Node>, i: nat, n: Node, cleaned: set<string>)
    requires OneOperatorPerNode(nodes) && InPlace(nodes, a, i, n) && InPlace(Asleep(nodes, cleaned), b, i, n)
    ensures b == Asleep(a, cleaned + {n.name})
  {
    forall j | 0 <= j < |a|
      ensures b[j] == Asleep(a, cleaned + {n.name})[j]
    {
      if j != i {
        assert a[j] == nodes[j] && b[j] == Asleep(nodes, cleaned)[j] && nodes[j].name != n.name;
      }
    }
  }

  // A cleanup makes no difference between the state and its shadow, and wakes the node in the shadow.
  lemma CleanShadow(s: State, e: Event, cleaned: set<string>)
    requires Cleans(s, e) && NodesSane(s.nodes)
    ensures Cleans(Shadow(s, cleaned, {}), e)
    ensures Apply(Shadow(s, cleaned, {}), e) == Shadow(Apply(s, e), cleaned + {e.node}, {})
  {
    var t := Shadow(s, cleaned, {});
    SameArrival(s, e, cleaned);
    var a, b := NodeReady(s, e.node, e.operator, e.order).nodes, NodeReady(t, e.node, e.operator, e.order).nodes;
    WakeOne(s.nodes, a, b, IndexOfNode(s.nodes, e.node), Arrived(s, e), cleaned);
  }

  lemma CleanStep(s: State, e: Event, cleaned: set<string>)
    requires Sound(s) && PlacementHolds(Shadow(s, cleaned, {})) && Cleans(s, e)
    ensures Sound(Apply(s, e)) && PlacementHolds(Shadow(Apply(s, e), cleaned + {e.node}, {}))
  {
    var t := Shadow(s, cleaned, {});
    CleanShadow(s, e, cleaned);
    ShadowLedger(s, cleaned, {});
    ReadyKeepsPlacementIff(t, e.node, e.operator, e.order);
    SaneShadow(Apply(s, e).nodes, cleaned + {e.node});
    NodesDoNotMatter(s, Apply(s, e).nodes);
  }

  ghost function Cleaned(events: seq<Event>): set<string> {
    if events == [] then {}
    else
      var n := |events| - 1;
      Cleaned(events[..n]) + (if events[n].OperatorReady? then {events[n].node} else {})
  }

  ghost predicate CleaningRun(s: State, events: seq<Event>) {
    events == [] || (CleaningRun(s, events[..|events| - 1])
                     && Cleans(Run(s, events[..|events| - 1]), events[|events| - 1]))
  }

  // Nodes that were not cleaned are as they were.
  ghost predicate LeftAlone(before: seq<Node>, after: seq<Node>, cleaned: set<string>) {
    forall n :: n in after && n.name !in cleaned ==> n in before
  }

  lemma CleanLeaves(s: State, e: Event)
    requires Cleans(s, e)
    ensures LeftAlone(s.nodes, Apply(s, e).nodes, {e.node}) && Apply(s, e).allocs == s.allocs
  {
    ReadyArrives(s, e.node, e.operator, e.order);
    var after := Apply(s, e).nodes;
    forall n | n in after && n.name != e.node
      ensures n in s.nodes
    {
      var j :| 0 <= j < |after| && after[j] == n;
      assert j != IndexOfNode(s.nodes, e.node) && after[j] == s.nodes[j];
    }
  }

  lemma LeftAloneTwice(a: seq<Node>, b: seq<Node>, c: seq<Node>, first: set<string>, second: set<string>)
    requires LeftAlone(a, b, first) && LeftAlone(b, c, second)
    ensures LeftAlone(a, c, first + second)
  {
  }

  lemma {:induction false} CleaningSettles(s: State, events: seq<Event>)
    requires Sound(s) && CleaningRun(s, events)
    ensures Sound(Run(s, events)) && PlacementHolds(Shadow(Run(s, events), Cleaned(events), {}))
  {
    if events == [] {
      ShadowStart(s);
    } else {
      var n := |events| - 1;
      CleaningSettles(s, events[..n]);
      CleanStep(Run(s, events[..n]), events[n], Cleaned(events[..n]));
    }
  }

  lemma {:induction false} CleaningLeaves(s: State, events: seq<Event>)
    requires CleaningRun(s, events)
    ensures Run(s, events).allocs == s.allocs && LeftAlone(s.nodes, Run(s, events).nodes, Cleaned(events))
  {
    if events != [] {
      var n := |events| - 1;
      var before := Run(s, events[..n]);
      CleaningLeaves(s, events[..n]);
      CleanLeaves(before, events[n]);
      LeftAloneTwice(s.nodes, before.nodes, Apply(before, events[n]).nodes, Cleaned(events[..n]), {events[n].node});
    }
  }

  // ---- ensuring ----

  ghost function Pended(s: State, ensured: set<Key>): State {
    s.(allocs := Unsettled(s.allocs, ensured))
  }

  // The allocation of an existing service is ensured without error, its nodes have operators, and no unreachable ready
  // node has one of its addresses.
  ghost predicate Settles(s: State, e: Event) {
    && e.IPsEnsured? && e.service.Some? && e.service.value.isLoadBalancer
    && EndsWell(s, e.key, e.failing, e.cloudFails)
    && forall x :: x in s.allocs[e.key].entries ==> Reachable(s.pools, s.nodes, x, e.failing)
  }

  lemma SettleShadow(s: State, e: Event, ensured: set<Key>)
    requires Settles(s, e)
    ensures Settles(Pended(s, ensured), e)
    ensures Apply(Pended(s, ensured), e) == Pended(Apply(s, e), ensured + {e.key})
  {
    var o := s.allocs[e.key].(status := Success);
    assert Unsettled(s.allocs, ensured)[e.key := o] == Unsettled(s.allocs[e.key := o], ensured + {e.key});
  }

  ghost function EnsuredKeys(events: seq<Event>): set<Key> {
    if events == [] then {}
    else
      var n := |events| - 1;
      EnsuredKeys(events[..n]) + (if events[n].IPsEnsured? then {events[n].key} else {})
  }

  ghost predicate SettlingRun(s: State, events: seq<Event>) {
    events == [] || (SettlingRun(s, events[..|events| - 1])
                     && Settles(Run(s, events[..|events| - 1]), events[|events| - 1]))
  }

  lemma SettleStep(s: State, e: Event, ensured: set<Key>)
    requires LedgerAgrees(s) && PlacementHolds(Pended(s, ensured)) && Settles(s, e)
    ensures LedgerAgrees(Apply(s, e)) && PlacementHolds(Pended(Apply(s, e), ensured + {e.key}))
  {
    var t := Pended(s, ensured);
    SettleShadow(s, e, ensured);
    RelabelKeepsLedger(s, t.allocs);
    EnsureKeepsPlacement(t, e.key, e.service, e.failing, e.cloudFails);
    EnsureKeepsLedger(s, e.key, e.service, e.failing, e.cloudFails);
  }

  lemma {:induction false} SettlingPlaces(s: State, events: seq<Event>)
    requires LedgerAgrees(s) && PlacementHolds(Pended(s, {})) && SettlingRun(s, events)
    ensures LedgerAgrees(Run(s, events)) && PlacementHolds(Pended(Run(s, events), EnsuredKeys(events)))
  {
    if events != [] {
      var n := |events| - 1;
      SettlingPlaces(s, events[..n]);
      SettleStep(Run(s, events[..n]), events[n], EnsuredKeys(events[..n]));
    }
  }

  // The objects stay, and those that were ensured are in success.
  ghost predicate Succeeded(before: map<Key, IPAllocation>, after: map<Key, IPAllocation>, ensured: set<Key>) {
    after.Keys == before.Keys && forall k :: k in ensured && k in after ==> after[k].status == Success
  }

  lemma {:induction false} AllSucceed(s: State, events: seq<Event>)
    requires SettlingRun(s, events)
    ensures Succeeded(s.allocs, Run(s, events).allocs, EnsuredKeys(events))
  {
    if events != [] {
      var n := |events| - 1;
      AllSucceed(s, events[..n]);
      SettleSucceeds(s.allocs, Run(s, events[..n]), events[n], EnsuredKeys(events[..n]));
    }
  }

  lemma SettleSucceeds(start: map<Key, IPAllocation>, s: State, e: Event, ensured: set<Key>)
    requires Settles(s, e) && Succeeded(start, s.allocs, ensured)
    ensures Succeeded(start, Apply(s, e).allocs, ensured + {e.key})
  {
  }

  // ---- healed ----

  lemma AllAwake(s: State, cleaned: set<string>)
    requires forall n :: n in s.nodes && n.ready ==> n.name in cleaned
    ensures Shadow(s, cleaned, {}) == Pended(s, {})
  {
    assert Asleep(s.nodes, cleaned) == s.nodes;
  }

  lemma AllEnsured(s: State, ensured: set<Key>)
    requires forall k :: k in s.allocs ==> k in ensured
    ensures Pended(s, ensured) == s
  {
    assert Unsettled(s.allocs, ensured) == s.allocs;
  }

  // Whatever the nodes had, on whatever interface: once every ready node was cleaned up as a clean arrival, and then
  // every allocation was ensured with its nodes listed and reachable, each address of each allocation is where it
  // belongs and in no other place on a ready node.
  lemma HealedPlacement(s: State, cleanings: seq<Event>, settlings: seq<Event>)
    requires Sound(s) && CleaningRun(s, cleanings) && SettlingRun(Run(s, cleanings), settlings)
    requires forall n :: n in s.nodes && n.ready ==> n.name in Cleaned(cleanings)
    requires forall k :: k in s.allocs ==> k in EnsuredKeys(settlings)
    ensures var t := Run(Run(s, cleanings), settlings);
            && LedgerAgrees(t) && PlacementHolds(t)
            && forall k :: k in t.allocs ==> t.allocs[k].status == Success
  {
    var m := Run(s, cleanings);
    CleaningLeaves(s, cleanings);
    CleaningSettles(s, cleanings);
    AllAwake(m, Cleaned(cleanings));
    SettlingPlaces(m, settlings);
    AllSucceed(m, settlings);
    AllEnsured(Run(m, settlings), EnsuredKeys(settlings));
  }
}

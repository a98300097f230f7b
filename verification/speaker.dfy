// speaker.go: the controller's calls to the operators, each an atomic step on the state of one node.
// `failing` are the nodes whose operator cannot be reached in this call.
module Speaker {
  import opened Types
  import opened OperatorNode

  // The operator pod of a cluster node.
  datatype Node = Node(name: string, ready: bool, operator: Operator)

  datatype Reply = Reply(nodes: seq<Node>, error: Option<Error>)

  function IndexOfNode(nodes: seq<Node>, name: string): (i: nat)
    ensures i <= |nodes|
    ensures i < |nodes| ==> nodes[i].name == name
    ensures forall j :: 0 <= j < i ==> nodes[j].name != name
  {
    if nodes == [] || nodes[0].name == name then 0 else 1 + IndexOfNode(nodes[1..], name)
  }

  // One turn of the loop of EnsureIPAllocationOnNode.
  function EnsureAt(nodes: seq<Node>, i: nat, target: string, s: Slot, failing: set<string>): Reply
    requires i < |nodes|
  {
    var n := nodes[i];
    if n.name == target then
      var r := Add(n.operator, s, {});
      if !n.ready || n.name in failing || !r.ok then Reply(nodes, Some(OperatorUnreachable))
      else Reply(nodes[i := n.(operator := r.operator)], None)
    else if n.ready && n.name !in failing then
      // a failed remove is only logged
      Reply(nodes[i := n.(operator := Remove(n.operator, s, {}).operator)], None)
    else Reply(nodes, None)
  }

  function EnsureUpTo(nodes: seq<Node>, k: nat, target: string, s: Slot, failing: set<string>): (r: Reply)
    requires k <= |nodes|
    ensures |r.nodes| == |nodes|
  {
    if k == 0 then Reply(nodes, None)
    else
      var r := EnsureUpTo(nodes, k - 1, target, s, failing);
      if r.error.Some? then r else EnsureAt(r.nodes, k - 1, target, s, failing)
  }

  // EnsureIPAllocationOnNode: add on the target, remove from every other ready node, stop when the target fails.
  function EnsureOnNode(nodes: seq<Node>, target: string, s: Slot, failing: set<string>): Reply {
    EnsureUpTo(nodes, |nodes|, target, s, failing)
  }

  function RemoveFromNode(nodes: seq<Node>, target: string, s: Slot, failing: set<string>): Reply {
    var i := IndexOfNode(nodes, target);
    if i == |nodes| || target in failing || !Remove(nodes[i].operator, s, {}).ok
        then Reply(nodes, Some(OperatorUnreachable))
    else Reply(nodes[i := nodes[i].(operator := Remove(nodes[i].operator, s, {}).operator)], None)
  }

  function DoCleanup(nodes: seq<Node>, target: string, keep: seq<Slot>, failing: set<string>): Reply {
    var i := IndexOfNode(nodes, target);
    if i == |nodes| || target in failing then Reply(nodes, Some(OperatorUnreachable))
    else
      var r := Cleanup(nodes[i].operator, keep, {});
      Reply(nodes[i := nodes[i].(operator := r.operator)], if r.ok then None else Some(OperatorUnreachable))
  }

  // ---- meaning ----

  predicate Holds(n: Node, s: Slot) {
    s in n.operator.table && s in n.operator.listed
  }

  // The address is on the node's interface, or its operator would put it back there.
  predicate Touches(n: Node, s: Slot) {
    s in n.operator.table || s in n.operator.listed
  }

  ghost predicate OneOperatorPerNode(nodes: seq<Node>) {
    forall i, j :: 0 <= i < j < |nodes| ==> nodes[i].name != nodes[j].name
  }

  // Addresses only sit on interfaces the node has.
  ghost predicate OnOwnLinks(n: Node) {
    forall s :: Touches(n, s) ==> s.networkInterface in n.operator.links
  }

  // The named node is ready and holds the slot; no ready node has anything to do with its address in any other place,
  // on another node or on another interface.
  ghost predicate Exclusive(nodes: seq<Node>, target: string, s: Slot) {
    && (exists i :: 0 <= i < |nodes| && nodes[i].name == target && nodes[i].ready && Holds(nodes[i], s))
    && (forall i, x :: HasReady(nodes, i, x) && x.address == s.address ==> nodes[i].name == target && x == s)
  }

  // Node i is ready and has the slot.
  ghost predicate HasReady(nodes: seq<Node>, i: int, x: Slot) {
    0 <= i < |nodes| && nodes[i].ready && Touches(nodes[i], x)
  }

  // Before a call: every ready node that has the address has it in this very slot, and is the target or reachable.
  ghost predicate Clearable(nodes: seq<Node>, target: string, s: Slot, failing: set<string>) {
    && (exists i :: 0 <= i < |nodes| && nodes[i].name == target)
    && (forall i, x :: HasReady(nodes, i, x) && x.address == s.address ==>
         x == s && (nodes[i].name == target || nodes[i].name !in failing))
  }

  // b is a with nothing changed but the place of slots at the given address.
  ghost predicate SameBut(a: Node, b: Node, address: string) {
    && a.name == b.name && a.ready == b.ready && a.operator.links == b.operator.links
    && (forall x: Slot :: x.address != address ==> (Holds(a, x) <==> Holds(b, x)) && (Touches(a, x) <==> Touches(b, x)))
    && (OnOwnLinks(a) ==> OnOwnLinks(b))
  }

  ghost predicate AllSameBut(a: seq<Node>, b: seq<Node>, address: string) {
    |a| == |b| && forall i :: 0 <= i < |a| ==> SameBut(a[i], b[i], address)
  }

  lemma AddSameBut(n: Node, s: Slot)
    ensures SameBut(n, n.(operator := Add(n.operator, s, {}).operator), s.address)
  {
  }

  lemma RemoveSameBut(n: Node, s: Slot)
    ensures SameBut(n, n.(operator := Remove(n.operator, s, {}).operator), s.address)
  {
  }

  // b has nothing that a does not have, but perhaps s.
  ghost predicate NothingNewBut(a: Node, b: Node, s: Slot) {
    forall x :: Touches(b, x) ==> Touches(a, x) || x == s
  }

  // What the loop has done to node i after its turn.
  ghost predicate Turned(before: Node, after: Node, target: string, s: Slot, failing: set<string>) {
    && SameBut(before, after, s.address)
    && (before.name == target ==>
         before.ready && target !in failing && s.networkInterface in before.operator.links && Holds(after, s))
    && (before.name != target && before.ready && before.name !in failing && OnOwnLinks(before) ==> !Touches(after, s))
    && (before.name != target && (before.name in failing || !before.ready) ==> after == before)
    && (forall x :: x != s ==> (Touches(after, x) <==> Touches(before, x)))
  }

  // The target cannot take the address: not ready, not reachable or without the interface.
  predicate CannotTake(n: Node, target: string, s: Slot, failing: set<string>) {
    n.name == target && !(n.ready && target !in failing && s.networkInterface in n.operator.links)
  }

  lemma EnsureAtMeaning(nodes: seq<Node>, i: nat, target: string, s: Slot, failing: set<string>)
    requires i < |nodes|
    ensures var r := EnsureAt(nodes, i, target, s, failing);
            && |r.nodes| == |nodes|
            && (forall j :: 0 <= j < |nodes| && j != i ==> r.nodes[j] == nodes[j])
            && SameBut(nodes[i], r.nodes[i], s.address)
            && (r.error.None? ==> Turned(nodes[i], r.nodes[i], target, s, failing))
            && NothingNewBut(nodes[i], r.nodes[i], s)
            && (nodes[i].name != target ==> forall x :: Touches(r.nodes[i], x) ==> Touches(nodes[i], x))
            && (r.error.Some? <==> CannotTake(nodes[i], target, s, failing))
            && (r.error.Some? ==> r == Reply(nodes, Some(OperatorUnreachable)))
  {
    AddSameBut(nodes[i], s);
    RemoveSameBut(nodes[i], s);
    SameAsItself(nodes[i], s.address);
  }

  lemma SameAsItself(n: Node, address: string)
    ensures SameBut(n, n, address)
  {
  }

  lemma {:induction false} EnsureUpToAt(nodes: seq<Node>, k: nat, target: string, s: Slot, failing: set<string>, i: nat)
    requires k <= |nodes| && i < |nodes|
    ensures var r := EnsureUpTo(nodes, k, target, s, failing);
            && SameBut(nodes[i], r.nodes[i], s.address)
            && NothingNewBut(nodes[i], r.nodes[i], s)
            && (k <= i ==> r.nodes[i] == nodes[i])
            && (r.error.None? && i < k ==> Turned(nodes[i], r.nodes[i], target, s, failing))
  {
    if k == 0 {
      SameAsItself(nodes[i], s.address);
    } else {
      EnsureUpToAt(nodes, k - 1, target, s, failing, i);
      var r := EnsureUpTo(nodes, k - 1, target, s, failing);
      if r.error.None? {
        EnsureAtMeaning(r.nodes, k - 1, target, s, failing);
      }
    }
  }

  // The call fails exactly when the target has an operator that cannot take the address.
  lemma {:induction false} EnsureFailsIff(nodes: seq<Node>, k: nat, target: string, s: Slot, failing: set<string>)
    requires k <= |nodes|
    ensures var r := EnsureUpTo(nodes, k, target, s, failing);
            && (r.error.Some? <==> exists i :: 0 <= i < k && CannotTake(nodes[i], target, s, failing))
            && (r.error.Some? ==> r.error == Some(OperatorUnreachable))
  {
    if k > 0 {
      EnsureFailsIff(nodes, k - 1, target, s, failing);
      EnsureUpToAt(nodes, k - 1, target, s, failing, k - 1);
      var r := EnsureUpTo(nodes, k - 1, target, s, failing);
      EnsureAtMeaning(r.nodes, k - 1, target, s, failing);
    }
  }

  lemma EnsureMeaning(nodes: seq<Node>, target: string, s: Slot, failing: set<string>)
    ensures var r := EnsureOnNode(nodes, target, s, failing);
            && AllSameBut(nodes, r.nodes, s.address)
            && (forall i :: 0 <= i < |nodes| ==> NothingNewBut(nodes[i], r.nodes[i], s))
            && (r.error.None? ==> forall i :: 0 <= i < |nodes| ==> Turned(nodes[i], r.nodes[i], target, s, failing))
  {
    forall i | 0 <= i < |nodes|
      ensures SameBut(nodes[i], EnsureOnNode(nodes, target, s, failing).nodes[i], s.address)
      ensures NothingNewBut(nodes[i], EnsureOnNode(nodes, target, s, failing).nodes[i], s)
    {
      EnsureUpToAt(nodes, |nodes|, target, s, failing, i);
    }
    forall i | 0 <= i < |nodes| && EnsureOnNode(nodes, target, s, failing).error.None?
      ensures Turned(nodes[i], EnsureOnNode(nodes, target, s, failing).nodes[i], target, s, failing)
    {
      EnsureUpToAt(nodes, |nodes|, target, s, failing, i);
    }
  }

  // When the call fails at an operator on the target, the nodes before it in the list have had their turn and the
  // others, this one included, are as they were.
  lemma EnsureStopsThere(nodes: seq<Node>, target: string, s: Slot, failing: set<string>, j: nat)
    requires j < |nodes| && CannotTake(nodes[j], target, s, failing)
    requires forall i :: 0 <= i < j ==> !CannotTake(nodes[i], target, s, failing)
    ensures var r := EnsureOnNode(nodes, target, s, failing);
            && |r.nodes| == |nodes| && r.error == Some(OperatorUnreachable)
            && (forall i :: 0 <= i < j ==> Turned(nodes[i], r.nodes[i], target, s, failing))
            && (forall i :: j <= i < |nodes| ==> r.nodes[i] == nodes[i])
  {
    EnsureFailsIff(nodes, j, target, s, failing);
    var r := EnsureUpTo(nodes, j, target, s, failing);
    forall i | 0 <= i < |nodes|
      ensures i < j ==> Turned(nodes[i], r.nodes[i], target, s, failing)
      ensures i >= j ==> r.nodes[i] == nodes[i]
    {
      EnsureUpToAt(nodes, j, target, s, failing, i);
    }
    EnsureAtMeaning(r.nodes, j, target, s, failing);
    FailureStays(nodes, j + 1, target, s, failing);
  }

  lemma {:induction false} FailureStays(nodes: seq<Node>, k: nat, target: string, s: Slot, failing: set<string>)
    requires k <= |nodes| && EnsureUpTo(nodes, k, target, s, failing).error.Some?
    ensures EnsureOnNode(nodes, target, s, failing) == EnsureUpTo(nodes, k, target, s, failing)
    decreases |nodes| - k
  {
    if k < |nodes| {
      FailureStays(nodes, k + 1, target, s, failing);
    }
  }

  // When the call reports success, the address is on the named node and nowhere else on a ready node exactly when,
  // before the call, the named node had an operator, and every ready node that had the address had it on this
  // interface and was reachable.
  lemma EnsureExclusiveIff(nodes: seq<Node>, target: string, s: Slot, failing: set<string>)
    requires NodesSane(nodes)
    ensures var r := EnsureOnNode(nodes, target, s, failing);
            r.error.None? ==> (Exclusive(r.nodes, target, s) <==> Clearable(nodes, target, s, failing))
  {
    EnsureMeaning(nodes, target, s, failing);
    var r := EnsureOnNode(nodes, target, s, failing);
    if r.error.None? {
      forall i | 0 <= i < |nodes|
        ensures r.nodes[i].name == nodes[i].name && r.nodes[i].ready == nodes[i].ready
            && Turned(nodes[i], r.nodes[i], target, s, failing)
      {
        assert SameBut(nodes[i], r.nodes[i], s.address);
      }
      if Clearable(nodes, target, s, failing) {
        ClearedIsExclusive(nodes, r.nodes, target, s, failing);
      }
      if Exclusive(r.nodes, target, s) {
        ExclusiveWasClearable(nodes, r.nodes, target, s, failing);
      }
    }
  }

  ghost predicate AllTurned(nodes: seq<Node>, after: seq<Node>, target: string, s: Slot, failing: set<string>) {
    && |after| == |nodes|
    && forall i :: 0 <= i < |nodes| ==>
         after[i].name == nodes[i].name && after[i].ready == nodes[i].ready
             && Turned(nodes[i], after[i], target, s, failing)
  }

  lemma ClearedIsExclusive(nodes: seq<Node>, after: seq<Node>, target: string, s: Slot, failing: set<string>)
    requires NodesSane(nodes) && AllTurned(nodes, after, target, s, failing) && Clearable(nodes, target, s, failing)
    ensures Exclusive(after, target, s)
  {
    forall i, x | HasReady(after, i, x) && x.address == s.address
      ensures after[i].name == target && x == s
    {
      assert Turned(nodes[i], after[i], target, s, failing) && OnOwnLinks(nodes[i]);
      if x != s {
        assert HasReady(nodes, i, x);
      } else if after[i].name != target {
        assert nodes[i].name in failing && after[i] == nodes[i];
        assert HasReady(nodes, i, x);
      }
    }
  }

  lemma ExclusiveWasClearable(nodes: seq<Node>, after: seq<Node>, target: string, s: Slot, failing: set<string>)
    requires AllTurned(nodes, after, target, s, failing) && Exclusive(after, target, s)
    ensures Clearable(nodes, target, s, failing)
  {
    var t :| 0 <= t < |after| && after[t].name == target && after[t].ready && Holds(after[t], s);
    assert nodes[t].name == target;
    forall i, x | HasReady(nodes, i, x) && x.address == s.address
      ensures x == s && (nodes[i].name == target || nodes[i].name !in failing)
    {
      assert Turned(nodes[i], after[i], target, s, failing);
      if x != s || (nodes[i].name != target && nodes[i].name in failing) {
        assert HasReady(after, i, x);
      }
    }
  }

  // A removal takes the slot off the first operator on the target and changes nothing else, and fails, changing
  // nothing at all, exactly when there is none, it cannot be reached or it does not have the interface.
  lemma RemoveFromNodeMeaning(nodes: seq<Node>, target: string, s: Slot, failing: set<string>)
    ensures var r := RemoveFromNode(nodes, target, s, failing);
            var i := IndexOfNode(nodes, target);
            && AllSameBut(nodes, r.nodes, s.address)
            && (r.error.Some? <==> i == |nodes| || target in failing || s.networkInterface !in nodes[i].operator.links)
            && (r.error.Some? ==> r.nodes == nodes)
            && (r.error.None? ==> !Touches(r.nodes[i], s))
            && (forall j :: 0 <= j < |nodes| && j != i ==> r.nodes[j] == nodes[j])
            && (forall j, x :: 0 <= j < |nodes| && x != s ==> (Touches(r.nodes[j], x) <==> Touches(nodes[j], x)))
            && (forall j, x :: 0 <= j < |nodes| && Touches(r.nodes[j], x) ==> Touches(nodes[j], x))
  {
    forall j | 0 <= j < |nodes|
      ensures SameBut(nodes[j], RemoveFromNode(nodes, target, s, failing).nodes[j], s.address)
    {
      RemoveSameBut(nodes[j], s);
      SameAsItself(nodes[j], s.address);
    }
  }

  // The exclusive places of other addresses are neither disturbed nor made.
  lemma ExclusiveSame(a: seq<Node>, b: seq<Node>, address: string, target: string, s: Slot)
    requires AllSameBut(a, b, address) && s.address != address
    ensures Exclusive(a, target, s) <==> Exclusive(b, target, s)
  {
    forall i | 0 <= i < |a|
      ensures a[i].name == b[i].name && a[i].ready == b[i].ready
      ensures forall x: Slot :: x.address == s.address ==>
          (Holds(a[i], x) <==> Holds(b[i], x)) && (Touches(a[i], x) <==> Touches(b[i], x))
    {
      assert SameBut(a[i], b[i], address);
    }
    assert forall i, x: Slot :: x.address == s.address ==> (HasReady(a, i, x) <==> HasReady(b, i, x));
  }

  // One operator per node, addresses only on interfaces the node has, and every interface has a name.
  ghost predicate NodesSane(nodes: seq<Node>) {
    OneOperatorPerNode(nodes) && forall i :: 0 <= i < |nodes| ==> OnOwnLinks(nodes[i]) && "" !in nodes[i].operator.links
  }

  lemma SaneSame(a: seq<Node>, b: seq<Node>, address: string)
    requires AllSameBut(a, b, address) && NodesSane(a)
    ensures NodesSane(b)
  {
    forall i | 0 <= i < |a|
      ensures a[i].name == b[i].name && OnOwnLinks(b[i])
    {
      assert SameBut(a[i], b[i], address);
    }
  }
}

// Concrete runs in which the placement fails.
module PlacementFailures {
  import opened Types
  import opened Availability
  import opened Allocations
  import opened OperatorNode
  import opened Speaker
  import opened Cluster
  import opened Ledger
  import opened LedgerResults
  import opened Placement
  import opened PoolEdit
  import opened PoolLife
  import opened Failures

  function OnInterface(networkInterface: string): Pool {
    Pool("p", ["a"], [], Some(HostNetwork(true, networkInterface)), false)
  }

  // The pool's one address in one allocation.
  function Given(p: Pool, e: Entry, status: Status, nodes: seq<Node>): State {
    State([p], [], map[FIRST := IPAllocation(Persistent, [e], status)], [], nodes)
  }

  lemma GivenIsReached(p: Pool, nodes: seq<Node>, node: string)
    requires p.name == "p" && p.addresses == ["a"] && p.allowedNamespaces == []
    ensures Apply(Fresh([p]).(nodes := nodes), Asked(FIRST, "a", Some(node)))
            == Given(p, AssignNode(p, Entry("a", "", "", "", "p"), Some(node)), Pending, nodes)
  {
    FreshOne(p);
    var e := AssignNode(p, Entry("a", "", "", "", "p"), Some(node));
    AskLast(Fresh([p]).(nodes := nodes), p, FIRST, "a", Some(node));
    assert map[][FIRST := Holding([e])] == map[FIRST := Holding([e])];
  }

  // Patching the one entry of that allocation for its own address.
  lemma PatchGiven(p: Pool, e: Entry, status: Status, nodes: seq<Node>, node: string)
    requires p.name == "p" && p.addresses == ["a"] && p.allowedNamespaces == [] && e.address == "a"
        && AssignNode(p, e, Some(node)) != e
    ensures Apply(Given(p, e, status, nodes), Reconciled(FIRST, Asks("a"), [Some(node)], true, {}))
            == Given(p, AssignNode(p, e, Some(node)), Pending, nodes)
  {
    var s := Given(p, e, status, nodes);
    var moved := AssignNode(p, e, Some(node));
    BuildOne([p], [], "ns", [e], "a", Some(node));
    assert PoolOfAddress([p], "ns", "a") == Some(p);
    assert [] + [moved] == [moved];
    assert Build([p], [], "ns", [e], ["a"], [Some(node)]) == Built([], [moved], None);
    assert [e][..0] == [];
    assert Dropped([e], [moved]) == [];
    assert [moved] != [e];
    var o := IPAllocation(Persistent, [moved], Pending);
    assert Patch([p], [], "ns", s.allocs[FIRST], ["a"], [Some(node)], true) == Patched([], o, [], None, None, true);
    assert s.allocs[FIRST := o] == map[FIRST := o];
  }

  // Ensuring it.
  lemma EnsureGiven(p: Pool, e: Entry, status: Status, nodes: seq<Node>, failing: set<string>)
    requires p.name == "p" && p.HasHostNetwork() && !p.hetzner && e.address == "a" && e.pool == "p"
    ensures var r := EnsureOnNode(nodes, e.nodeName, Slot(p.InterfaceName(), "a"), failing);
            Apply(Given(p, e, status, nodes), IPsEnsured(FIRST, Some(Asks("a")), failing, {}))
            == Given(p, e, EnsuredStatus(r.error), r.nodes)
  {
    var s := Given(p, e, status, nodes);
    assert [e][..0] == [];
    assert PoolByName([p], "p") == Some(p);
    var r := EnsureOnNode(nodes, e.nodeName, Slot(p.InterfaceName(), "a"), failing);
    assert EnsureEntries([p], [], nodes, [e], failing, {}) == Ensured([], r.nodes, r.error);
    var o := IPAllocation(Persistent, [e], EnsuredStatus(r.error));
    assert s.allocs[FIRST := o] == map[FIRST := o];
  }

  // ---- two nodes ----

  const LINKS := ["eth0", "eth1"]

  // A ready node whose operator was told to hold these slots, and does.
  function Having(name: string, slots: seq<Slot>): Node {
    Node(name, true, Operator(LINKS, map s | s in slots :: LinkLabel(s.networkInterface), slots))
  }

  lemma Arrives(s: State, name: string)
    requires s.allocs == map[] && IndexOfNode(s.nodes, name) == |s.nodes|
    ensures Apply(s, OperatorReady(name, Having(name, []).operator, [])) == s.(nodes := s.nodes + [Having(name, [])])
  {
    var n := Having(name, []);
    IndexOfNodeIs(s.nodes + [n], |s.nodes|, name);
    assert Elements<Key>([]) == {};
    assert Cleanup(n.operator, [], {}).operator == n.operator;
    assert (s.nodes + [n])[|s.nodes| := n] == s.nodes + [n];
  }

  // Two operators come up.
  function Ups(): seq<Event> {
    [OperatorReady("one", Having("one", []).operator, []), OperatorReady("two", Having("two", []).operator, [])]
  }

  function Both(): seq<Node> {
    [Having("one", []), Having("two", [])]
  }

  lemma BothCome(s: State)
    requires s.allocs == map[] && s.nodes == []
    ensures Run(s, Ups()) == s.(nodes := Both())
  {
    var one, two := Having("one", []), Having("two", []);
    RunTwo(s, OperatorReady("one", one.operator, []), OperatorReady("two", two.operator, []));
    Arrives(s, "one");
    assert [] + [one] == [one];
    Arrives(s.(nodes := [one]), "two");
    assert [one] + [two] == [one, two];
  }

  // ---- an interface without a name ----

  // Each reconciliation moves the address to the node that is drawn, and writes the object.
  lemma NamelessMoves()
    ensures var p := OnInterface("");
            var s := Run(Run(Fresh([p]), Ups()), [Asked(FIRST, "a", Some("one"))]);
            var t := Apply(s, Reconciled(FIRST, Asks("a"), [Some("two")], true, {}));
            && s.nodes == Both()
            && s.allocs == map[FIRST := Holding([Entry("a", "", "one", "", "p")])]
            && t.allocs == map[FIRST := Holding([Entry("a", "", "two", "", "p")])]
  {
    var p := OnInterface("");
    var e := Entry("a", "", "one", "", "p");
    BothCome(Fresh([p]));
    RunOne(Fresh([p]).(nodes := Both()), Asked(FIRST, "a", Some("one")));
    GivenIsReached(p, Both(), "one");
    assert AssignNode(p, Entry("a", "", "", "", "p"), Some("one")) == e;
    PatchGiven(p, e, Pending, Both(), "two");
  }

  // ---- a node without an operator ----

  function Pair(): Pool {
    OnInterface("eth0").(addresses := ["a", "b"])
  }

  function OnOne(address: string): Entry {
    Entry(address, "eth0", "one", "", "p")
  }

  // Both addresses of the pool on the first node.
  function PairGiven(status: Status, nodes: seq<Node>): State {
    State([Pair()], [], map[FIRST := IPAllocation(Persistent, [OnOne("a"), OnOne("b")], status)], [], nodes)
  }

  // Only one of them.
  function OneLeft(status: Status, nodes: seq<Node>): State {
    State([Pair()], [Pair().(addresses := ["b"])], map[FIRST := IPAllocation(Persistent, [OnOne("a")], status)], [],
        nodes)
  }

  function AsksBoth(): Service {
    Service(true, ["a", "b"])
  }

  lemma PairFirst()
    ensures Build([Pair()], [Pair()], "ns", [], ["a"], [Some("one")])
            == Built([Pair().(addresses := ["b"])], [OnOne("a")], None)
  {
    var left := Pair().(addresses := ["b"]);
    TakeOfTwo(Pair());
    assert AssignNode(left, Entry("a", "", "", "", "p"), Some("one")) == OnOne("a");
    BuildTakes([Pair()], [Pair()], "ns", "a", Some("one"), Use([left], Some(left)), OnOne("a"));
  }

  lemma PairBuild()
    ensures Build([Pair()], [Pair()], "ns", [], ["a", "b"], [Some("one"), Some("one")])
            == Built([], [OnOne("a"), OnOne("b")], None)
  {
    var left, none := Pair().(addresses := ["b"]), Pair().(addresses := []);
    PairFirst();
    TakeLast(left, "ns", "b");
    assert AssignNode(none, Entry("b", "", "", "", "p"), Some("one")) == OnOne("b");
    StepTakes([Pair()], "ns", Built([left], [OnOne("a")], None), "b", Some("one"), Use([], Some(none)), OnOne("b"));
    BuildSecond([Pair()], [Pair()], "ns", "a", Some("one"), "b", Some("one"));
    assert [OnOne("a")] + [OnOne("b")] == [OnOne("a"), OnOne("b")];
  }

  lemma BuildSecond(declared: seq<Pool>, av: seq<Pool>, namespace: string, ip: string, pick: Option<string>,
      next: string,
      pick2: Option<string>)
    ensures Build(declared, av, namespace, [], [ip, next], [pick, pick2])
            == BuildStep(declared, namespace, [], Build(declared, av, namespace, [], [ip], [pick]), next, pick2)
  {
    assert [ip, next][..1] == [ip] && [pick, pick2][..1] == [pick];
  }

  lemma PairAsked(nodes: seq<Node>)
    ensures Apply(Fresh([Pair()]).(nodes := nodes), ServiceCreated(FIRST, AsksBoth(), [Some("one"), Some("one")], true))
            == PairGiven(Pending, nodes)
  {
    FreshOne(Pair());
    PairBuild();
    CreatedState(Fresh([Pair()]).(nodes := nodes), FIRST, AsksBoth(), [Some("one"), Some("one")], [],
      [OnOne("a"), OnOne("b")]);
    var o := Holding([OnOne("a"), OnOne("b")]);
    assert map[][FIRST := o] == map[FIRST := o];
  }

  lemma PairLost()
    ensures Apply(PairGiven(Pending, Both()), OperatorDeleted("one")) == PairGiven(NodeError, [Having("two", [])])
  {
    var s := PairGiven(Pending, Both());
    assert IndexOfNode(Both(), "one") == 0;
    assert Both()[..0] + Both()[1..] == [Having("two", [])];
    assert OnOne("a") in s.allocs[FIRST].entries;
    assert Names(s.allocs[FIRST].entries, "one");
    assert LostAllocs(s.allocs, "one") == PairGiven(NodeError, []).allocs;
  }

  // The service gives up the second address. The first keeps its node, which is gone, and its interface, which is
  // right.
  lemma PairRebuild()
    ensures Build([Pair()], [], "ns", [OnOne("a"), OnOne("b")], ["a"], [None]) == Built([], [OnOne("a")], None)
  {
    var x := OnOne("a");
    BuildOne([Pair()], [], "ns", [x, OnOne("b")], "a", None);
    assert PoolOfAddress([Pair()], "ns", "a") == Some(Pair());
    assert AssignNode(Pair(), x, None) == x && [] + [x] == [x];
  }

  lemma PairDropped()
    ensures Dropped([OnOne("a"), OnOne("b")], [OnOne("a")]) == [OnOne("b")]
  {
    var x, y := OnOne("a"), OnOne("b");
    assert [x, y][..1] == [x] && [x][..0] == [] && [x][1..] == [];
    assert Dropped([x], [x]) == [];
    assert [] + [y] == [y];
  }

  lemma PairPatch()
    ensures Patch([Pair()], [], "ns", IPAllocation(Persistent, [OnOne("a"), OnOne("b")], NodeError), ["a"], [None],
        true)
            == Patched([Pair().(addresses := ["b"])], Holding([OnOne("a")]), [OnOne("b")], None, None, true)
  {
    PairRebuild();
    PairDropped();
    ReleaseIntoNone(Pair(), "ns", OnOne("b"));
    assert |[OnOne("a"), OnOne("b")]| != |[OnOne("a")]|;
  }

  lemma PairPatched(nodes: seq<Node>)
    ensures Apply(PairGiven(NodeError, nodes), Reconciled(FIRST, Asks("a"), [None], true, {}))
        == OneLeft(Pending, nodes)
  {
    PairPatch();
    var s := PairGiven(NodeError, nodes);
    var o := Holding([OnOne("a")]);
    assert s.allocs[FIRST := o] == map[FIRST := o];
  }

  // The address is not offered any more, so ensuring it changes no offer.
  lemma OfferStays()
    ensures EnsureNotAvailable([Pair().(addresses := ["b"])], "p", "a") == [Pair().(addresses := ["b"])]
  {
    var q := Pair().(addresses := ["b"]);
    assert Without(["b"], "a") == ["b"] && [q][0 := q] == [q];
  }

  lemma OneEnsuredEntry()
    ensures EnsureEntries([Pair()], [Pair().(addresses := ["b"])], [Having("two", [])], [OnOne("a")], {}, {})
            == Ensured([Pair().(addresses := ["b"])], [Having("two", [])], None)
  {
    assert [OnOne("a")][..0] == [];
    assert PoolByName([Pair()], "p") == Some(Pair());
    OfferStays();
    NothingOnTwo();
  }

  lemma OneEnsured()
    ensures Apply(OneLeft(Pending, [Having("two", [])]), IPsEnsured(FIRST, Some(Asks("a")), {}, {}))
            == OneLeft(Success, [Having("two", [])])
  {
    OneEnsuredEntry();
    var s := OneLeft(Pending, [Having("two", [])]);
    EnsuredState(s, FIRST, Asks("a"), Ensured(s.avail, s.nodes, None));
    var o := IPAllocation(Persistent, [OnOne("a")], Success);
    assert s.allocs[FIRST := o] == map[FIRST := o];
  }

  lemma NothingOnTwo()
    ensures EnsureOnNode([Having("two", [])], "one", Told("eth0"), {}) == Reply([Having("two", [])], None)
  {
    var x := Told("eth0");
    var two := Having("two", []);
    assert EnsureUpTo([two], 0, "one", x, {}) == Reply([two], None);
    assert Remove(two.operator, x, {}).operator.table == two.operator.table;
    assert Remove(two.operator, x, {}) == Result(two.operator, true);
    assert [two][0 := two] == [two];
  }

  lemma PairIsLost()
    ensures Run(Run(Fresh([Pair()]), Ups()),
                [ServiceCreated(FIRST, AsksBoth(), [Some("one"), Some("one")], true), OperatorDeleted("one")])
            == PairGiven(NodeError, [Having("two", [])])
  {
    BothCome(Fresh([Pair()]));
    PairAsked(Both());
    PairLost();
    RunTwo(Fresh([Pair()]).(nodes := Both()), ServiceCreated(FIRST, AsksBoth(), [Some("one"), Some("one")], true),
      OperatorDeleted("one"));
  }

  lemma PairEnds()
    ensures Run(PairGiven(NodeError, [Having("two", [])]),
                [Reconciled(FIRST, Asks("a"), [None], true, {}), IPsEnsured(FIRST, Some(Asks("a")), {}, {})])
            == OneLeft(Success, [Having("two", [])])
  {
    PairPatched([Having("two", [])]);
    OneEnsured();
    RunTwo(PairGiven(NodeError, [Having("two", [])]), Reconciled(FIRST, Asks("a"), [None], true, {}),
      IPsEnsured(FIRST, Some(Asks("a")), {}, {}));
  }

  // The pod of a node is deleted, and its allocation is to be moved. Before that its service gives up one of two
  // addresses: reconciled, the allocation is pending again, on the same node, and ensured it ends in success, without
  // any failure on the way. Its address is nowhere.
  lemma MissingOperatorSucceeds()
    ensures var s := Run(Fresh([Pair()]), Ups());
            var lost := Run(s,
              [ServiceCreated(FIRST, AsksBoth(), [Some("one"), Some("one")], true), OperatorDeleted("one")]);
            var t := Run(lost,
              [Reconciled(FIRST, Asks("a"), [None], true, {}), IPsEnsured(FIRST, Some(Asks("a")), {}, {})]);
            && lost == PairGiven(NodeError, [Having("two", [])])
            && t == OneLeft(Success, [Having("two", [])])
            && !PlacementHolds(t)
  {
    PairIsLost();
    PairEnds();
    NowhereIsNotPlaced(OneLeft(Success, [Having("two", [])]), OnOne("a"));
  }

  lemma NowhereIsNotPlaced(s: State, e: Entry)
    requires FIRST in s.allocs && s.allocs[FIRST].status == Success && e in s.allocs[FIRST].entries
        && OnHost(s.pools, e)
    requires forall i :: 0 <= i < |s.nodes| ==> s.nodes[i].name != e.nodeName
    ensures !PlacementHolds(s)
  {
    assert !Placed(s.pools, s.nodes, e);
  }

  // ---- one address and two nodes ----

  function Told(networkInterface: string): Slot {
    Slot(networkInterface, "a")
  }

  // The one address goes to the first node.
  lemma FirstHasIt()
    ensures var p := OnInterface("eth0");
            var gives := [Asked(FIRST, "a", Some("one")), IPsEnsured(FIRST, Some(Asks("a")), {}, {})];
            Run(Run(Fresh([p]), Ups()), gives)
            == Given(p, Entry("a", "eth0", "one", "", "p"), Success, [Having("one", [Told("eth0")]), Having("two", [])])
  {
    var p := OnInterface("eth0");
    var s := Fresh([p]);
    BothCome(s);
    RunTwo(s.(nodes := Both()), Asked(FIRST, "a", Some("one")), IPsEnsured(FIRST, Some(Asks("a")), {}, {}));
    GivenIsReached(p, Both(), "one");
    var e := Entry("a", "eth0", "one", "", "p");
    assert AssignNode(p, Entry("a", "", "", "", "p"), Some("one")) == e;
    EnsureGiven(p, e, Pending, Both(), {});
    PutOnFirst();
  }

  lemma PutOnFirst()
    ensures EnsureOnNode([Having("one", []), Having("two", [])], "one", Told("eth0"), {})
            == Reply([Having("one", [Told("eth0")]), Having("two", [])], None)
  {
    var x := Told("eth0");
    var one, two, had := Having("one", []), Having("two", []), Having("one", [x]);
    assert EnsureUpTo([one, two], 0, "one", x, {}) == Reply([one, two], None);
    assert [] + [x] == [x];
    assert Add(one.operator, x, {}).operator.table == had.operator.table;
    assert EnsureUpTo([one, two], 1, "one", x, {}) == Reply([had, two], None);
    assert Remove(two.operator, x, {}).operator.table == two.operator.table;
    assert Remove(two.operator, x, {}) == Result(two.operator, true);
    assert EnsureUpTo([one, two], 2, "one", x, {}) == Reply([had, two], None);
  }

  function OnFirst(): State {
    Given(OnInterface("eth0"), Entry("a", "eth0", "one", "", "p"), Success,
        [Having("one", [Told("eth0")]), Having("two", [])])
  }

  lemma TwoPlaces(s: State, e: Entry, nodes: seq<Node>, x: Slot, y: Slot)
    requires nodes == [Having("one", [x]), Having("two", [y])] && x.address == y.address == "a"
    requires s.nodes == nodes && e.address == "a" && FIRST in s.allocs && s.allocs[FIRST].status == Success
    requires e in s.allocs[FIRST].entries && OnHost(s.pools, e)
    ensures !PlacementHolds(s)
  {
    assert HasReady(nodes, 0, x) && HasReady(nodes, 1, y);
    assert !Exclusive(nodes, e.nodeName, HostSlot(s.pools, e));
    assert !Placed(s.pools, nodes, e);
  }

  // ---- an operator that is ready and cannot be reached ----

  // The address is moved to the second node, and both ready nodes have it.
  lemma UnreachableKeeps()
    ensures var service := Some(Asks("a"));
            var lost := Apply(OnFirst(), IPsEnsured(FIRST, service, {"one"}, {}));
            var moved := Apply(lost, NodeChanged(FIRST, [Some("two")]));
            var t := Apply(moved, IPsEnsured(FIRST, service, {"one"}, {}));
            && t.nodes == [Having("one", [Told("eth0")]), Having("two", [Told("eth0")])]
            && FIRST in t.allocs && t.allocs[FIRST].status == Success && !PlacementHolds(t)
  {
    var p := OnInterface("eth0");
    var e, f := Entry("a", "eth0", "one", "", "p"), Entry("a", "eth0", "two", "", "p");
    var nodes := OnFirst().nodes;
    var x := Told("eth0");
    EnsureGiven(p, e, Success, nodes, {"one"});
    assert EnsureUpTo(nodes, 0, "one", x, {"one"}) == Reply(nodes, None);
    assert EnsureUpTo(nodes, 1, "one", x, {"one"}) == Reply(nodes, Some(OperatorUnreachable));
    assert EnsureOnNode(nodes, "one", x, {"one"}) == Reply(nodes, Some(OperatorUnreachable));
    ChangeGiven(p, e, f, nodes, "two");
    EnsureGiven(p, f, Pending, nodes, {"one"});
    PutOnSecond(x, x, {"one"});
    var t := Given(p, f, Success, [Having("one", [x]), Having("two", [x])]);
    TwoPlaces(t, f, t.nodes, x, x);
  }

  lemma ChangeGiven(p: Pool, e: Entry, f: Entry, nodes: seq<Node>, node: string)
    requires p.name == "p" && p.HasHostNetwork() && e.pool == "p"
        && f == e.(networkInterface := p.InterfaceName(), nodeName := node)
    ensures Apply(Given(p, e, NodeError, nodes), NodeChanged(FIRST, [Some(node)])) == Given(p, f, Pending, nodes)
  {
    var s := Given(p, e, NodeError, nodes);
    assert [e][..0] == [] && [Some(node)][..0] == [];
    assert PoolByName([p], "p") == Some(p);
    assert [] + [f] == [f];
    assert Move([p], [e], [Some(node)]) == Moved([f], None, false);
    var o := IPAllocation(Persistent, [f], Pending);
    assert s.allocs[FIRST := o] == map[FIRST := o];
  }

  // The second node gets the slot y; the first one, which has x, cannot be reached or has nothing to remove.
  lemma PutOnSecond(x: Slot, y: Slot, failing: set<string>)
    requires x.networkInterface in LINKS && y.networkInterface in LINKS
    requires "two" !in failing && ("one" in failing || x != y)
    ensures EnsureOnNode([Having("one", [x]), Having("two", [])], "two", y, failing)
            == Reply([Having("one", [x]), Having("two", [y])], None)
  {
    var one, two, had := Having("one", [x]), Having("two", []), Having("two", [y]);
    PassOver([one, two], x, y, failing);
    AddToNone("two", y);
    assert EnsureAt([one, two], 1, "two", y, failing) == Reply([one, two][1 := had], None);
    assert [one, two][1 := had] == [one, had];
  }

  lemma PassOver(nodes: seq<Node>, x: Slot, y: Slot, failing: set<string>)
    requires nodes != [] && nodes[0] == Having("one", [x]) && y.networkInterface in LINKS
        && ("one" in failing || x != y)
    ensures EnsureUpTo(nodes, 1, "two", y, failing) == Reply(nodes, None)
  {
    assert EnsureUpTo(nodes, 0, "two", y, failing) == Reply(nodes, None);
    if "one" !in failing {
      NothingToRemove(x, y);
      assert nodes[0 := nodes[0]] == nodes;
    }
  }

  lemma NothingToRemove(x: Slot, y: Slot)
    requires x != y && y.networkInterface in LINKS
    ensures Remove(Having("one", [x]).operator, y, {}) == Result(Having("one", [x]).operator, true)
  {
    var o := Having("one", [x]).operator;
    assert [x][..0] == [] && [] + [x] == [x];
    assert Except([x], y) == [x];
    assert o.table - {y} == o.table;
  }

  lemma AddToNone(name: string, x: Slot)
    requires x.networkInterface in LINKS
    ensures Add(Having(name, []).operator, x, {}) == Result(Having(name, [x]).operator, true)
  {
    assert [] + [x] == [x];
    assert Add(Having(name, []).operator, x, {}).operator.table == Having(name, [x]).operator.table;
  }

  // ---- another interface ----

  lemma EditGiven(p: Pool, q: Pool, e: Entry, nodes: seq<Node>)
    requires p.name == q.name == "p" && q.addresses == ["a"] && e.address == "a" && e.pool == "p"
    ensures Advance(Given(p, e, Success, nodes), PoolEdited(0, q)) == Given(q, e, Success, nodes)
  {
    var s := Given(p, e, Success, nodes);
    var o := s.allocs[FIRST];
    assert [e][..0] == [];
    assert Strip(o, [e], Modified(q)) == o;
    assert EditedAllocs(s.allocs, Modified(q)) == s.allocs;
    OwnedOwns(s.allocs, "a");
    assert Owns(s.allocs, FIRST, "a");
    assert ["a"][..0] == [];
    assert FreeAddresses(["a"], OwnedIn(s.allocs)) == [];
    assert s.pools[0 := q] == [q];
  }

  // The pool is edited to ask for another interface while its address is placed. Reconciled and ensured again with all
  // calls succeeding, the allocation is in success on the second node, and the first still has the address.
  lemma OtherInterfaceStays()
    ensures var edited := Advance(OnFirst(), PoolEdited(0, OnInterface("eth1")));
            var moved := Apply(edited, Reconciled(FIRST, Asks("a"), [Some("two")], true, {}));
            var t := Apply(moved, IPsEnsured(FIRST, Some(Asks("a")), {}, {}));
            && !PlacementHolds(edited)
            && t.nodes == [Having("one", [Told("eth0")]), Having("two", [Told("eth1")])]
            && FIRST in t.allocs && t.allocs[FIRST].status == Success && !PlacementHolds(t)
  {
    var p, q := OnInterface("eth0"), OnInterface("eth1");
    var e, f := Entry("a", "eth0", "one", "", "p"), Entry("a", "eth1", "two", "", "p");
    var nodes := OnFirst().nodes;
    EditGiven(p, q, e, nodes);
    var edited := Given(q, e, Success, nodes);
    assert PoolByName([q], "p") == Some(q) && e in edited.allocs[FIRST].entries;
    assert !RightInterface([q], e);
    assert AssignNode(q, e, Some("two")) == f;
    PatchGiven(q, e, Success, nodes, "two");
    EnsureGiven(q, f, Pending, nodes, {});
    PutOnSecond(Told("eth0"), Told("eth1"), {});
    var t := Given(q, f, Success, [Having("one", [Told("eth0")]), Having("two", [Told("eth1")])]);
    TwoPlaces(t, f, t.nodes, Told("eth0"), Told("eth1"));
  }

  // ---- a pool that is only on the cloud ----

  lemma CloudEntryReached()
    ensures var p := Pool("p", ["a"], [], None, true);
            Run(Fresh([p]), [Asked(FIRST, "a", Some("one"))])
                == Given(p, Entry("a", "", "one", "hetzner", "p"), Pending, [])
  {
    var p := Pool("p", ["a"], [], None, true);
    RunOne(Fresh([p]), Asked(FIRST, "a", Some("one")));
    GivenIsReached(p, [], "one");
    assert AssignNode(p, Entry("a", "", "", "", "p"), Some("one")) == Entry("a", "", "one", "hetzner", "p");
    assert Fresh([p]).(nodes := []) == Fresh([p]);
  }

  // The entry names the node and no interface: the cleanup of that node fails.
  lemma CloudEntryStopsCleanup(p: Pool, e: Entry, nodes: seq<Node>)
    requires e.networkInterface == ""
    ensures NodeReady(Given(p, e, Pending, nodes), e.nodeName, Having(e.nodeName, []).operator, [FIRST]).error.Some?
  {
    var s := Given(p, e, Pending, nodes);
    assert Elements([FIRST]) == s.allocs.Keys;
    ReadyCleansIff(s, e.nodeName, Having(e.nodeName, []).operator, [FIRST]);
    assert FIRST in s.allocs && e in s.allocs[FIRST].entries;
  }
}

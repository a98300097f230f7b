// Concrete runs in which a property fails: for each condition proved elsewhere, an input on its false side that the
// controller can receive.
module Failures {
  import opened Types
  import opened Availability
  import opened Allocations
  import opened Cluster
  import opened Ledger
  import opened LedgerResults
  import opened PoolEdit
  import opened PoolLife

  const FIRST := Key("ns", "first")
  const SECOND := Key("ns", "second")

  function Plain(name: string, addresses: seq<string>): Pool {
    Pool(name, addresses, [], None, false)
  }

  // A service that asks for one address, and its creation.
  function Asks(address: string): Service {
    Service(true, [address])
  }

  function Asked(key: Key, address: string, pick: Option<string>): Event {
    ServiceCreated(key, Asks(address), [pick], true)
  }

  lemma BuildOne(declared: seq<Pool>, av: seq<Pool>, namespace: string, current: seq<Entry>, ip: string,
      pick: Option<string>)
    ensures Build(declared, av, namespace, current, [ip], [pick])
            == BuildStep(declared, namespace, current, Built(av, [], None), ip, pick)
  {
    assert [ip][..0] == [] && [pick][..0] == [];
  }

  lemma RunOne(s: State, e: Event)
    ensures Run(s, [e]) == Apply(s, e)
  {
    assert [e][..0] == [];
  }

  lemma {:induction false} AllFree(addresses: seq<string>)
    ensures FreeAddresses(addresses, {}) == addresses
  {
    if addresses != [] {
      var n := |addresses| - 1;
      assert addresses == addresses[..n] + [addresses[n]];
      AllFree(addresses[..n]);
    }
  }

  lemma AddedWhole(av: seq<Pool>, p: Pool)
    requires p.addresses != [] && IndexOfName(av, p.name) == |av|
    ensures Recompute(AddOrReplace(av, p), p, {}) == av + [p]
  {
    AllFree(p.addresses);
    IndexOfNameIs(av + [p], |av|, p.name);
    assert (av + [p])[|av| := p] == av + [p];
  }

  lemma FreshOne(p: Pool)
    requires p.addresses != []
    ensures Fresh([p]).avail == [p]
  {
    AddedWhole([], p);
    assert [] + [p] == [p];
    var none := [p][..0];
    assert none == [];
    assert Warmup(none, {}) == [];
    assert Warmup([p], {}) == Recompute(AddOrReplace(Warmup(none, {}), p), p, {});
  }

  lemma FreshTwo(p: Pool, q: Pool)
    requires p.addresses != [] && q.addresses != [] && p.name != q.name
    ensures Fresh([p, q]).avail == [p, q]
  {
    FreshOne(p);
    IndexOfNameIs([p], 1, q.name);
    AddedWhole([p], q);
    var first := [p, q][..1];
    assert first == [p];
    assert Warmup([p, q], {}) == Recompute(AddOrReplace(Warmup(first, {}), q), q, {});
  }

  // The last address of the only entry is taken, and the entry goes.
  lemma TakeLast(p: Pool, namespace: string, address: string)
    requires p.addresses == [address] && p.Allows(namespace)
    ensures UseIP([p], namespace, address) == Use([], Some(p.(addresses := [])))
  {
    assert [address][..0] == [];
    assert Without([address], address) == [];
    assert IndexServing([p], namespace, address) == 0;
    var left := p.(addresses := []);
    assert [p][0 := left] == [left];
    assert SwapRemove([left], 0) == [];
    assert RemoveEntry([left], left.name) == [];
    assert Without(p.addresses, address) == left.addresses;
    assert TakeFrom([p], 0, address) == [];
  }

  function Holding(entries: seq<Entry>): IPAllocation {
    IPAllocation(Persistent, entries, Pending)
  }

  // One request that is granted adds its entry to what was built.
  lemma StepTakes(declared: seq<Pool>, namespace: string, b: Built, ip: string, pick: Option<string>, u: Use, e: Entry)
    requires UseIP(b.av, namespace, ip) == u && u.pool.Some?
    requires var fresh_ := Entry(ip, "", "", "", u.pool.value.name);
             AssignNode(u.pool.value, fresh_, pick) == e && !PickFails(u.pool.value, fresh_, pick)
    ensures BuildStep(declared, namespace, [], b, ip, pick) == Built(u.av, b.entries + [e], b.error)
  {
  }

  lemma BuildTakes(declared: seq<Pool>, av: seq<Pool>, namespace: string, ip: string, pick: Option<string>, u: Use,
      e: Entry)
    requires UseIP(av, namespace, ip) == u && u.pool.Some?
    requires var fresh_ := Entry(ip, "", "", "", u.pool.value.name);
             AssignNode(u.pool.value, fresh_, pick) == e && !PickFails(u.pool.value, fresh_, pick)
    ensures Build(declared, av, namespace, [], [ip], [pick]) == Built(u.av, [e], None)
  {
    BuildOne(declared, av, namespace, [], ip, pick);
    StepTakes(declared, namespace, Built(av, [], None), ip, pick, u, e);
    assert [] + [e] == [e];
  }

  // What a creation does to the state, once it is known what it builds.
  lemma CreatedState(s: State, key: Key, svc: Service, picks: seq<Option<string>>, av: seq<Pool>, entries: seq<Entry>)
    requires key !in s.allocs && svc.isLoadBalancer && svc.externalIPs != [] && |picks| == |svc.externalIPs|
    requires Build(s.pools, s.avail, key.namespace, [], svc.externalIPs, picks) == Built(av, entries, None)
    ensures Apply(s, ServiceCreated(key, svc, picks, true))
            == s.(avail := av, allocs := s.allocs[key := Holding(entries)])
  {
  }

  // A service asks for the last available address and gets it, with the node that is picked if one is needed.
  lemma AskLast(s: State, p: Pool, key: Key, address: string, pick: Option<string>)
    requires s.avail == [p] && p.addresses == [address] && p.Allows(key.namespace) && key !in s.allocs
    requires !PickFails(p, Entry(address, "", "", "", p.name), pick)
    ensures Apply(s, Asked(key, address, pick))
            == s.(avail := [],
                  allocs := s.allocs[key := Holding([AssignNode(p, Entry(address, "", "", "", p.name), pick)])])
  {
    var e := AssignNode(p, Entry(address, "", "", "", p.name), pick);
    TakeLast(p, key.namespace, address);
    assert AssignNode(p.(addresses := []), Entry(address, "", "", "", p.name), pick) == e;
    BuildTakes(s.pools, [p], key.namespace, address, pick, Use([], Some(p.(addresses := []))), e);
    CreatedState(s, key, Asks(address), [pick], [], [e]);
  }

  // ---- the ledger ----

  // One pool with one address, taken by one service.
  function Taken(): State {
    State([Plain("p", ["a"])], [], map[FIRST := Holding([Entry("a", "", "", "", "p")])], [], [])
  }

  lemma FreshStep(pools: seq<Pool>, e: Event, t: State)
    requires DisjointPools(pools) && !e.Reconciled? && Apply(Fresh(pools), e) == t
    ensures Run(Fresh(pools), [e]) == t && LedgerAgrees(t)
  {
    RunOne(Fresh(pools), e);
    FreshRun(pools, [e]);
  }

  lemma TakenIs()
    ensures Apply(Fresh([Plain("p", ["a"])]), Asked(FIRST, "a", None)) == Taken()
  {
    var p := Plain("p", ["a"]);
    FreshOne(p);
    AskLast(Fresh([p]), p, FIRST, "a", None);
    var e := Entry("a", "", "", "", "p");
    assert AssignNode(p, e, None) == e;
    assert map[][FIRST := Holding([e])] == map[FIRST := Holding([e])];
  }

  lemma TakenIsReached()
    ensures Run(Fresh([Plain("p", ["a"])]), [Asked(FIRST, "a", None)]) == Taken()
    ensures LedgerAgrees(Taken())
  {
    TakenIs();
    FreshStep([Plain("p", ["a"])], Asked(FIRST, "a", None), Taken());
  }

  // Started again now, the controller offers the address that is taken.
  lemma RestartOffersTaken()
    ensures !LedgerAgrees(Started(Taken()))
  {
    TakenIsReached();
    StartedAgreesIff(Taken());
    var d := Plain("p", ["a"]);
    assert d in Taken().pools && d.addresses != [];
    assert Owns(Taken().allocs, FIRST, "a");
  }

  // One of two addresses taken.
  function Half(): State {
    State([Plain("p", ["a", "b"])], [Plain("p", ["b"])], map[FIRST := Holding([Entry("a", "", "", "", "p")])], [], [])
  }

  lemma TakeOfTwo(p: Pool)
    requires p.addresses == ["a", "b"] && p.Allows("ns")
    ensures UseIP([p], "ns", "a") == Use([p.(addresses := ["b"])], Some(p.(addresses := ["b"])))
  {
    var left := p.(addresses := ["b"]);
    assert ["a", "b"][..1] == ["a"] && ["a"][..0] == [];
    assert Without(["a"], "a") == [];
    assert Without(["a", "b"], "a") == ["b"];
    assert IndexServing([p], "ns", "a") == 0;
    assert [p][0 := left] == [left];
    assert TakeFrom([p], 0, "a") == [left];
  }

  lemma HalfBuild()
    ensures var p := Plain("p", ["a", "b"]);
            Build([p], [p], "ns", [], ["a"], [None]) == Built([Plain("p", ["b"])], [Entry("a", "", "", "", "p")], None)
  {
    var left := Plain("p", ["b"]);
    var e := Entry("a", "", "", "", "p");
    TakeOfTwo(Plain("p", ["a", "b"]));
    assert AssignNode(left, e, None) == e;
    BuildTakes([Plain("p", ["a", "b"])], [Plain("p", ["a", "b"])], "ns", "a", None, Use([left], Some(left)), e);
  }

  lemma HalfIs()
    ensures Apply(Fresh([Plain("p", ["a", "b"])]), Asked(FIRST, "a", None)) == Half()
  {
    var p := Plain("p", ["a", "b"]);
    var e := Entry("a", "", "", "", "p");
    FreshOne(p);
    HalfBuild();
    CreatedState(Fresh([p]), FIRST, Asks("a"), [None], [Plain("p", ["b"])], [e]);
    assert map[][FIRST := Holding([e])] == map[FIRST := Holding([e])];
  }

  lemma HalfIsReached()
    ensures Run(Fresh([Plain("p", ["a", "b"])]), [Asked(FIRST, "a", None)]) == Half()
    ensures LedgerAgrees(Half())
  {
    HalfIs();
    FreshStep([Plain("p", ["a", "b"])], Asked(FIRST, "a", None), Half());
  }

  lemma FailedPatch(s: State, key: Key, ips: seq<string>, picks: seq<Option<string>>, a: string)
    requires LedgerAgrees(s) && Owns(s.allocs, key, a) && a !in ips && |picks| == |ips|
    ensures var p := Patch(s.pools, s.avail, key.namespace, s.allocs[key], ips, picks, false);
            p.error.Some? && p.stored == s.allocs[key]
  {
    PatchMeaning(s.pools, s.avail, FreeOf(s), key.namespace, s.allocs[key], ips, picks, false);
    BuildMeaning(s.pools, s.avail, FreeOf(s), key.namespace, s.allocs[key].entries, ips, picks);
    assert a !in AddressesOf(Build(s.pools, s.avail, key.namespace, s.allocs[key].entries, ips, picks).entries);
  }

  // When the update fails for an allocation that has an address its service no longer asks for, the ledger breaks.
  lemma FailedUpdateBreaks(s: State, key: Key, svc: Service, picks: seq<Option<string>>, a: string)
    requires LedgerAgrees(s) && Owns(s.allocs, key, a) && a !in svc.externalIPs
    requires svc.isLoadBalancer && svc.externalIPs != [] && |picks| == |svc.externalIPs|
    ensures !LedgerAgrees(Apply(s, Reconciled(key, svc, picks, false, {})))
  {
    FailedUpdateIff(s, key, svc.externalIPs, picks);
    FailedPatch(s, key, svc.externalIPs, picks, a);
    assert s.allocs[key].kind == Persistent;
    FailedReconcile(s, key, svc, picks);
  }

  lemma FailedReconcile(s: State, key: Key, svc: Service, picks: seq<Option<string>>)
    requires key in s.allocs && s.allocs[key].kind == Persistent
    requires svc.isLoadBalancer && svc.externalIPs != [] && |picks| == |svc.externalIPs|
    requires var p := Patch(s.pools, s.avail, key.namespace, s.allocs[key], svc.externalIPs, picks, false);
             p.error.Some? && p.stored == s.allocs[key]
    ensures var p := Patch(s.pools, s.avail, key.namespace, s.allocs[key], svc.externalIPs, picks, false);
            Apply(s, Reconciled(key, svc, picks, false, {})) == s.(avail := p.av)
  {
    assert s.allocs[key := s.allocs[key]] == s.allocs;
  }

  // The service now asks for the other address, and the update of its object fails.
  lemma FailedUpdateLoses()
    ensures !LedgerAgrees(Apply(Half(), Reconciled(FIRST, Asks("b"), [None], false, {})))
  {
    HalfIsReached();
    assert Owns(Half().allocs, FIRST, "a");
    FailedUpdateBreaks(Half(), FIRST, Asks("b"), [None], "a");
  }

  lemma HistoryOne(s: State, step: Step)
    ensures History(s, [step]) == Advance(s, step)
  {
    assert [step][..0] == [];
  }

  lemma HistoryTwo(s: State, first: Step, second: Step)
    ensures History(s, [first, second]) == Advance(Advance(s, first), second)
  {
    HistoryOne(s, first);
    assert [first, second][..1] == [first];
  }

  // An edit while a deletion of an address of the pool is not handled yet breaks the ledger, whatever is edited.
  lemma PendingEditBreaks(s: State, key: Key, i: nat, pool: Pool, a: string)
    requires LedgerAgrees(s) && Owns(s.allocs, key, a) && i < |s.pools| && a in s.pools[i].addresses
        && s.pools[i].name == pool.name
    ensures !LedgerAgrees(History(s, [Handled(AllocationRemoved(key)), PoolEdited(i, pool)]))
  {
    HistoryTwo(s, Handled(AllocationRemoved(key)), PoolEdited(i, pool));
    var t := DeleteAllocation(s, key);
    DeleteKeepsLedger(s, key);
    DeleteMoves(s, key, a);
    assert Awaits(t.deleted, |s.deleted|, a);
    EditKeepsLedgerIff(t, i, pool);
  }

  // The pool is edited, even to what it was, while the deletion of the allocation is not handled yet.
  lemma EditOffersPending()
    ensures !LedgerAgrees(History(Half(), [Handled(AllocationRemoved(FIRST)), PoolEdited(0, Plain("p", ["a", "b"]))]))
  {
    HalfIsReached();
    assert Owns(Half().allocs, FIRST, "a") && Half().pools[0] == Plain("p", ["a", "b"]);
    PendingEditBreaks(Half(), FIRST, 0, Plain("p", ["a", "b"]), "a");
  }

  // When a pool gives up its free addresses and keeps none that is free, they are still offered.
  lemma EditKeepsOffering(s: State, i: nat, pool: Pool, b: string)
    requires LedgerAgrees(s) && i < |s.pools| && s.pools[i].name == pool.name && DisjointPools(s.pools[i := pool])
    requires forall a :: a in pool.addresses ==> IsOwned(s, a)
    requires b in FreeIn(s.avail, pool.name)
    ensures !LedgerAgrees(History(s, [PoolEdited(i, pool)]))
    ensures b in FreeIn(History(s, [PoolEdited(i, pool)]).avail, pool.name)
  {
    HistoryOne(s, PoolEdited(i, pool));
    EditKeepsLedgerIff(s, i, pool);
    NothingLeft(s, i, pool);
  }

  lemma NothingLeft(s: State, i: nat, pool: Pool)
    requires LedgerAgrees(s) && i < |s.pools| && s.pools[i].name == pool.name
    requires forall a :: a in pool.addresses ==> IsOwned(s, a)
    ensures PoolModified(s.(pools := s.pools[i := pool]), pool).avail == s.avail
  {
    var taken := OwnedIn(EditedAllocs(s.allocs, Modified(pool)));
    EditedTaken(s, i, pool);
    forall a | a in pool.addresses
      ensures a in OwnedIn(s.allocs)
    {
      OwnedOwns(s.allocs, a);
    }
    FreeLeft(pool, taken);
    assert Elements(pool.addresses) - taken == {};
  }

  lemma HalfHolds()
    ensures IsOwned(Half(), "a") && "b" in FreeIn(Half().avail, "p")
  {
    assert Owns(Half().allocs, FIRST, "a");
    var q := Half().avail[0];
    assert q in Half().avail && q.name == "p" && q.addresses[0] == "b";
    assert "b" in q.addresses;
  }

  lemma EditLeavesOldEntry()
    ensures var t := History(Half(), [PoolEdited(0, Plain("p", ["a"]))]);
            !LedgerAgrees(t) && "b" in FreeIn(t.avail, "p")
  {
    HalfIsReached();
    HalfHolds();
    assert Half().pools[0] == Plain("p", ["a", "b"]);
    assert forall a :: a in ["a"] ==> a == "a";
    EditKeepsOffering(Half(), 0, Plain("p", ["a"]), "b");
  }

  // Between the two releases of an address a reconciliation drops, another service gets it: the second release offers
  // it while it is taken.
  lemma SecondReleaseOffersTaken(s: State, key: Key, a: string)
    requires LedgerAgrees(s) && Owns(s.allocs, key, a)
    ensures exists d :: d in s.pools && Serves(d, key.namespace, a)
                        && !LedgerAgrees(s.(avail := ReleaseIP(s.pools, s.avail, d.name, key.namespace, a)))
  {
    var e :| e in s.allocs[key].entries && e.address == a;
    assert Backed(s.pools, key.namespace, e);
    var d :| d in s.pools && Serves(d, key.namespace, a) && d.name == e.pool;
    LateReleaseIff(s, key.namespace, d, a);
  }

  // The same allocation, ensured.
  function Done(): State {
    Half().(allocs := map[FIRST := IPAllocation(Persistent, [Entry("a", "", "", "", "p")], Success)])
  }

  // What ensuring does to the state, once it is known what it does to the entries.
  lemma EnsuredState(s: State, key: Key, svc: Service, r: Ensured)
    requires key in s.allocs && svc.isLoadBalancer
    requires EnsureEntries(s.pools, s.avail, s.nodes, s.allocs[key].entries, {}, {}) == r
    ensures Apply(s, IPsEnsured(key, Some(svc), {}, {}))
            == s.(avail := r.av, nodes := r.nodes,
                  allocs := s.allocs[key := s.allocs[key].(status := EnsuredStatus(r.error))])
  {
  }

  lemma DoneEntries()
    ensures EnsureEntries(Half().pools, Half().avail, [], [Entry("a", "", "", "", "p")], {}, {})
            == Ensured(Half().avail, [], None)
  {
    var q := Plain("p", ["b"]);
    assert [Entry("a", "", "", "", "p")][..0] == [];
    assert PoolByName(Half().pools, "p") == Some(Plain("p", ["a", "b"]));
    assert Without(["b"], "a") == ["b"] && [q][0 := q] == [q];
    assert EnsureNotAvailable([q], "p", "a") == [q];
  }

  lemma DoneIs()
    ensures Apply(Half(), IPsEnsured(FIRST, Some(Asks("a")), {}, {})) == Done()
  {
    DoneEntries();
    EnsuredState(Half(), FIRST, Asks("a"), Ensured(Half().avail, [], None));
    var o := IPAllocation(Persistent, [Entry("a", "", "", "", "p")], Success);
    assert Half().allocs[FIRST := o] == map[FIRST := o];
  }

  lemma RunTwo(s: State, first: Event, second: Event)
    ensures Run(s, [first, second]) == Apply(Apply(s, first), second)
  {
    RunOne(s, first);
    assert [first, second][..1] == [first];
  }

  lemma ReachedAgrees(s: State, e: Event, t: State)
    requires LedgerAgrees(s) && UpdateSucceeds(s, e) && Apply(s, e) == t
    ensures LedgerAgrees(t)
  {
    StepKeepsLedger(s, e);
  }

  lemma DoneIsReached()
    ensures Run(Fresh([Plain("p", ["a", "b"])]), [Asked(FIRST, "a", None), IPsEnsured(FIRST, Some(Asks("a")), {}, {})])
            == Done()
    ensures LedgerAgrees(Done())
  {
    HalfIs();
    HalfIsReached();
    DoneIs();
    RunTwo(Fresh([Plain("p", ["a", "b"])]), Asked(FIRST, "a", None), IPsEnsured(FIRST, Some(Asks("a")), {}, {}));
    ReachedAgrees(Half(), IPsEnsured(FIRST, Some(Asks("a")), {}, {}), Done());
  }

  // The service moves to the other address: the patch has stored the new entry and released the first address, and the
  // clean-up that releases it again, because the allocation was in success, is still to come.
  function Moved(): State {
    State([Plain("p", ["a", "b"])], [Plain("p", ["a"])], map[FIRST := Holding([Entry("b", "", "", "", "p")])], [], [])
  }

  // Just then a second service takes that address.
  function Swapped(): State {
    State([Plain("p", ["a", "b"])], [],
          map[FIRST := Holding([Entry("b", "", "", "", "p")]), SECOND := Holding([Entry("a", "", "", "", "p")])],
          [], [])
  }

  lemma MoveBuild()
    ensures Build(Done().pools, Done().avail, "ns", Done().allocs[FIRST].entries, ["b"], [None])
            == Built([], [Entry("b", "", "", "", "p")], None)
  {
    var p, q := Plain("p", ["a", "b"]), Plain("p", ["b"]);
    var x, y := Entry("a", "", "", "", "p"), Entry("b", "", "", "", "p");
    TakeLast(q, "ns", "b");
    assert AssignNode(Plain("p", []), y, None) == y;
    BuildTakes([p], [q], "ns", "b", None, Use([], Some(Plain("p", []))), y);
    BuildOther([p], [q], "ns", x, "b", None);
  }

  // An address that is not held is requested as if none were.
  lemma BuildOther(declared: seq<Pool>, av: seq<Pool>, namespace: string, x: Entry, ip: string, pick: Option<string>)
    requires x.address != ip
    ensures Build(declared, av, namespace, [x], [ip], [pick]) == Build(declared, av, namespace, [], [ip], [pick])
  {
    BuildOne(declared, av, namespace, [x], ip, pick);
    BuildOne(declared, av, namespace, [], ip, pick);
    assert [x][1..] == [];
  }

  lemma DropOther(x: Entry, y: Entry)
    requires x.address != y.address
    ensures Dropped([x], [y]) == [x]
  {
    assert [y][1..] == [] && [x][..0] == [] && [] + [x] == [x];
  }

  lemma ReleaseIntoNone(p: Pool, namespace: string, e: Entry)
    requires p.Allows(namespace) && e.address in p.addresses
    ensures ReleaseEntries([p], [], namespace, [e]) == [p.(addresses := [e.address])]
  {
    assert [e][..0] == [];
    assert PoolOfAddress([p], namespace, e.address) == Some(p);
    assert [] + [p.(addresses := [e.address])] == [p.(addresses := [e.address])];
  }

  lemma MovePatch()
    ensures Patch(Done().pools, Done().avail, "ns", Done().allocs[FIRST], ["b"], [None], true)
            == Patched([Plain("p", ["a"])], Holding([Entry("b", "", "", "", "p")]), [Entry("a", "", "", "", "p")],
                 None, None, true)
  {
    var x, y := Entry("a", "", "", "", "p"), Entry("b", "", "", "", "p");
    MoveBuild();
    DropOther(x, y);
    ReleaseIntoNone(Plain("p", ["a", "b"]), "ns", x);
    assert [x] != [y];
  }

  lemma PatchedAgrees(s: State, key: Key, ips: seq<string>, picks: seq<Option<string>>, p: Patched)
    requires LedgerAgrees(s) && key in s.allocs && |picks| == |ips|
    requires p == Patch(s.pools, s.avail, key.namespace, s.allocs[key], ips, picks, true) && p.error.None?
    ensures LedgerAgrees(s.(avail := p.av, allocs := s.allocs[key := p.stored]))
  {
    PatchKeepsLedger(s, key, ips, picks, true);
  }

  lemma MovedIs()
    ensures Done().(avail := [Plain("p", ["a"])], allocs :=
        Done().allocs[FIRST := Holding([Entry("b", "", "", "", "p")])])
            == Moved()
  {
    var y := Holding([Entry("b", "", "", "", "p")]);
    assert Done().allocs[FIRST := y] == map[FIRST := y];
  }

  // That is what the patch leaves, and it agrees.
  lemma MovedIsReached()
    ensures var p := Patch(Done().pools, Done().avail, "ns", Done().allocs[FIRST], ["b"], [None], true);
            Done().(avail := p.av, allocs := Done().allocs[FIRST := p.stored]) == Moved()
    ensures LedgerAgrees(Moved())
  {
    var p := Patch(Done().pools, Done().avail, "ns", Done().allocs[FIRST], ["b"], [None], true);
    DoneIsReached();
    MovePatch();
    MovedIs();
    PatchedAgrees(Done(), FIRST, ["b"], [None], p);
  }

  lemma SwappedIsReached()
    ensures Apply(Moved(), Asked(SECOND, "a", None)) == Swapped()
    ensures LedgerAgrees(Swapped())
  {
    MovedIsReached();
    var x := Entry("a", "", "", "", "p");
    assert AssignNode(Plain("p", ["a"]), x, None) == x;
    AskLast(Moved(), Plain("p", ["a"]), SECOND, "a", None);
    ReachedAgrees(Moved(), Asked(SECOND, "a", None), Swapped());
  }

  // The clean-up of the first service then releases what the patch removed a second time, and offers what is taken.
  lemma LateReleaseOffersTaken()
    ensures var p := Patch(Done().pools, Done().avail, "ns", Done().allocs[FIRST], ["b"], [None], true);
            && p.error.None? && Done().allocs[FIRST].status == Success
            && Done().(avail := p.av, allocs := Done().allocs[FIRST := p.stored]) == Moved()
            && Apply(Moved(), Asked(SECOND, "a", None)) == Swapped()
            && !LedgerAgrees(Swapped().(avail := ReleaseEntries(Swapped().pools, Swapped().avail, "ns", p.removed)))
  {
    MovePatch();
    MovedIsReached();
    SwappedIsReached();
    var s := Swapped();
    var x := Entry("a", "", "", "", "p");
    assert s.pools[0] == Plain("p", ["a", "b"]);
    assert Owns(s.allocs, SECOND, "a");
    SecondReleaseOffersTaken(s, SECOND, "a");
    assert [x][..0] == [];
    assert ReleaseEntries(s.pools, s.avail, "ns", [x]) == ReleaseIP(s.pools, s.avail, "p", "ns", "a");
  }

  // ---- a release under the name of another pool ----

  // Its allocation deleted, the address moves from the pool "p" to the pool "q".
  function MovedAway(): State {
    State([Plain("p", []), Plain("q", ["b", "a"])], [Plain("q", ["b", "a"])], map[],
          [Deleted(FIRST, Holding([Entry("a", "", "", "", "p")]))], [])
  }

  lemma NothingToEdit(s: State, pool: Pool)
    requires s.allocs == map[]
    ensures PoolModified(s, pool) == s.(avail := AddOrReplace(s.avail, pool))
  {
    assert EditedAllocs(s.allocs, Modified(pool)) == s.allocs;
    assert OwnedIn(s.allocs) == {};
    AllFree(pool.addresses);
  }

  lemma MovedAwayIsReached()
    ensures History(DeleteAllocation(TakenBeside(), FIRST),
        [PoolEdited(0, Plain("p", [])), PoolEdited(1, Plain("q", ["b", "a"]))])
            == MovedAway()
  {
    var p, q := Plain("p", []), Plain("q", ["b", "a"]);
    var s := DeleteAllocation(TakenBeside(), FIRST);
    assert s.allocs == map[];
    HistoryTwo(s, PoolEdited(0, p), PoolEdited(1, q));
    NothingToEdit(s.(pools := s.pools[0 := p]), p);
    var t := Advance(s, PoolEdited(0, p));
    assert t.pools == [p, Plain("q", ["b"])] && t.avail == [Plain("q", ["b"])];
    NothingToEdit(t.(pools := t.pools[1 := q]), q);
    assert t.avail[0 := q] == [q];
    assert t.pools[1 := q] == [p, q];
    assert s.deleted == MovedAway().deleted;
  }

  // The release then names "p", finds "q" by the address, and puts a second entry of "q" in the list.
  lemma MovedAddressDoublesEntry()
    ensures !WellFormed(Apply(MovedAway(), DeletionHandled(0, None, [], true, {})).avail)
  {
    var p, q := Plain("p", []), Plain("q", ["b", "a"]);
    var entries := [Entry("a", "", "", "", "p")];
    assert entries[..0] == [];
    assert IndexServing([p, q], "ns", "a") == 1;
    assert IndexOfName([q], "p") == 1;
    assert ReleaseEntries([p, q], [q], "ns", entries) == [q] + [Plain("q", ["a"])];
    var v := Apply(MovedAway(), DeletionHandled(0, None, [], true, {}));
    assert v.avail == [q] + [Plain("q", ["a"])];
    assert v.avail[0].name == v.avail[1].name;
  }

  // Two pools, the one address of the first taken.
  function TakenBeside(): State {
    State([Plain("p", ["a"]), Plain("q", ["b"])], [Plain("q", ["b"])],
          map[FIRST := Holding([Entry("a", "", "", "", "p")])], [], [])
  }

  lemma TakeBeside()
    ensures UseIP([Plain("p", ["a"]), Plain("q", ["b"])], "ns", "a") == Use([Plain("q", ["b"])], Some(Plain("p", [])))
  {
    var p, q := Plain("p", ["a"]), Plain("q", ["b"]);
    assert ["a"][..0] == [];
    assert Without(["a"], "a") == [];
    assert IndexServing([p, q], "ns", "a") == 0;
    var left := Plain("p", []);
    assert [p, q][0 := left] == [left, q];
    assert IndexOfName([left, q], "p") == 0;
    assert [left, q][0 := q][..1] == [q];
    assert TakeFrom([p, q], 0, "a") == [q];
  }

  lemma TakenBesideIs()
    ensures Apply(Fresh([Plain("p", ["a"]), Plain("q", ["b"])]), Asked(FIRST, "a", None)) == TakenBeside()
  {
    var p, q := Plain("p", ["a"]), Plain("q", ["b"]);
    var left := Plain("p", []);
    var e := Entry("a", "", "", "", "p");
    FreshTwo(p, q);
    TakeBeside();
    assert AssignNode(left, e, None) == e;
    BuildTakes([p, q], [p, q], "ns", "a", None, Use([q], Some(left)), e);
    CreatedState(Fresh([p, q]), FIRST, Asks("a"), [None], [q], [e]);
    assert map[][FIRST := Holding([e])] == map[FIRST := Holding([e])];
  }

  lemma TakenBesideIsReached()
    ensures Run(Fresh([Plain("p", ["a"]), Plain("q", ["b"])]), [Asked(FIRST, "a", None)]) == TakenBeside()
    ensures LedgerAgrees(TakenBeside())
  {
    TakenBesideIs();
    FreshStep([Plain("p", ["a"]), Plain("q", ["b"])], Asked(FIRST, "a", None), TakenBeside());
  }

  // ---- a removed pool ----

  lemma FreeOutlivesPool(s: State, i: nat, namespace: string, a: string)
    requires LedgerAgrees(s) && i < |s.pools| && a in s.pools[i].addresses && s.pools[i].Allows(namespace)
    requires !IsOwned(s, a) && !IsAwaiting(s, a)
    ensures var t := History(s, [PoolWithdrawn(i)]);
            !LedgerAgrees(t) && UseIP(t.avail, namespace, a).pool.Some?
  {
    HistoryOne(s, PoolWithdrawn(i));
    WithdrawKeepsLedgerIff(s, i);
    WithdrawnStillHandedOut(s, i, namespace, a);
  }

  // A pool nobody took anything from is removed: its address is still handed out.
  lemma RemovedPoolOffers()
    ensures var t := History(Fresh([Plain("p", ["a"])]), [PoolWithdrawn(0)]);
            !LedgerAgrees(t) && UseIP(t.avail, "ns", "a").pool.Some?
  {
    FreshRun([Plain("p", ["a"])], []);
    assert Fresh([Plain("p", ["a"])]).pools[0] == Plain("p", ["a"]);
    FreeOutlivesPool(Fresh([Plain("p", ["a"])]), 0, "ns", "a");
  }
}

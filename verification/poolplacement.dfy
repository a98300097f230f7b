// What becomes of the placement when pools come, change and go.
module PoolPlacement {
  import opened Types
  import opened Availability
  import opened Allocations
  import opened Speaker
  import opened Cluster
  import opened Ledger
  import opened Placement
  import opened PoolEdit
  import opened PoolLife

  // ---- an edited pool ----

  // An entry of the pool that the edit leaves.
  ghost predicate KeptEntry(s: State, pool: Pool, k: Key, e: Entry) {
    k in s.allocs && e in s.allocs[k].entries && e.pool == pool.name && e.address in pool.addresses
  }

  // It is in an allocation the edit leaves in success.
  ghost predicate KeptInSuccess(s: State, pool: Pool, k: Key, e: Entry) {
    && KeptEntry(s, pool, k, e) && s.allocs[k].status == Success
    && forall f :: f in s.allocs[k].entries ==> !Disowned(Modified(pool), f)
  }

  // What ready nodes have of the addresses of the pool is on the interface it asks for.
  ghost predicate NodesFitPool(nodes: seq<Node>, pool: Pool) {
    forall j, x :: HasReady(nodes, j, x) && x.address in pool.addresses ==>
      pool.HasHostNetwork() && x.networkInterface == pool.InterfaceName()
  }

  // What an edit of pool i has to respect: nodes have its addresses only on its new interface, the interface it asks
  // for is the old one when entries remain, and so is the option itself when success allocations keep entries.
  ghost predicate StillPlaced(s: State, i: nat, pool: Pool)
    requires i < |s.pools|
  {
    && NodesFitPool(s.nodes, pool)
    && (forall k, e :: KeptEntry(s, pool, k, e) ==> HostInterface(pool) == HostInterface(s.pools[i]))
    && (forall k, e :: KeptInSuccess(s, pool, k, e) ==> pool.HasHostNetwork() == s.pools[i].HasHostNetwork())
  }

  lemma EditedPoolByName(pools: seq<Pool>, i: nat, pool: Pool, name: string)
    requires DisjointPools(pools) && i < |pools| && pools[i].name == pool.name && DisjointPools(pools[i := pool])
    ensures PoolByName(pools[i := pool], name) == if name == pool.name then Some(pool) else PoolByName(pools, name)
  {
    var after := pools[i := pool];
    assert after[i] == pool;
    IndexOfNameIs(pools, IndexOfName(pools, name), name);
    IndexOfNameIs(after, IndexOfName(pools, name), name);
  }

  lemma {:induction false} KeptDistinct(entries: seq<Entry>, gone: set<string>)
    requires Distinct(AddressList(entries))
    ensures Distinct(AddressList(KeepEntries(entries, gone)))
  {
    if entries != [] {
      var n := |entries| - 1;
      var rest := KeepEntries(entries[..n], gone);
      assert AddressList(entries[..n]) == AddressList(entries)[..n];
      KeptDistinct(entries[..n], gone);
      KeepEntriesAre(entries[..n], gone);
      LastNotBefore(entries, n);
      assert AddressList(rest + [entries[n]]) == AddressList(rest) + [entries[n].address];
      forall j | 0 <= j < |rest|
        ensures rest[j].address != entries[n].address
      {
        assert rest[j] in entries[..n];
      }
    }
  }

  lemma HostOfEntry(s: State, i: nat, k: Key, e: Entry)
    requires LedgerAgrees(s) && PlacementHolds(s) && i < |s.pools| && k in s.allocs && e in s.allocs[k].entries
    requires e.pool == s.pools[i].name
    ensures e.networkInterface == HostInterface(s.pools[i]) && PoolByName(s.pools, e.pool) == Some(s.pools[i])
  {
    PoolByNameIs(s.pools, s.pools[i]);
    assert RightInterface(s.pools, e);
  }

  lemma EditedEntriesGood(s: State, i: nat, pool: Pool, k: Key)
    requires LedgerAgrees(s) && PlacementHolds(s) && i < |s.pools| && s.pools[i].name == pool.name
    requires DisjointPools(s.pools[i := pool]) && StillPlaced(s, i, pool) && k in s.allocs
    ensures GoodEntries(s.pools[i := pool], Edited(s.allocs[k], Modified(pool)).entries)
  {
    var o := s.allocs[k];
    StripMeaning(o, o.entries, Modified(pool));
    KeptDistinct(o.entries, Gone(o.entries, Modified(pool)));
    EditedEntries(o, Modified(pool));
    forall e | e in Edited(o, Modified(pool)).entries
      ensures RightInterface(s.pools[i := pool], e)
    {
      EditedPoolByName(s.pools, i, pool, e.pool);
      assert RightInterface(s.pools, e);
      if e.pool == pool.name {
        HostOfEntry(s, i, k, e);
        assert KeptEntry(s, pool, k, e);
      }
    }
  }

  lemma EditedHome(s: State, i: nat, pool: Pool)
    requires LedgerAgrees(s) && PlacementHolds(s) && i < |s.pools| && s.pools[i].name == pool.name
    requires DisjointPools(s.pools[i := pool]) && NodesFitPool(s.nodes, pool)
    ensures AllAtHome(s.pools[i := pool], s.nodes)
  {
    var after := s.pools[i := pool];
    assert after[i] == pool;
    forall j, x | HasReady(s.nodes, j, x) && x.address in DeclaredAddresses(after)
      ensures AtHome(after, x)
    {
      if x.address !in pool.addresses {
        var m :| 0 <= m < |after| && x.address in after[m].addresses;
        assert after[m] == s.pools[m];
        assert AtHome(s.pools, x);
        var d :| d in s.pools && x.address in d.addresses && d.HasHostNetwork()
            && x.networkInterface == d.InterfaceName();
        var l :| 0 <= l < |s.pools| && s.pools[l] == d;
        assert l == m;
      }
    }
  }

  // An allocation that is in success after the edit is the one it was.
  lemma EditedSuccess(s: State, i: nat, pool: Pool, k: Key, e: Entry)
    requires LedgerAgrees(s) && PlacementHolds(s) && i < |s.pools| && s.pools[i].name == pool.name
    requires DisjointPools(s.pools[i := pool]) && StillPlaced(s, i, pool) && k in s.allocs
    requires Edited(s.allocs[k], Modified(pool)).status == Success && e in Edited(s.allocs[k], Modified(pool)).entries
    ensures Placed(s.pools[i := pool], s.nodes, e)
  {
    EditedEntries(s.allocs[k], Modified(pool));
    EditedPoolByName(s.pools, i, pool, e.pool);
    assert Placed(s.pools, s.nodes, e);
    if e.pool == pool.name {
      HostOfEntry(s, i, k, e);
      assert KeptInSuccess(s, pool, k, e);
    }
  }

  lemma {:induction false} NothingStripped(o: IPAllocation, entries: seq<Entry>, change: Change)
    requires forall e :: e in entries ==> !Disowned(change, e)
    ensures Strip(o, entries, change) == o
  {
    if entries != [] {
      NothingStripped(o, entries[..|entries| - 1], change);
    }
  }

  lemma KeptMustAgree(s: State, i: nat, pool: Pool, k: Key, e: Entry)
    requires LedgerAgrees(s) && PlacementHolds(s) && i < |s.pools| && s.pools[i].name == pool.name
    requires DisjointPools(s.pools[i := pool]) && KeptEntry(s, pool, k, e)
    requires PlacementHolds(PoolModified(s.(pools := s.pools[i := pool]), pool))
    ensures HostInterface(pool) == HostInterface(s.pools[i])
    ensures KeptInSuccess(s, pool, k, e) ==> pool.HasHostNetwork() == s.pools[i].HasHostNetwork()
  {
    var after := s.pools[i := pool];
    StaysWhenDeclared(s, pool, k, e);
    EditedPoolByName(s.pools, i, pool, e.pool);
    HostOfEntry(s, i, k, e);
    var t := PoolModified(s.(pools := after), pool);
    assert k in t.allocs && e in t.allocs[k].entries;
    assert RightInterface(t.pools, e);
    if KeptInSuccess(s, pool, k, e) {
      NothingStripped(s.allocs[k], s.allocs[k].entries, Modified(pool));
      assert Placed(after, s.nodes, e) && Placed(s.pools, s.nodes, e);
      if OnHost(after, e) {
        PlacedHasInterface(s, after, e);
      }
      if OnHost(s.pools, e) {
        PlacedHasInterface(s, s.pools, e);
      }
    }
  }

  // An address is on no interface without a name.
  lemma PlacedHasInterface(s: State, pools: seq<Pool>, e: Entry)
    requires NodesSane(s.nodes) && Placed(pools, s.nodes, e) && OnHost(pools, e)
    ensures HostSlot(pools, e).networkInterface != ""
  {
    var x := HostSlot(pools, e);
    var j :| 0 <= j < |s.nodes| && s.nodes[j].name == e.nodeName && s.nodes[j].ready && Holds(s.nodes[j], x);
    assert OnOwnLinks(s.nodes[j]) && Touches(s.nodes[j], x);
  }

  lemma NodesMustFit(s: State, i: nat, pool: Pool)
    requires i < |s.pools| && DisjointPools(s.pools[i := pool]) && AllAtHome(s.pools[i := pool], s.nodes)
    ensures NodesFitPool(s.nodes, pool)
  {
    var after := s.pools[i := pool];
    assert after[i] == pool;
    forall j, x | HasReady(s.nodes, j, x) && x.address in pool.addresses
      ensures pool.HasHostNetwork() && x.networkInterface == pool.InterfaceName()
    {
      assert pool in after && x.address in DeclaredAddresses(after);
      var d :| d in after && x.address in d.addresses && d.HasHostNetwork() && x.networkInterface == d.InterfaceName();
      var l :| 0 <= l < |after| && after[l] == d;
      assert l == i;
    }
  }

  // The placement survives an edit of a pool, to disjoint pools, exactly when the edit leaves its addresses where
  // they are: no entry of the pool and no ready node is left with another interface.
  lemma EditKeepsPlacementIff(s: State, i: nat, pool: Pool)
    requires LedgerAgrees(s) && PlacementHolds(s) && i < |s.pools| && s.pools[i].name == pool.name
    requires DisjointPools(s.pools[i := pool])
    ensures PlacementHolds(PoolModified(s.(pools := s.pools[i := pool]), pool)) <==> StillPlaced(s, i, pool)
  {
    var t := PoolModified(s.(pools := s.pools[i := pool]), pool);
    if StillPlaced(s, i, pool) {
      EditedHome(s, i, pool);
      forall k | k in t.allocs
        ensures GoodEntries(t.pools, t.allocs[k].entries)
      {
        EditedEntriesGood(s, i, pool, k);
      }
      forall k, e | k in t.allocs && t.allocs[k].status == Success && e in t.allocs[k].entries
        ensures Placed(t.pools, t.nodes, e)
      {
        EditedSuccess(s, i, pool, k, e);
      }
    }
    if PlacementHolds(t) {
      NodesMustFit(s, i, pool);
      forall k, e | KeptEntry(s, pool, k, e)
        ensures HostInterface(pool) == HostInterface(s.pools[i])
        ensures KeptInSuccess(s, pool, k, e) ==> pool.HasHostNetwork() == s.pools[i].HasHostNetwork()
      {
        KeptMustAgree(s, i, pool, k, e);
      }
    }
  }

  // ---- a new pool and a removed one ----

  lemma EntryPoolIn(pools: seq<Pool>, more: seq<Pool>, namespace: string, e: Entry)
    requires DisjointPools(pools) && DisjointPools(more) && Backed(pools, namespace, e)
    requires forall d :: d in pools && e.address in d.addresses ==> d in more
    ensures PoolByName(more, e.pool) == PoolByName(pools, e.pool)
  {
    var d :| d in pools && Serves(d, namespace, e.address) && d.name == e.pool;
    PoolByNameIs(pools, d);
    PoolByNameIs(more, d);
  }

  // With one pool more, the nodes are as they should be exactly when they have its addresses where it wants them.
  lemma MoreHomeIff(pools: seq<Pool>, pool: Pool, nodes: seq<Node>)
    requires DisjointPools(pools + [pool]) && AllAtHome(pools, nodes)
    ensures AllAtHome(pools + [pool], nodes) <==> NodesFitPool(nodes, pool)
  {
    var more := pools + [pool];
    var n := |pools|;
    assert more[n] == pool && forall j :: 0 <= j < n ==> more[j] == pools[j];
    if NodesFitPool(nodes, pool) {
      forall j, x | HasReady(nodes, j, x) && x.address in DeclaredAddresses(more)
        ensures AtHome(more, x)
      {
        assert pool in more;
        if x.address !in pool.addresses {
          assert AtHome(pools, x);
        }
      }
    }
    if AllAtHome(more, nodes) {
      forall j, x | HasReady(nodes, j, x) && x.address in pool.addresses
        ensures pool.HasHostNetwork() && x.networkInterface == pool.InterfaceName()
      {
        assert pool in more && x.address in DeclaredAddresses(more);
        var d :| d in more && x.address in d.addresses && d.HasHostNetwork() && x.networkInterface == d.InterfaceName();
        var l :| 0 <= l < |more| && more[l] == d;
        assert l == n;
      }
    }
  }

  // A new pool keeps the placement exactly when no ready node has one of its addresses elsewhere than it wants them,
  // left there by a pool that once declared them.
  lemma DeclareKeepsPlacementIff(s: State, pool: Pool)
    requires LedgerAgrees(s) && PlacementHolds(s) && DisjointPools(s.pools + [pool])
    ensures PlacementHolds(Declare(s, pool)) <==> NodesFitPool(s.nodes, pool)
  {
    var more := s.pools + [pool];
    MoreHomeIff(s.pools, pool, s.nodes);
    forall k, e | k in s.allocs && e in s.allocs[k].entries
      ensures PoolByName(more, e.pool) == PoolByName(s.pools, e.pool)
      ensures RightInterface(more, e) && (s.allocs[k].status == Success ==> Placed(more, s.nodes, e))
    {
      assert Backed(s.pools, k.namespace, e);
      EntryPoolIn(s.pools, more, k.namespace, e);
      assert RightInterface(s.pools, e);
      if s.allocs[k].status == Success {
        assert Placed(s.pools, s.nodes, e);
      }
    }
  }

  // Removing a pool always keeps it: what is left names other pools.
  lemma WithdrawKeepsPlacement(s: State, i: nat)
    requires LedgerAgrees(s) && PlacementHolds(s) && i < |s.pools|
    ensures PlacementHolds(Withdraw(s, i))
  {
    var t := Withdraw(s, i);
    WithoutPoolIs(s.pools, i);
    forall j, x | HasReady(s.nodes, j, x) && x.address in DeclaredAddresses(t.pools)
      ensures AtHome(t.pools, x)
    {
      assert AtHome(s.pools, x);
    }
    forall k, e | k in t.allocs && e in t.allocs[k].entries
      ensures e in s.allocs[k].entries && PoolByName(t.pools, e.pool) == PoolByName(s.pools, e.pool)
      ensures t.allocs[k].status == Success ==> s.allocs[k].status == Success
    {
      EditedEntries(s.allocs[k], Removed(s.pools[i]));
      assert Backed(s.pools, k.namespace, e);
      EntryPoolIn(s.pools, t.pools, k.namespace, e);
    }
    forall k | k in t.allocs
      ensures Distinct(AddressList(t.allocs[k].entries))
    {
      StripMeaning(s.allocs[k], s.allocs[k].entries, Removed(s.pools[i]));
      KeptDistinct(s.allocs[k].entries, Gone(s.allocs[k].entries, Removed(s.pools[i])));
    }
    forall k, e | k in t.allocs && e in t.allocs[k].entries
      ensures RightInterface(t.pools, e) && (t.allocs[k].status == Success ==> Placed(t.pools, t.nodes, e))
    {
      assert RightInterface(s.pools, e);
      if t.allocs[k].status == Success {
        assert Placed(s.pools, s.nodes, e);
      }
    }
  }

  // ---- runs with changing pools ----

  // What the placement rests on in each step, beside what the ledger does.
  ghost predicate FairToPlacement(s: State, step: Step) {
    match step
    case Handled(e) => Admissible(s, e)
    case PoolDeclared(pool) => NodesFitPool(s.nodes, pool)
    case PoolEdited(i, pool) => i < |s.pools| && StillPlaced(s, i, pool)
    case PoolWithdrawn(_) => true
  }

  lemma FairStepKeepsPlacement(s: State, step: Step)
    requires LedgerAgrees(s) && PlacementHolds(s) && Fair(s, step) && FairToPlacement(s, step)
    ensures PlacementHolds(Advance(s, step))
  {
    match step
    case Handled(e) => StepKeepsPlacement(s, e);
    case PoolDeclared(pool) => DeclareKeepsPlacementIff(s, pool);
    case PoolEdited(i, pool) => EditKeepsPlacementIff(s, i, pool);
    case PoolWithdrawn(i) => WithdrawKeepsPlacement(s, i);
  }

  // Through every history of admissible events and fair changes of the pools, each address of a success allocation is
  // on the node it names, on the interface of its pool, and on no ready node in any other place.
  lemma {:induction false} HistoryKeepsPlacement(s: State, steps: seq<Step>)
    requires LedgerAgrees(s) && PlacementHolds(s)
    requires forall i :: 0 <= i < |steps| ==>
        Fair(History(s, steps[..i]), steps[i]) && FairToPlacement(History(s, steps[..i]), steps[i])
    ensures LedgerAgrees(History(s, steps)) && PlacementHolds(History(s, steps))
  {
    if steps != [] {
      var n := |steps| - 1;
      assert forall i :: 0 <= i < n ==> steps[..n][..i] == steps[..i];
      HistoryKeepsPlacement(s, steps[..n]);
      FairStepKeepsLedger(History(s, steps[..n]), steps[n]);
      FairStepKeepsPlacement(History(s, steps[..n]), steps[n]);
    }
  }
}

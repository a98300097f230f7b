// allocator.go of persistentips as values: what building, patching, creating and moving an allocation computes.
// `picks` are the node choices, one per address: Some(node) when a node was found, None when picking failed.
module Allocations {
  import opened Types
  import opened Availability

  // ---- helpers ----

  function FindEntry(entries: seq<Entry>, address: string): (r: Option<Entry>)
    ensures r.Some? ==> r.value in entries && r.value.address == address
    ensures r.None? ==> address !in AddressesOf(entries)
  {
    if entries == [] then None
    else if entries[0].address == address then Some(entries[0])
    else FindEntry(entries[1..], address)
  }

  // The elements of s that are wanted, in order.
  function Keep(s: seq<string>, wanted: set<string>): seq<string> {
    if s == [] then []
    else
      var n := |s| - 1;
      Keep(s[..n], wanted) + (if s[n] in wanted then [s[n]] else [])
  }

  // ---- one address ----

  // addOperatorNodeToAllocation picks a node only in these two cases.
  predicate NeedsNode(pool: Pool, e: Entry) {
    if pool.HasHostNetwork()
        && (e.nodeName == "" || e.networkInterface == "" || e.networkInterface != pool.InterfaceName()) then true
    else pool.hetzner && e.nodeName == ""
  }

  function AssignNode(pool: Pool, e: Entry, pick: Option<string>): Entry {
    var onInterface :=
      if pool.HasHostNetwork() && NeedsNode(pool, e)
          && (e.nodeName == "" || e.networkInterface == "" || e.networkInterface != pool.InterfaceName())
      then e.(networkInterface := pool.InterfaceName()) else e;
    var onNode := if NeedsNode(pool, e) && pick.Some? then onInterface.(nodeName := pick.value) else onInterface;
    onNode.(cloudProvider := pool.CloudProvider())
  }

  predicate PickFails(pool: Pool, e: Entry, pick: Option<string>) {
    NeedsNode(pool, e) && pick.None?
  }

  // ---- buildAllocations ----

  datatype Built = Built(av: seq<Pool>, entries: seq<Entry>, error: Option<Error>)

  function Place(b: Built, pool: Pool, e: Entry, pick: Option<string>): Built {
    Built(b.av, b.entries + [AssignNode(pool, e, pick)], if PickFails(pool, e, pick) then Some(NoNode) else b.error)
  }

  function BuildStep(declared: seq<Pool>, namespace: string, current: seq<Entry>, b: Built, ip: string,
      pick: Option<string>): Built {
    match FindEntry(current, ip)
    case Some(ready) =>
      // a held address whose pool is gone is dropped, and the error is not reported
      (match PoolOfAddress(declared, namespace, ip)
       case Some(pool) => Place(b, pool, ready, pick)
       case None => b)
    case None =>
      var u := UseIP(b.av, namespace, ip);
      match u.pool
      case Some(pool) => Place(b.(av := u.av), pool, Entry(ip, "", "", "", pool.name), pick)
      case None => b.(error := Some(NoIPAvailable))
  }

  function Build(declared: seq<Pool>, av: seq<Pool>, namespace: string, current: seq<Entry>, ips: seq<string>,
      picks: seq<Option<string>>): Built
    requires |picks| == |ips|
  {
    if ips == [] then Built(av, [], None)
    else
      var n := |ips| - 1;
      BuildStep(declared, namespace, current, Build(declared, av, namespace, current, ips[..n], picks[..n]), ips[n],
          picks[n])
  }

  lemma BuildNext(declared: seq<Pool>, av: seq<Pool>, namespace: string, current: seq<Entry>, ips: seq<string>,
      picks: seq<Option<string>>, n: nat)
    requires n < |ips| == |picks|
    ensures Build(declared, av, namespace, current, ips[..n + 1], picks[..n + 1])
            == BuildStep(declared, namespace, current, Build(declared, av, namespace, current, ips[..n], picks[..n]),
                ips[n], picks[n])
  {
    assert ips[..n + 1][..n] == ips[..n] && picks[..n + 1][..n] == picks[..n];
  }

  // ---- releasing ----

  function ReleaseEntries(declared: seq<Pool>, av: seq<Pool>, namespace: string, entries: seq<Entry>): seq<Pool> {
    if entries == [] then av
    else
      var n := |entries| - 1;
      ReleaseIP(declared, ReleaseEntries(declared, av, namespace, entries[..n]), entries[n].pool, namespace,
          entries[n].address)
  }

  lemma ReleaseNext(declared: seq<Pool>, av: seq<Pool>, namespace: string, entries: seq<Entry>, n: nat)
    requires n < |entries|
    ensures ReleaseEntries(declared, av, namespace, entries[..n + 1])
            == ReleaseIP(declared, ReleaseEntries(declared, av, namespace, entries[..n]), entries[n].pool, namespace,
                 entries[n].address)
  {
    assert entries[..n + 1][..n] == entries[..n];
  }

  // The entries of the old spec whose address is not in the new one, in order.
  function Dropped(entries: seq<Entry>, kept: seq<Entry>): (r: seq<Entry>)
    ensures forall e :: e in r <==> e in entries && FindEntry(kept, e.address).None?
  {
    if entries == [] then []
    else
      var n := |entries| - 1;
      assert entries == entries[..n] + [entries[n]];
      Dropped(entries[..n], kept) + (if FindEntry(kept, entries[n].address).None? then [entries[n]] else [])
  }

  // ---- CheckAndPatchAllocation ----

  datatype Patched = Patched(
    av: seq<Pool>,
    stored: IPAllocation,
    removed: seq<Entry>,
    allocError: Option<Error>,
    error: Option<Error>,
    written: bool)

  function StatusAfter(error: Option<Error>): Status {
    if error.Some? then Status.Error(error.value) else Pending
  }

  function Patch(declared: seq<Pool>, av: seq<Pool>, namespace: string, current: IPAllocation, ips: seq<string>,
      picks: seq<Option<string>>, updateOk: bool): Patched
    requires |picks| == |ips|
  {
    var b := Build(declared, av, namespace, current.entries, ips, picks);
    var removed := Dropped(current.entries, b.entries);
    var released := ReleaseEntries(declared, b.av, namespace, removed);
    if b.error.None? && b.entries == current.entries then
      Patched(released, current, removed, None, None, false)
    else if updateOk then
      Patched(released, current.(entries := b.entries, status := StatusAfter(b.error)), removed, b.error, None, true)
    else
      Patched(released, current, [], b.error, Some(WriteFailed), false)
  }

  // ---- createPersistentAllocation ----

  datatype Created = Created(av: seq<Pool>, stored: Option<IPAllocation>)

  function Create(declared: seq<Pool>, av: seq<Pool>, namespace: string, ips: seq<string>, picks: seq<Option<string>>,
      createOk: bool): Created
    requires |picks| == |ips|
  {
    var b := Build(declared, av, namespace, [], ips, picks);
    if createOk then Created(b.av, Some(IPAllocation(Persistent, b.entries, StatusAfter(b.error))))
    else Created(ReleaseEntries(declared, b.av, namespace, b.entries), None)
  }

  // ---- ChangeAllocationNode ----

  datatype Moved = Moved(entries: seq<Entry>, error: Option<Error>, stopped: bool)

  function MoveStep(declared: seq<Pool>, m: Moved, e: Entry, pick: Option<string>): Moved {
    if m.stopped then m.(entries := m.entries + [e])
    else
      match PoolByName(declared, e.pool)
      case None => Moved(m.entries + [e], Some(PoolNotFound), true)
      case Some(pool) =>
        var picksNode := pool.HasHostNetwork() || pool.hetzner;
        var node := if picksNode && pick.Some? then pick.value else "";
        var netInterface := if pool.HasHostNetwork() then pool.InterfaceName() else "";
        Moved(m.entries + [e.(networkInterface := netInterface, nodeName := node)],
              if picksNode && pick.None? then Some(NoNode) else m.error, false)
  }

  function Move(declared: seq<Pool>, entries: seq<Entry>, picks: seq<Option<string>>): (m: Moved)
    requires |picks| == |entries|
    ensures |m.entries| == |entries|
  {
    if entries == [] then Moved([], None, false)
    else
      var n := |entries| - 1;
      MoveStep(declared, Move(declared, entries[..n], picks[..n]), entries[n], picks[n])
  }

  // Moving changes neither the addresses nor the pools.
  lemma {:induction false} MoveKeepsAddresses(declared: seq<Pool>, entries: seq<Entry>, picks: seq<Option<string>>)
    requires |picks| == |entries|
    ensures var m := Move(declared, entries, picks);
            forall i :: 0 <= i < |entries| ==>
                m.entries[i].address == entries[i].address && m.entries[i].pool == entries[i].pool
  {
    if entries != [] {
      var n := |entries| - 1;
      MoveKeepsAddresses(declared, entries[..n], picks[..n]);
    }
  }

  // ---- meaning ----

  // The entry names the declared pool that serves its address to the namespace.
  ghost predicate Backed(declared: seq<Pool>, namespace: string, e: Entry) {
    exists d :: d in declared && Serves(d, namespace, e.address) && d.name == e.pool
  }

  ghost predicate AllBacked(declared: seq<Pool>, namespace: string, entries: seq<Entry>) {
    forall e :: e in entries ==> Backed(declared, namespace, e)
  }

  // The requested addresses the build takes from the availability.
  ghost function Obtained(declared: seq<Pool>, free: set<string>, namespace: string, current: seq<Entry>,
      ips: seq<string>): set<string> {
    set ip | ip in ips && ip !in AddressesOf(current) && ip in free && PoolOfAddress(declared, namespace, ip).Some?
  }

  // The requested addresses that are already held.
  ghost function Held(current: seq<Entry>, ips: seq<string>): set<string> {
    set ip | ip in ips && ip in AddressesOf(current)
  }

  // ---- what a build does ----

  // With fixed disjoint pools: it takes exactly the obtainable addresses, and allocates exactly those and the held
  // ones.
  lemma {:induction false} BuildMeaning(declared: seq<Pool>, av: seq<Pool>, free: set<string>, namespace: string,
      current: seq<Entry>, ips: seq<string>, picks: seq<Option<string>>)
    requires |picks| == |ips|
    requires DisjointPools(declared) && Offers(declared, av, free) && AllBacked(declared, namespace, current)
    ensures var b := Build(declared, av, namespace, current, ips, picks);
            var obtained := Obtained(declared, free, namespace, current, ips);
            && Offers(declared, b.av, free - obtained)
            && AddressesOf(b.entries) == Held(current, ips) + obtained
            && AllBacked(declared, namespace, b.entries)
  {
    if ips != [] {
      var n := |ips| - 1;
      assert ips == ips[..n] + [ips[n]];
      BuildMeaning(declared, av, free, namespace, current, ips[..n], picks[..n]);
      var before := Build(declared, av, namespace, current, ips[..n], picks[..n]);
      var obtained := Obtained(declared, free, namespace, current, ips[..n]);
      BuildStepMeaning(declared, before, free - obtained, namespace, current, ips[n], picks[n]);
      assert free - obtained - Obtained(declared, free - obtained, namespace, current, [ips[n]])
          == free - Obtained(declared, free, namespace, current, ips);
      assert Held(current, ips) == Held(current, ips[..n]) + Held(current, [ips[n]]);
      assert Obtained(declared, free, namespace, current, ips)
          == obtained + Obtained(declared, free - obtained, namespace, current, [ips[n]]);
    }
  }

  lemma BuildStepMeaning(declared: seq<Pool>, b: Built, free: set<string>, namespace: string, current: seq<Entry>,
      ip: string, pick: Option<string>)
    requires DisjointPools(declared) && Offers(declared, b.av, free)
    requires AllBacked(declared, namespace, current) && AllBacked(declared, namespace, b.entries)
    ensures var after := BuildStep(declared, namespace, current, b, ip, pick);
            var obtained := Obtained(declared, free, namespace, current, [ip]);
            && Offers(declared, after.av, free - obtained)
            && AddressesOf(after.entries) == AddressesOf(b.entries) + Held(current, [ip]) + obtained
            && AllBacked(declared, namespace, after.entries)
  {
    var after := BuildStep(declared, namespace, current, b, ip, pick);
    var obtained := Obtained(declared, free, namespace, current, [ip]);
    match FindEntry(current, ip)
    case Some(ready) =>
      assert Backed(declared, namespace, ready);
      var d :| d in declared && Serves(d, namespace, ip) && d.name == ready.pool;
      PoolOfAddressIs(declared, namespace, ip, d);
      PlaceMeaning(declared, b, namespace, d, ready, pick);
      assert obtained == {} && Held(current, [ip]) == {ip};
      assert free - obtained == free;
    case None =>
      UseTakesOne(declared, b.av, free, namespace, ip);
      assert Held(current, [ip]) == {};
      var u := UseIP(b.av, namespace, ip);
      if u.pool.Some? {
        assert obtained == {ip};
        var d := PoolOfAddress(declared, namespace, ip).value;
        assert d in declared && Serves(d, namespace, ip);
        PlaceMeaning(declared, b.(av := u.av), namespace, u.pool.value, Entry(ip, "", "", "", d.name), pick);
      } else {
        assert obtained == {};
        assert free - obtained == free;
      }
  }

  lemma PlaceMeaning(declared: seq<Pool>, b: Built, namespace: string, pool: Pool, e: Entry, pick: Option<string>)
    requires Backed(declared, namespace, e) && AllBacked(declared, namespace, b.entries)
    ensures var after := Place(b, pool, e, pick);
            AddressesOf(after.entries) == AddressesOf(b.entries) + {e.address}
                && AllBacked(declared, namespace, after.entries)
  {
    var placed := AssignNode(pool, e, pick);
    assert placed.address == e.address && placed.pool == e.pool;
    assert Backed(declared, namespace, placed);
    var entries := b.entries + [placed];
    assert AddressesOf(entries) == AddressesOf(b.entries) + {e.address} by {
      forall x | x in b.entries
        ensures x in entries
      {
      }
      assert placed in entries;
    }
  }

  // One request: an address held or obtainable is appended to the spec, any other is reported as an error.
  lemma BuildStepOrder(declared: seq<Pool>, b: Built, free: set<string>, namespace: string, current: seq<Entry>,
      ip: string, pick: Option<string>)
    requires DisjointPools(declared) && Offers(declared, b.av, free) && AllBacked(declared, namespace, current)
    ensures var after := BuildStep(declared, namespace, current, b, ip, pick);
            var granted := ip in AddressesOf(current) || (ip in free && PoolOfAddress(declared, namespace, ip).Some?);
            && AddressList(after.entries) == AddressList(b.entries) + (if granted then [ip] else [])
            && (granted && pick.Some? ==> after.error == b.error)
            && (after.error.None? ==> granted && b.error.None?)
  {
    match FindEntry(current, ip)
    case Some(ready) =>
      assert Backed(declared, namespace, ready);
      var d :| d in declared && Serves(d, namespace, ip) && d.name == ready.pool;
      PoolOfAddressIs(declared, namespace, ip, d);
      assert AddressList(Place(b, d, ready, pick).entries) == AddressList(b.entries) + [ip];
    case None =>
      UseTakesOne(declared, b.av, free, namespace, ip);
      var u := UseIP(b.av, namespace, ip);
      if u.pool.Some? {
        var e := Entry(ip, "", "", "", u.pool.value.name);
        assert AddressList(Place(b.(av := u.av), u.pool.value, e, pick).entries) == AddressList(b.entries) + [ip];
      }
  }

  // The addresses a build allocates.
  ghost function Granted(declared: seq<Pool>, free: set<string>, namespace: string, current: seq<Entry>,
      ips: seq<string>): set<string> {
    Held(current, ips) + Obtained(declared, free, namespace, current, ips)
  }

  // With distinct requests, what happens to the last one does not depend on the ones before it.
  lemma GrantedLast(declared: seq<Pool>, free: set<string>, namespace: string, current: seq<Entry>, ips: seq<string>,
      k: nat)
    requires Distinct(ips) && |ips| == k + 1
    ensures ips[k] in Granted(declared, free, namespace, current, ips) <==>
            ips[k] in AddressesOf(current)
                || (ips[k] in free - Obtained(declared, free, namespace, current, ips[..k])
                && PoolOfAddress(declared, namespace, ips[k]).Some?)
    ensures forall x :: x in ips[..k] ==>
            (x in Granted(declared, free, namespace, current, ips) <==>
                x in Granted(declared, free, namespace, current, ips[..k]))
  {
    assert ips[k] !in ips[..k];
  }

  // The last of several distinct requests, in terms of the whole build.
  lemma BuildLast(declared: seq<Pool>, av: seq<Pool>, free: set<string>, namespace: string, current: seq<Entry>,
      ips: seq<string>, picks: seq<Option<string>>, k: nat)
    requires |picks| == |ips| == k + 1 && Distinct(ips)
    requires DisjointPools(declared) && Offers(declared, av, free) && AllBacked(declared, namespace, current)
    ensures var before := Build(declared, av, namespace, current, ips[..k], picks[..k]);
            var after := Build(declared, av, namespace, current, ips, picks);
            var granted := ips[k] in Granted(declared, free, namespace, current, ips);
            && AddressList(after.entries) == AddressList(before.entries) + (if granted then [ips[k]] else [])
            && (granted && picks[k].Some? ==> after.error == before.error)
            && (after.error.None? ==> granted && before.error.None?)
  {
    BuildMeaning(declared, av, free, namespace, current, ips[..k], picks[..k]);
    var before := Build(declared, av, namespace, current, ips[..k], picks[..k]);
    var obtained := Obtained(declared, free, namespace, current, ips[..k]);
    BuildStepOrder(declared, before, free - obtained, namespace, current, ips[k], picks[k]);
    GrantedLast(declared, free, namespace, current, ips, k);
  }

  // For distinct requests the new spec lists, in request order, the addresses held and those just obtained.
  lemma {:induction false} BuildOrder(declared: seq<Pool>, av: seq<Pool>, free: set<string>, namespace: string,
      current: seq<Entry>, ips: seq<string>, picks: seq<Option<string>>)
    requires |picks| == |ips| && Distinct(ips)
    requires DisjointPools(declared) && Offers(declared, av, free) && AllBacked(declared, namespace, current)
    ensures var b := Build(declared, av, namespace, current, ips, picks);
            AddressList(b.entries) == Keep(ips, Granted(declared, free, namespace, current, ips))
  {
    if ips != [] {
      var k := |ips| - 1;
      BuildOrder(declared, av, free, namespace, current, ips[..k], picks[..k]);
      BuildLast(declared, av, free, namespace, current, ips, picks, k);
      GrantedLast(declared, free, namespace, current, ips, k);
      KeepSame(ips[..k], Granted(declared, free, namespace, current, ips),
          Granted(declared, free, namespace, current, ips[..k]));
    }
  }

  // For distinct requests a build reports no error only if it grants them all;
  // it reports none whenever it grants them all and every node choice succeeds.
  lemma {:induction false} BuildErrors(declared: seq<Pool>, av: seq<Pool>, free: set<string>, namespace: string,
      current: seq<Entry>, ips: seq<string>, picks: seq<Option<string>>)
    requires |picks| == |ips| && Distinct(ips)
    requires DisjointPools(declared) && Offers(declared, av, free) && AllBacked(declared, namespace, current)
    ensures var error := Build(declared, av, namespace, current, ips, picks).error;
            var granted := Granted(declared, free, namespace, current, ips);
            && (error.None? ==> AllIn(ips, granted))
            && (AllIn(ips, granted) && None !in picks ==> error.None?)
  {
    if ips != [] {
      var k := |ips| - 1;
      BuildErrors(declared, av, free, namespace, current, ips[..k], picks[..k]);
      BuildLast(declared, av, free, namespace, current, ips, picks, k);
      GrantedAllLast(declared, free, namespace, current, ips, k);
      assert None !in picks ==> None !in picks[..k] && picks[k].Some?;
    }
  }

  // A build without error lists all the requests, in their order.
  lemma BuildListsAll(declared: seq<Pool>, av: seq<Pool>, free: set<string>, namespace: string, current: seq<Entry>,
      ips: seq<string>, picks: seq<Option<string>>)
    requires |picks| == |ips| && Distinct(ips)
    requires DisjointPools(declared) && Offers(declared, av, free) && AllBacked(declared, namespace, current)
    requires Build(declared, av, namespace, current, ips, picks).error.None?
    ensures AddressList(Build(declared, av, namespace, current, ips, picks).entries) == ips
  {
    BuildErrors(declared, av, free, namespace, current, ips, picks);
    BuildOrder(declared, av, free, namespace, current, ips, picks);
    KeepAll(ips, Granted(declared, free, namespace, current, ips));
  }

  lemma {:induction false} KeepAll(s: seq<string>, wanted: set<string>)
    requires AllIn(s, wanted)
    ensures Keep(s, wanted) == s
  {
    if s != [] {
      var n := |s| - 1;
      assert s == s[..n] + [s[n]];
      KeepAll(s[..n], wanted);
    }
  }

  ghost predicate AllIn(s: seq<string>, a: set<string>) {
    forall x :: x in s ==> x in a
  }

  lemma GrantedAllLast(declared: seq<Pool>, free: set<string>, namespace: string, current: seq<Entry>, ips: seq<string>,
      k: nat)
    requires Distinct(ips) && |ips| == k + 1
    ensures var granted := Granted(declared, free, namespace, current, ips);
            AllIn(ips, granted) <==>
                AllIn(ips[..k], Granted(declared, free, namespace, current, ips[..k])) && ips[k] in granted
  {
    GrantedLast(declared, free, namespace, current, ips, k);
    assert ips == ips[..k] + [ips[k]];
  }

  // In any state at all, a requested address that was held stays in the spec exactly when a declared pool still
  // serves it to the namespace.
  lemma {:induction false} HeldKeptIff(declared: seq<Pool>, av: seq<Pool>, namespace: string, current: seq<Entry>,
      ips: seq<string>, picks: seq<Option<string>>, ip: string)
    requires |picks| == |ips| && ip in AddressesOf(current)
    ensures ip in AddressesOf(Build(declared, av, namespace, current, ips, picks).entries)
            <==> ip in ips && PoolOfAddress(declared, namespace, ip).Some?
  {
    if ips != [] {
      var k := |ips| - 1;
      var b := Build(declared, av, namespace, current, ips[..k], picks[..k]);
      HeldKeptIff(declared, av, namespace, current, ips[..k], picks[..k], ip);
      StepAddresses(declared, namespace, current, b, ips[k], picks[k]);
      assert ips == ips[..k] + [ips[k]];
    }
  }

  // One request adds its own address or none; a held one is added when its pool is known.
  lemma StepAddresses(declared: seq<Pool>, namespace: string, current: seq<Entry>, b: Built, ip: string,
      pick: Option<string>)
    ensures var after := BuildStep(declared, namespace, current, b, ip, pick);
            var before := AddressesOf(b.entries);
            && AddressesOf(after.entries) <= before + {ip} && before <= AddressesOf(after.entries)
            && (ip in AddressesOf(current) ==>
                  AddressesOf(after.entries) == if PoolOfAddress(declared, namespace, ip).Some? then before + {ip}
                      else before)
  {
    var after := BuildStep(declared, namespace, current, b, ip, pick);
    if after.entries != b.entries {
      var n := |b.entries|;
      assert after.entries[..n] == b.entries;
      AddressesLast(after.entries, n);
    }
  }

  // And those that go, go without an error: a build of held addresses reports none while node choices succeed,
  // whatever pools are declared.
  lemma {:induction false} HeldGoSilently(declared: seq<Pool>, av: seq<Pool>, namespace: string, current: seq<Entry>,
      ips: seq<string>, picks: seq<Option<string>>)
    requires |picks| == |ips| && AllIn(ips, AddressesOf(current)) && None !in picks
    ensures Build(declared, av, namespace, current, ips, picks).error.None?
    ensures Build(declared, av, namespace, current, ips, picks).av == av
  {
    if ips != [] {
      var k := |ips| - 1;
      assert ips[k] in ips && picks[k] in picks;
      HeldGoSilently(declared, av, namespace, current, ips[..k], picks[..k]);
    }
  }

  lemma {:induction false} KeepSame(s: seq<string>, a: set<string>, b: set<string>)
    requires forall x :: x in s ==> (x in a <==> x in b)
    ensures Keep(s, a) == Keep(s, b)
  {
    if s != [] {
      KeepSame(s[..|s| - 1], a, b);
    }
  }

  // ---- what a release does ----

  lemma {:induction false} ReleaseEntriesMeaning(declared: seq<Pool>, av: seq<Pool>, free: set<string>,
      namespace: string, entries: seq<Entry>)
    requires DisjointPools(declared) && Offers(declared, av, free) && AllBacked(declared, namespace, entries)
    ensures Offers(declared, ReleaseEntries(declared, av, namespace, entries), free + AddressesOf(entries))
  {
    if entries == [] {
      assert free + AddressesOf(entries) == free;
    } else {
      var n := |entries| - 1;
      var e := entries[n];
      ReleaseEntriesMeaning(declared, av, free, namespace, entries[..n]);
      var held := free + AddressesOf(entries[..n]);
      ReleaseBacked(declared, ReleaseEntries(declared, av, namespace, entries[..n]), held, namespace, e);
      AddressesLast(entries, n);
      assert held + {e.address} == free + AddressesOf(entries);
    }
  }

  lemma AddressesLast(entries: seq<Entry>, n: nat)
    requires |entries| == n + 1
    ensures AddressesOf(entries) == AddressesOf(entries[..n]) + {entries[n].address}
  {
    assert entries == entries[..n] + [entries[n]];
  }

  lemma ReleaseBacked(declared: seq<Pool>, av: seq<Pool>, free: set<string>, namespace: string, e: Entry)
    requires DisjointPools(declared) && Offers(declared, av, free) && Backed(declared, namespace, e)
    ensures var after := ReleaseIP(declared, av, e.pool, namespace, e.address);
            Offers(declared, after, free + {e.address}) && (e.address in free ==> after == av)
  {
    var d :| d in declared && Serves(d, namespace, e.address) && d.name == e.pool;
    PoolOfAddressIs(declared, namespace, e.address, d);
    ReleaseGivesBack(declared, av, free, e.pool, namespace, e.address);
    if e.address in free {
      var p :| p in av && e.address in p.addresses;
      OfferedByItsPool(declared, av, p, d, e.address);
      var i :| 0 <= i < |av| && av[i] == p;
      IndexOfNameUnique(av, i);
    }
  }

  // Releasing what is already free changes nothing at all.
  lemma {:induction false} ReleaseFreeEntries(declared: seq<Pool>, av: seq<Pool>, free: set<string>, namespace: string,
      entries: seq<Entry>)
    requires DisjointPools(declared) && Offers(declared, av, free) && AllBacked(declared, namespace, entries)
    requires AddressesOf(entries) <= free
    ensures ReleaseEntries(declared, av, namespace, entries) == av
  {
    if entries != [] {
      var n := |entries| - 1;
      var e := entries[n];
      ReleaseFreeEntries(declared, av, free, namespace, entries[..n]);
      assert e in entries && e.address in free;
      ReleaseBacked(declared, av, free, namespace, e);
    }
  }

  // ---- what a patch does ----

  // The removed list is exactly old minus new; the availability loses the obtained and gains the removed addresses.
  lemma PatchMeaning(declared: seq<Pool>, av: seq<Pool>, free: set<string>, namespace: string, current: IPAllocation,
      ips: seq<string>, picks: seq<Option<string>>, updateOk: bool)
    requires |picks| == |ips|
    requires DisjointPools(declared) && Offers(declared, av, free) && AllBacked(declared, namespace, current.entries)
    ensures var p := Patch(declared, av, namespace, current, ips, picks, updateOk);
            var obtained := Obtained(declared, free, namespace, current.entries, ips);
            var held := Held(current.entries, ips);
            && Offers(declared, p.av, free - obtained + (AddressesOf(current.entries) - held - obtained))
            && (p.error.None? ==>
                  && AddressesOf(p.stored.entries) == held + obtained
                  && AllBacked(declared, namespace, p.stored.entries)
                  && p.removed == Dropped(current.entries, p.stored.entries)
                  && AddressesOf(p.removed) == AddressesOf(current.entries) - AddressesOf(p.stored.entries))
            && (p.error.Some? <==>
                 && !updateOk
                 && !(&& p.allocError.None?
                      && Build(declared, av, namespace, current.entries, ips, picks).entries == current.entries))
            && (p.error.Some? ==> p.stored == current)
            && AllBacked(declared, namespace, p.removed)
  {
    var b := Build(declared, av, namespace, current.entries, ips, picks);
    var obtained := Obtained(declared, free, namespace, current.entries, ips);
    var removed := Dropped(current.entries, b.entries);
    BuildMeaning(declared, av, free, namespace, current.entries, ips, picks);
    assert AddressesOf(removed) == AddressesOf(current.entries) - AddressesOf(b.entries) by {
      forall e | e in current.entries
        ensures FindEntry(b.entries, e.address).None? <==> e.address !in AddressesOf(b.entries)
      {
      }
    }
    ReleaseEntriesMeaning(declared, b.av, free - obtained, namespace, removed);
    assert AddressesOf(current.entries) - AddressesOf(b.entries)
        == AddressesOf(current.entries) - Held(current.entries, ips) - obtained;
  }

  // ---- create ----

  // A failed create gives every taken address back: each pool offers what it offered before.
  lemma CreateRollsBack(declared: seq<Pool>, av: seq<Pool>, free: set<string>, namespace: string, ips: seq<string>,
      picks: seq<Option<string>>)
    requires |picks| == |ips|
    requires DisjointPools(declared) && Offers(declared, av, free)
    ensures var c := Create(declared, av, namespace, ips, picks, false);
            && c.stored.None? && Offers(declared, c.av, free)
            && forall name :: FreeIn(c.av, name) == FreeIn(av, name)
  {
    var b := Build(declared, av, namespace, [], ips, picks);
    BuildMeaning(declared, av, free, namespace, [], ips, picks);
    var obtained := Obtained(declared, free, namespace, [], ips);
    ReleaseEntriesMeaning(declared, b.av, free - obtained, namespace, b.entries);
    assert free - obtained + AddressesOf(b.entries) == free;
    forall name
      ensures FreeIn(Create(declared, av, namespace, ips, picks, false).av, name) == FreeIn(av, name)
    {
      SameOffers(declared, Create(declared, av, namespace, ips, picks, false).av, av, free, name);
    }
  }
}

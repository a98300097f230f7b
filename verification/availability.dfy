// The availability list of poolsManager.go as a value: one entry per pool that has free addresses.
// declared is always the store of declared pools, av the availability list.
module Availability {
  import opened Types

  // ---- lookups ----

  function IndexOfName(av: seq<Pool>, name: string): (i: nat)
    ensures i <= |av|
    ensures i < |av| ==> av[i].name == name
    ensures forall j :: 0 <= j < i ==> av[j].name != name
  {
    if av == [] || av[0].name == name then 0 else 1 + IndexOfName(av[1..], name)
  }

  predicate Serves(p: Pool, namespace: string, address: string) {
    p.Allows(namespace) && address in p.addresses
  }

  function IndexServing(av: seq<Pool>, namespace: string, address: string): (i: nat)
    ensures i <= |av|
    ensures i < |av| ==> Serves(av[i], namespace, address)
    ensures forall j :: 0 <= j < i ==> !Serves(av[j], namespace, address)
  {
    if av == [] || Serves(av[0], namespace, address) then 0 else 1 + IndexServing(av[1..], namespace, address)
  }

  function PoolByName(declared: seq<Pool>, name: string): Option<Pool> {
    var i := IndexOfName(declared, name);
    if i < |declared| then Some(declared[i]) else None
  }

  function PoolOfAddress(declared: seq<Pool>, namespace: string, address: string): Option<Pool> {
    var i := IndexServing(declared, namespace, address);
    if i < |declared| then Some(declared[i]) else None
  }

  // ---- edits ----

  function Without(s: seq<string>, x: string): (r: seq<string>)
    ensures forall y :: y in r <==> y in s && y != x
    ensures x !in s ==> r == s
  {
    if s == [] then []
    else
      var n := |s| - 1;
      assert s == s[..n] + [s[n]];
      Without(s[..n], x) + (if s[n] != x then [s[n]] else [])
  }

  function SwapRemove<T>(s: seq<T>, i: nat): (r: seq<T>)
    requires i < |s|
    ensures |r| == |s| - 1
  {
    s[i := s[|s| - 1]][..|s| - 1]
  }

  function RemoveEntry(av: seq<Pool>, name: string): seq<Pool> {
    var i := IndexOfName(av, name);
    if i < |av| then SwapRemove(av, i) else av
  }

  function TakeFrom(av: seq<Pool>, i: nat, address: string): seq<Pool>
    requires i < |av|
  {
    var p := av[i].(addresses := Without(av[i].addresses, address));
    var edited := av[i := p];
    if p.addresses == [] then RemoveEntry(edited, p.name) else edited
  }

  datatype Use = Use(av: seq<Pool>, pool: Option<Pool>)

  function UseIP(av: seq<Pool>, namespace: string, address: string): Use {
    var i := IndexServing(av, namespace, address);
    if i < |av| then
      Use(TakeFrom(av, i, address), Some(av[i].(addresses := Without(av[i].addresses, address))))
    else Use(av, None)
  }

  function ReleaseIP(declared: seq<Pool>, av: seq<Pool>, poolName: string, namespace: string,
      address: string): seq<Pool> {
    var i := IndexOfName(av, poolName);
    match PoolOfAddress(declared, namespace, address)
    case None => av
    case Some(p) =>
      if i == |av| then av + [p.(addresses := [address])]
      else if address in av[i].addresses then av
      else av[i := av[i].(addresses := av[i].addresses + [address])]
  }

  function EnsureNotAvailable(av: seq<Pool>, poolName: string, address: string): seq<Pool> {
    var i := IndexOfName(av, poolName);
    if i < |av| then TakeFrom(av, i, address) else av
  }

  function AddOrReplace(av: seq<Pool>, p: Pool): seq<Pool> {
    var i := IndexOfName(av, p.name);
    if p.addresses == [] then av
    else if i < |av| then av[i := p]
    else av + [p]
  }

  function FreeAddresses(addresses: seq<string>, taken: set<string>): (r: seq<string>)
    ensures forall a :: a in r <==> a in addresses && a !in taken
  {
    if addresses == [] then []
    else
      var n := |addresses| - 1;
      assert addresses == addresses[..n] + [addresses[n]];
      FreeAddresses(addresses[..n], taken) + (if addresses[n] !in taken then [addresses[n]] else [])
  }

  lemma FreeAddressesNext(addresses: seq<string>, taken: set<string>, i: nat)
    requires i < |addresses|
    ensures FreeAddresses(addresses[..i + 1], taken)
            == FreeAddresses(addresses[..i], taken) + (if addresses[i] !in taken then [addresses[i]] else [])
  {
    assert addresses[..i + 1][..i] == addresses[..i];
  }

  // processIPAvailability: recompute one pool as declared minus taken.
  function Recompute(av: seq<Pool>, p: Pool, taken: set<string>): seq<Pool> {
    AddOrReplace(av, p.(addresses := FreeAddresses(p.addresses, taken)))
  }

  // ---- meaning ----

  ghost predicate WellFormed(av: seq<Pool>) {
    && (forall i, j :: 0 <= i < j < |av| ==> av[i].name != av[j].name)
    && (forall i :: 0 <= i < |av| ==> av[i].addresses != [])
  }

  // The free addresses an availability list offers under one pool name.
  ghost function FreeIn(av: seq<Pool>, name: string): set<string> {
    set p, a | p in av && p.name == name && a in p.addresses :: a
  }

  ghost function FreeAnywhere(av: seq<Pool>): set<string> {
    set p, a | p in av && a in p.addresses :: a
  }

  // Declared pools have one name each and share no address.
  ghost predicate DisjointPools(declared: seq<Pool>) {
    forall i, j :: 0 <= i < j < |declared| ==>
      declared[i].name != declared[j].name && (forall a :: a in declared[i].addresses ==> a !in declared[j].addresses)
  }

  ghost function DeclaredAddresses(declared: seq<Pool>): set<string> {
    set d, a | d in declared && a in d.addresses :: a
  }

  // The entry is a declared pool with some of its addresses left: same namespaces, same options.
  ghost predicate CopyOfDeclared(declared: seq<Pool>, p: Pool) {
    exists d :: && d in declared && d.name == p.name && p == d.(addresses := p.addresses)
                && forall a :: a in p.addresses ==> a in d.addresses
  }

  // av offers exactly the addresses `free` of the declared pools, each under its own pool.
  ghost predicate Offers(declared: seq<Pool>, av: seq<Pool>, free: set<string>) {
    && WellFormed(av)
    && (forall p :: p in av ==> CopyOfDeclared(declared, p))
    && FreeAnywhere(av) == free
  }

  // ---- list lemmas ----

  lemma SwapRemoveMultiset<T>(s: seq<T>, i: nat)
    requires i < |s|
    ensures multiset(SwapRemove(s, i)) == multiset(s) - multiset{s[i]}
  {
    var n := |s| - 1;
    assert s == s[..n] + [s[n]];
    if i < n {
      var t := s[i := s[n]];
      assert t[..n] == s[..n][i := s[n]];
      assert s[..n] == s[..i] + [s[i]] + s[i + 1..n];
      assert t[..n] == s[..i] + [s[n]] + s[i + 1..n];
    } else {
      assert s[i := s[n]] == s;
    }
  }

  // Removing a named entry deletes exactly that entry.
  lemma RemoveEntryElements(av: seq<Pool>, i: nat)
    requires i < |av|
    requires forall k, j :: 0 <= k < j < |av| ==> av[k].name != av[j].name
    ensures RemoveEntry(av, av[i].name) == SwapRemove(av, i)
    ensures forall p :: p in RemoveEntry(av, av[i].name) <==> p in av && p != av[i]
    ensures forall k, j :: 0 <= k < j < |av| - 1 ==> SwapRemove(av, i)[k].name != SwapRemove(av, i)[j].name
  {
    var r := SwapRemove(av, i);
    assert IndexOfName(av, av[i].name) == i;
    forall p | p in av && p != av[i]
      ensures p in r
    {
      var k :| 0 <= k < |av| && av[k] == p;
      assert r[if k == |av| - 1 then i else k] == p;
    }
  }

  // What TakeFrom does to the entries: entry i loses the address and goes away when it was the last.
  lemma TakeFromElements(av: seq<Pool>, i: nat, address: string)
    requires WellFormed(av) && i < |av|
    ensures var left := av[i].(addresses := Without(av[i].addresses, address));
            forall p :: p in TakeFrom(av, i, address) <==>
              (p in av && p != av[i]) || (p == left && left.addresses != [])
    ensures WellFormed(TakeFrom(av, i, address))
  {
    var left := av[i].(addresses := Without(av[i].addresses, address));
    var edited := av[i := left];
    assert edited[i] == left;
    forall p | p in av && p != av[i]
      ensures p in edited && p != left
    {
      var k :| 0 <= k < |av| && av[k] == p;
      assert edited[k] == p && p.name != left.name;
    }
    if left.addresses == [] {
      RemoveEntryElements(edited, i);
    }
  }

  lemma IndexOfNameUnique(av: seq<Pool>, i: nat)
    requires i < |av|
    requires forall k, j :: 0 <= k < j < |av| ==> av[k].name != av[j].name
    ensures IndexOfName(av, av[i].name) == i
  {
  }

  lemma PoolOfAddressIs(declared: seq<Pool>, namespace: string, address: string, d: Pool)
    requires DisjointPools(declared)
    ensures PoolOfAddress(declared, namespace, address) == Some(d) <==> d in declared && Serves(d, namespace, address)
  {
  }

  // ---- what the edits do to the free set ----

  // UseIP hands out an address exactly when it is free in a pool the namespace may use; then it is free no more.
  lemma UseTakesOne(declared: seq<Pool>, av: seq<Pool>, free: set<string>, namespace: string, address: string)
    requires DisjointPools(declared) && Offers(declared, av, free)
    ensures var r := UseIP(av, namespace, address);
            var d := PoolOfAddress(declared, namespace, address);
            && (r.pool.Some? <==> address in free && d.Some?)
            && (r.pool.Some? ==>
                 r.pool.value == d.value.(addresses := r.pool.value.addresses)
                 && Offers(declared, r.av, free - {address}))
            && (r.pool.None? ==> r.av == av)
  {
    var i := IndexServing(av, namespace, address);
    var found := PoolOfAddress(declared, namespace, address);
    if i < |av| {
      assert CopyOfDeclared(declared, av[i]);
      var d :| d in declared && d.name == av[i].name && av[i] == d.(addresses := av[i].addresses)
          && address in d.addresses;
      PoolOfAddressIs(declared, namespace, address, d);
      TakeOffers(declared, av, free, i, address);
    }
    forall p | p in av && address in p.addresses && found.Some?
      ensures Serves(p, namespace, address)
    {
      assert CopyOfDeclared(declared, p);
      PoolOfAddressIs(declared, namespace, address, found.value);
    }
  }

  // The record handed out is the entry after the address was taken: it lists what the pool still offers.
  lemma UsedRecord(av: seq<Pool>, namespace: string, address: string)
    requires WellFormed(av) && UseIP(av, namespace, address).pool.Some?
    ensures var r := UseIP(av, namespace, address).pool.value;
            && Elements(r.addresses) == FreeIn(av, r.name) - {address}
            && (r.addresses != [] <==> r in UseIP(av, namespace, address).av)
  {
    var i := IndexServing(av, namespace, address);
    EntryIsFreeIn([], av, i);
    TakeFromElements(av, i, address);
  }

  lemma TakeOffers(declared: seq<Pool>, av: seq<Pool>, free: set<string>, i: nat, address: string)
    requires DisjointPools(declared) && Offers(declared, av, free) && i < |av|
    requires address in av[i].addresses || address !in free
    ensures Offers(declared, TakeFrom(av, i, address), free - {address})
  {
    var after := TakeFrom(av, i, address);
    var left := av[i].(addresses := Without(av[i].addresses, address));
    TakeFromElements(av, i, address);
    assert CopyOfDeclared(declared, av[i]);
    forall p | p in after
      ensures CopyOfDeclared(declared, p)
    {
      if p == left {
        var d :| d in declared && d.name == av[i].name && av[i] == d.(addresses := av[i].addresses)
            && (forall a :: a in av[i].addresses ==> a in d.addresses);
        assert d.name == p.name && p == d.(addresses := p.addresses);
      }
    }
    forall a
      ensures a in FreeAnywhere(after) <==> a in free - {address}
    {
      if a in free && a != address {
        var p :| p in av && a in p.addresses;
        assert if p == av[i] then left in after && a in left.addresses else p in after;
      }
      if a in FreeAnywhere(after) && a == address {
        var p :| p in after && a in p.addresses;
        assert p != left;
        EntriesShareNoAddress(declared, av, p, av[i], a);
      }
    }
  }

  lemma EntriesShareNoAddress(declared: seq<Pool>, av: seq<Pool>, p: Pool, q: Pool, address: string)
    requires DisjointPools(declared) && WellFormed(av)
    requires forall r :: r in av ==> CopyOfDeclared(declared, r)
    requires p in av && q in av && address in p.addresses && address in q.addresses
    ensures p == q
  {
    assert CopyOfDeclared(declared, p) && CopyOfDeclared(declared, q);
  }

  // Releasing an address under the name of the pool that declares it makes it free again.
  lemma ReleaseGivesBack(declared: seq<Pool>, av: seq<Pool>, free: set<string>, poolName: string, namespace: string,
      address: string)
    requires DisjointPools(declared) && Offers(declared, av, free)
    requires var d := PoolOfAddress(declared, namespace, address); d.Some? ==> d.value.name == poolName
    ensures var d := PoolOfAddress(declared, namespace, address);
            Offers(declared, ReleaseIP(declared, av, poolName, namespace, address), if d.Some? then free + {address}
                else free)
  {
    var pool := PoolOfAddress(declared, namespace, address);
    if pool.Some? {
      var d := pool.value;
      var i := IndexOfName(av, poolName);
      var after := ReleaseIP(declared, av, poolName, namespace, address);
      if i < |av| {
        assert CopyOfDeclared(declared, av[i]);
        var grown := av[i].(addresses := av[i].addresses + [address]);
        if address in av[i].addresses {
          assert after == av;
        } else {
          ReplaceOffers(declared, av, i, grown);
          assert Elements(grown.addresses) == Elements(av[i].addresses) + {address};
          EntryAddresses(declared, av, av[i]);
          assert free - Elements(av[i].addresses) + Elements(grown.addresses) == free + {address};
        }
      } else {
        AppendOffers(declared, av, free, d.(addresses := [address]));
        assert Elements([address]) == {address};
      }
    }
  }

  // The addresses of an entry are free addresses, and no other entry has them.
  lemma EntryAddresses(declared: seq<Pool>, av: seq<Pool>, p: Pool)
    requires p in av
    ensures Elements(p.addresses) <= FreeAnywhere(av)
  {
  }

  lemma ReplaceOffers(declared: seq<Pool>, av: seq<Pool>, i: nat, p: Pool)
    requires DisjointPools(declared) && Offers(declared, av, FreeAnywhere(av)) && i < |av|
    requires p.name == av[i].name && p.addresses != [] && CopyOfDeclared(declared, p)
    ensures Offers(declared, av[i := p], FreeAnywhere(av) - Elements(av[i].addresses) + Elements(p.addresses))
  {
    var after := av[i := p];
    forall q | q in av && q != av[i]
      ensures q in after
    {
      var k :| 0 <= k < |av| && av[k] == q;
      assert after[k] == q;
    }
    assert after[i] == p;
    forall a
      ensures a in FreeAnywhere(after) <==> a in FreeAnywhere(av) - Elements(av[i].addresses) + Elements(p.addresses)
    {
      if a in FreeAnywhere(after) && a !in p.addresses {
        var q :| q in after && a in q.addresses;
        var k :| 0 <= k < |after| && after[k] == q;
        assert k != i && q in av && q.name != av[i].name;
        if a in av[i].addresses {
          EntriesShareNoAddress(declared, av, q, av[i], a);
        }
      }
      if a in FreeAnywhere(av) && a !in av[i].addresses {
        var q :| q in av && a in q.addresses;
        assert q in after;
      }
    }
  }

  lemma AppendOffers(declared: seq<Pool>, av: seq<Pool>, free: set<string>, p: Pool)
    requires Offers(declared, av, free)
    requires p.addresses != [] && CopyOfDeclared(declared, p)
    requires forall q :: q in av ==> q.name != p.name
    ensures Offers(declared, av + [p], free + Elements(p.addresses))
  {
    var after := av + [p];
    forall a
      ensures a in FreeAnywhere(after) <==> a in free + Elements(p.addresses)
    {
      if a in p.addresses {
        assert p in after;
      } else if a in free {
        var q :| q in av && a in q.addresses;
        assert q in after;
      }
    }
  }

  // EnsureAddressIsNotAvailable removes the address whatever the state of the list was.
  lemma EnsureTakesOut(declared: seq<Pool>, av: seq<Pool>, free: set<string>, poolName: string, address: string)
    requires DisjointPools(declared) && Offers(declared, av, free)
    requires exists d :: d in declared && d.name == poolName && address in d.addresses
    ensures Offers(declared, EnsureNotAvailable(av, poolName, address), free - {address})
    ensures address !in free ==> EnsureNotAvailable(av, poolName, address) == av
  {
    var i := IndexOfName(av, poolName);
    var d :| d in declared && d.name == poolName && address in d.addresses;
    if address in free {
      var p :| p in av && address in p.addresses;
      assert CopyOfDeclared(declared, p);
      assert p.name == poolName;
      assert exists k :: 0 <= k < |av| && av[k] == p;
      assert av[i] == p;
    }
    if i < |av| {
      assert av[i] in av;
      TakeOffers(declared, av, free, i, address);
      assert address !in free ==> Without(av[i].addresses, address) == av[i].addresses;
    } else {
      assert address !in free;
      assert free - {address} == free;
    }
  }

  // A declared address offered anywhere is offered by the entry of its own pool.
  lemma OfferedByItsPool(declared: seq<Pool>, av: seq<Pool>, p: Pool, d: Pool, address: string)
    requires DisjointPools(declared) && d in declared && p in av && CopyOfDeclared(declared, p)
    requires address in p.addresses && (p.name == d.name || address in d.addresses)
    ensures p.name == d.name && address in d.addresses
  {
  }

  // Under one pool name the list offers exactly the free addresses that pool declares.
  lemma OffersPerPool(declared: seq<Pool>, av: seq<Pool>, free: set<string>, d: Pool)
    requires DisjointPools(declared) && Offers(declared, av, free) && d in declared
    ensures FreeIn(av, d.name) == free * Elements(d.addresses)
  {
    forall a
      ensures a in FreeIn(av, d.name) <==> a in free * Elements(d.addresses)
    {
      if a in FreeIn(av, d.name) {
        var p :| p in av && p.name == d.name && a in p.addresses;
        OfferedByItsPool(declared, av, p, d, a);
      }
      if a in free && a in d.addresses {
        var p :| p in av && a in p.addresses;
        OfferedByItsPool(declared, av, p, d, a);
      }
    }
  }

  // A pool has an entry exactly when one of its addresses is free.
  lemma EntryIffFree(av: seq<Pool>, name: string)
    requires WellFormed(av)
    ensures IndexOfName(av, name) == |av| <==> FreeIn(av, name) == {}
  {
    var i := IndexOfName(av, name);
    if i < |av| {
      var p := av[i];
      var a := p.addresses[0];
      assert p in av && p.name == name && a in p.addresses;
      assert a in FreeIn(av, name);
    }
  }

  // Storing a non-empty entry for a declared pool replaces what the pool offered.
  lemma StoreEntryOffers(declared: seq<Pool>, av: seq<Pool>, free: set<string>, d: Pool, p: Pool)
    requires DisjointPools(declared) && Offers(declared, av, free) && d in declared
    requires p == d.(addresses := p.addresses) && p.addresses != [] && forall a :: a in p.addresses ==> a in d.addresses
    ensures Offers(declared, AddOrReplace(av, p), free - Elements(d.addresses) + Elements(p.addresses))
  {
    assert CopyOfDeclared(declared, p);
    var i := IndexOfName(av, p.name);
    OffersPerPool(declared, av, free, d);
    if i < |av| {
      ReplaceOffers(declared, av, i, p);
      EntryIsFreeIn(declared, av, i);
      assert free - Elements(av[i].addresses) + Elements(p.addresses)
          == free - Elements(d.addresses) + Elements(p.addresses);
    } else {
      EntryIffFree(av, d.name);
      AppendOffers(declared, av, free, p);
      assert free + Elements(p.addresses) == free - Elements(d.addresses) + Elements(p.addresses);
    }
  }

  // Recomputing a declared pool: exact when one of its addresses is left, no effect at all otherwise.
  lemma RecomputeOffers(declared: seq<Pool>, av: seq<Pool>, free: set<string>, d: Pool, taken: set<string>)
    requires DisjointPools(declared) && Offers(declared, av, free) && d in declared
    ensures var left := Elements(d.addresses) - taken;
            && Offers(declared, Recompute(av, d, taken), if left == {} then free
                 else free - Elements(d.addresses) + left)
            && (left == {} ==> Recompute(av, d, taken) == av)
  {
    var left := Elements(d.addresses) - taken;
    var p := d.(addresses := FreeAddresses(d.addresses, taken));
    assert Elements(p.addresses) == left;
    if p.addresses == [] {
      assert left == {};
    } else {
      assert p.addresses[0] in left;
      StoreEntryOffers(declared, av, free, d, p);
    }
  }

  lemma EntryIsFreeIn(declared: seq<Pool>, av: seq<Pool>, i: nat)
    requires WellFormed(av) && i < |av|
    ensures FreeIn(av, av[i].name) == Elements(av[i].addresses)
  {
    forall p | p in av && p.name == av[i].name
      ensures p == av[i]
    {
    }
  }

  // Two lists that offer the same set offer the same addresses under every pool name.
  lemma SameOffers(declared: seq<Pool>, av: seq<Pool>, bv: seq<Pool>, free: set<string>, name: string)
    requires DisjointPools(declared) && Offers(declared, av, free) && Offers(declared, bv, free)
    ensures FreeIn(av, name) == FreeIn(bv, name)
  {
    var i := IndexOfName(declared, name);
    if i < |declared| {
      OffersPerPool(declared, av, free, declared[i]);
      OffersPerPool(declared, bv, free, declared[i]);
    } else {
      UndeclaredOffersNothing(declared, av, name);
      UndeclaredOffersNothing(declared, bv, name);
    }
  }

  lemma UndeclaredOffersNothing(declared: seq<Pool>, av: seq<Pool>, name: string)
    requires forall p :: p in av ==> CopyOfDeclared(declared, p)
    requires IndexOfName(declared, name) == |declared|
    ensures FreeIn(av, name) == {}
  {
    forall p | p in av
      ensures p.name != name
    {
      assert CopyOfDeclared(declared, p);
    }
  }

  // ---- use and release ----

  // A release undoes a use: every pool offers the same addresses as before, and the list stays well formed.
  lemma UseThenRelease(declared: seq<Pool>, av: seq<Pool>, free: set<string>, namespace: string, address: string)
    requires DisjointPools(declared) && Offers(declared, av, free)
    requires UseIP(av, namespace, address).pool.Some?
    ensures var u := UseIP(av, namespace, address);
            var back := ReleaseIP(declared, u.av, u.pool.value.name, namespace, address);
            && WellFormed(back)
            && (forall name :: FreeIn(back, name) == FreeIn(av, name))
            && ReleaseIP(declared, back, u.pool.value.name, namespace, address) == back
  {
    UseTakesOne(declared, av, free, namespace, address);
    var u := UseIP(av, namespace, address);
    var poolName := u.pool.value.name;
    ReleaseGivesBack(declared, u.av, free - {address}, poolName, namespace, address);
    var back := ReleaseIP(declared, u.av, poolName, namespace, address);
    assert free - {address} + {address} == free;
    forall name
      ensures FreeIn(back, name) == FreeIn(av, name)
    {
      SameOffers(declared, back, av, free, name);
    }
    SecondReleaseIffNameMatches(declared, u.av, poolName, namespace, address);
  }

  // The branch of ReleaseIP that rebuilds an entry under the name of the pool found by address.
  ghost predicate RebuildsOtherPool(declared: seq<Pool>, av: seq<Pool>, poolName: string, namespace: string,
      address: string) {
    var d := PoolOfAddress(declared, namespace, address);
    IndexOfName(av, poolName) == |av| && d.Some? && d.value.name != poolName
  }

  // Releasing twice is releasing once, on any list at all, exactly when no entry is rebuilt under another name.
  lemma SecondReleaseIffNameMatches(declared: seq<Pool>, av: seq<Pool>, poolName: string, namespace: string,
      address: string)
    ensures var once := ReleaseIP(declared, av, poolName, namespace, address);
            ReleaseIP(declared, once, poolName, namespace, address) == once
            <==> !RebuildsOtherPool(declared, av, poolName, namespace, address)
  {
    var once := ReleaseIP(declared, av, poolName, namespace, address);
    var d := PoolOfAddress(declared, namespace, address);
    var i := IndexOfName(av, poolName);
    if d.Some? {
      if i < |av| {
        IndexOfNameIs(once, i, poolName);
      } else if d.value.name == poolName {
        IndexOfNameIs(once, |av|, poolName);
      } else {
        IndexOfNameIs(once, |once|, poolName);
      }
    }
  }

  lemma IndexOfNameIs(av: seq<Pool>, i: nat, name: string)
    requires i <= |av| && (i < |av| ==> av[i].name == name)
    requires forall j :: 0 <= j < i ==> av[j].name != name
    ensures IndexOfName(av, name) == i
  {
  }

  // A release keeps the list well formed exactly when it does not rebuild a pool that still has an entry.
  lemma ReleaseWellFormedIff(declared: seq<Pool>, av: seq<Pool>, poolName: string, namespace: string, address: string)
    requires WellFormed(av)
    ensures WellFormed(ReleaseIP(declared, av, poolName, namespace, address))
            <==> !(RebuildsOtherPool(declared, av, poolName, namespace, address)
                   && IndexOfName(av, PoolOfAddress(declared, namespace, address).value.name) < |av|)
  {
    var d := PoolOfAddress(declared, namespace, address);
    var i := IndexOfName(av, poolName);
    if d.Some? && i == |av| {
      AppendWellFormedIff(av, d.value.(addresses := [address]));
    } else if d.Some? && address !in av[i].addresses {
      ReplaceKeepsWellFormed(av, av[i].(addresses := av[i].addresses + [address]));
    }
  }

  lemma AppendWellFormedIff(av: seq<Pool>, p: Pool)
    requires WellFormed(av) && p.addresses != []
    ensures WellFormed(av + [p]) <==> IndexOfName(av, p.name) == |av|
  {
    var i := IndexOfName(av, p.name);
    if i < |av| {
      assert (av + [p])[i].name == (av + [p])[|av|].name;
    }
  }

  // Every edit keeps any well-formed list well formed; a release does when the pool it names is the one of the address.
  lemma EditsKeepWellFormed(declared: seq<Pool>, av: seq<Pool>, poolName: string, namespace: string, address: string,
      p: Pool, taken: set<string>)
    requires WellFormed(av)
    ensures WellFormed(UseIP(av, namespace, address).av)
    ensures WellFormed(EnsureNotAvailable(av, poolName, address))
    ensures WellFormed(AddOrReplace(av, p))
    ensures WellFormed(Recompute(av, p, taken))
    ensures var d := PoolOfAddress(declared, namespace, address);
            (d.Some? ==> d.value.name == poolName) ==> WellFormed(ReleaseIP(declared, av, poolName, namespace, address))
  {
    var i := IndexServing(av, namespace, address);
    if i < |av| {
      TakeFromElements(av, i, address);
    }
    var k := IndexOfName(av, poolName);
    if k < |av| {
      TakeFromElements(av, k, address);
    }
    ReplaceKeepsWellFormed(av, p);
    ReplaceKeepsWellFormed(av, p.(addresses := FreeAddresses(p.addresses, taken)));
    ReleaseWellFormedIff(declared, av, poolName, namespace, address);
  }

  lemma ReplaceKeepsWellFormed(av: seq<Pool>, p: Pool)
    requires WellFormed(av)
    ensures WellFormed(AddOrReplace(av, p))
  {
  }

  // Taking an address touches one entry: the others stay as they are, each as often as before.
  lemma TakeKeepsOthers(av: seq<Pool>, i: nat, address: string)
    requires WellFormed(av) && i < |av|
    ensures var left := av[i].(addresses := Without(av[i].addresses, address));
            multiset(TakeFrom(av, i, address))
            == multiset(av) - multiset{av[i]} + (if left.addresses == [] then multiset{} else multiset{left})
  {
    var left := av[i].(addresses := Without(av[i].addresses, address));
    var edited := av[i := left];
    if left.addresses == [] {
      assert edited[i] == left;
      RemoveEntryElements(edited, i);
      SwapRemoveMultiset(edited, i);
    }
  }

  // ---- start-up ----

  // warmupIPAvailabilityOrDie: every pool is added whole and then recomputed.
  function Warmup(pools: seq<Pool>, taken: set<string>): seq<Pool> {
    if pools == [] then []
    else
      var n := |pools| - 1;
      Recompute(AddOrReplace(Warmup(pools[..n], taken), pools[n]), pools[n], taken)
  }

  // A pool whose addresses are all taken keeps the full list it was added with.
  ghost function WarmupFree(pools: seq<Pool>, taken: set<string>): set<string> {
    set d, a | d in pools && a in d.addresses && (a !in taken || Elements(d.addresses) <= taken) :: a
  }

  // The pools of the first n declared ones are the only names the start-up loop has added.
  lemma {:induction false} WarmupNames(pools: seq<Pool>, taken: set<string>, name: string)
    requires forall d :: d in pools ==> d.name != name
    ensures forall p :: p in Warmup(pools, taken) ==> p.name != name
  {
    if pools != [] {
      var n := |pools| - 1;
      WarmupNames(pools[..n], taken, name);
      AddOrReplaceNames(Warmup(pools[..n], taken), pools[n], name);
      AddOrReplaceNames(AddOrReplace(Warmup(pools[..n], taken), pools[n]),
          pools[n].(addresses := FreeAddresses(pools[n].addresses, taken)), name);
    }
  }

  lemma AddOrReplaceNames(av: seq<Pool>, p: Pool, name: string)
    requires p.name != name && forall q :: q in av ==> q.name != name
    ensures forall q :: q in AddOrReplace(av, p) ==> q.name != name
  {
  }

  // One pool of the start-up loop: added whole, then recomputed.
  lemma WarmupPool(declared: seq<Pool>, av: seq<Pool>, free: set<string>, d: Pool, taken: set<string>)
    requires DisjointPools(declared) && Offers(declared, av, free) && d in declared
    requires IndexOfName(av, d.name) == |av|
    ensures var all := Elements(d.addresses);
            Offers(declared, Recompute(AddOrReplace(av, d), d, taken), if all - taken == {} then free + all
                else free + all - all + (all - taken))
  {
    if d.addresses == [] {
      assert AddOrReplace(av, d) == av && Recompute(av, d, taken) == av;
      assert free + Elements(d.addresses) == free;
    } else {
      assert CopyOfDeclared(declared, d);
      AppendOffers(declared, av, free, d);
      RecomputeOffers(declared, av + [d], free + Elements(d.addresses), d, taken);
    }
  }

  lemma {:induction false} WarmupOffers(declared: seq<Pool>, taken: set<string>, n: nat)
    requires DisjointPools(declared) && n <= |declared|
    ensures Offers(declared, Warmup(declared[..n], taken), WarmupFree(declared[..n], taken))
  {
    if n > 0 {
      var d := declared[n - 1];
      WarmupOffers(declared, taken, n - 1);
      assert declared[..n][..n - 1] == declared[..n - 1];
      WarmupNames(declared[..n - 1], taken, d.name);
      var before := Warmup(declared[..n - 1], taken);
      assert IndexOfName(before, d.name) == |before|;
      WarmupPool(declared, before, WarmupFree(declared[..n - 1], taken), d, taken);
      WarmupFreeStep(declared, taken, n);
    }
  }

  lemma WarmupFreeStep(declared: seq<Pool>, taken: set<string>, n: nat)
    requires DisjointPools(declared) && 0 < n <= |declared|
    ensures var d := declared[n - 1];
            var free := WarmupFree(declared[..n - 1], taken);
            var all := Elements(d.addresses);
            WarmupFree(declared[..n], taken) == if all - taken == {} then free + all
                else free + all - all + (all - taken)
  {
    var d := declared[n - 1];
    var all := Elements(d.addresses);
    assert declared[..n] == declared[..n - 1] + [d];
    if all - taken == {} {
      forall a | a in all
        ensures a in taken
      {
        assert a !in all - taken;
      }
    }
  }

  // Start-up computes declared minus allocated exactly when every pool that declares an address has a free one.
  lemma WarmupExactIff(declared: seq<Pool>, taken: set<string>)
    requires DisjointPools(declared)
    ensures Offers(declared, Warmup(declared, taken), DeclaredAddresses(declared) - taken)
            <==> (forall d :: d in declared ==> d.addresses == [] || !(Elements(d.addresses) <= taken))
  {
    WarmupOffers(declared, taken, |declared|);
    assert declared[..|declared|] == declared;
    WarmupFreeExactIff(declared, taken);
  }

  lemma WarmupFreeExactIff(declared: seq<Pool>, taken: set<string>)
    ensures WarmupFree(declared, taken) == DeclaredAddresses(declared) - taken
            <==> (forall d :: d in declared ==> d.addresses == [] || !(Elements(d.addresses) <= taken))
  {
    if d :| d in declared && d.addresses != [] && Elements(d.addresses) <= taken {
      assert d.addresses[0] in Elements(d.addresses);
      assert d.addresses[0] in WarmupFree(declared, taken);
    } else {
      forall a
        ensures a in WarmupFree(declared, taken) <==> a in DeclaredAddresses(declared) - taken
      {
      }
    }
  }

  // ---- healing ----

  // EnsureAddressIsNotAvailable on each entry of the allocations that were ensured.
  function EnsureAll(av: seq<Pool>, entries: seq<Entry>): seq<Pool> {
    if entries == [] then av
    else
      var n := |entries| - 1;
      EnsureNotAvailable(EnsureAll(av, entries[..n]), entries[n].pool, entries[n].address)
  }

  lemma EnsureFreeIn(av: seq<Pool>, poolName: string, address: string, name: string)
    requires WellFormed(av)
    ensures WellFormed(EnsureNotAvailable(av, poolName, address))
    ensures FreeIn(EnsureNotAvailable(av, poolName, address), name)
            == if name == poolName then FreeIn(av, name) - {address} else FreeIn(av, name)
  {
    var i := IndexOfName(av, poolName);
    var after := EnsureNotAvailable(av, poolName, address);
    if i < |av| {
      TakeFromElements(av, i, address);
      var left := av[i].(addresses := Without(av[i].addresses, address));
      forall a
        ensures a in FreeIn(after, name) <==> a in FreeIn(av, name) && !(name == poolName && a == address)
      {
        if a in FreeIn(av, name) && !(name == poolName && a == address) {
          var p :| p in av && p.name == name && a in p.addresses;
          assert if p == av[i] then left in after && a in left.addresses else p in after;
        }
        if a in FreeIn(after, name) {
          var p :| p in after && p.name == name && a in p.addresses;
        }
      }
    }
  }

  // From any well-formed list, after ensuring some entries: what they name is not available there, nothing else is
  // lost.
  lemma {:induction false} EnsureAllHeals(av: seq<Pool>, entries: seq<Entry>, name: string)
    requires WellFormed(av)
    ensures WellFormed(EnsureAll(av, entries))
    ensures FreeIn(EnsureAll(av, entries), name)
        == FreeIn(av, name) - (set e | e in entries && e.pool == name :: e.address)
  {
    if entries != [] {
      var n := |entries| - 1;
      EnsureAllHeals(av, entries[..n], name);
      EnsureFreeIn(EnsureAll(av, entries[..n]), entries[n].pool, entries[n].address, name);
      assert entries == entries[..n] + [entries[n]];
    }
  }

  // Even after a start-up that listed used pools as free, ensuring every allocated address makes the list exact.
  lemma {:induction false} EnsureAllOffers(declared: seq<Pool>, av: seq<Pool>, free: set<string>, entries: seq<Entry>)
    requires DisjointPools(declared) && Offers(declared, av, free)
    requires forall e :: e in entries ==> exists d :: d in declared && d.name == e.pool && e.address in d.addresses
    ensures Offers(declared, EnsureAll(av, entries), free - AddressesOf(entries))
  {
    if entries != [] {
      var n := |entries| - 1;
      assert entries == entries[..n] + [entries[n]];
      EnsureAllOffers(declared, av, free, entries[..n]);
      EnsureTakesOut(declared, EnsureAll(av, entries[..n]), free - AddressesOf(entries[..n]), entries[n].pool,
          entries[n].address);
      assert free - AddressesOf(entries[..n]) - {entries[n].address} == free - AddressesOf(entries);
    }
  }

  lemma WarmupFreeLess(declared: seq<Pool>, taken: set<string>)
    ensures WarmupFree(declared, taken) - taken == DeclaredAddresses(declared) - taken
  {
  }

  lemma WarmupThenEnsureIsExact(declared: seq<Pool>, entries: seq<Entry>)
    requires DisjointPools(declared)
    requires forall e :: e in entries ==> exists d :: d in declared && d.name == e.pool && e.address in d.addresses
    ensures Offers(declared, EnsureAll(Warmup(declared, AddressesOf(entries)), entries),
        DeclaredAddresses(declared) - AddressesOf(entries))
  {
    var taken := AddressesOf(entries);
    WarmupOffers(declared, taken, |declared|);
    assert declared[..|declared|] == declared;
    EnsureAllOffers(declared, Warmup(declared, taken), WarmupFree(declared, taken), entries);
    WarmupFreeLess(declared, taken);
  }
}

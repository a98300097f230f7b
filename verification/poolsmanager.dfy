// poolsManager.go and the start-up part of watcher.go: the availability list, edited in place.
module PoolsManager {
  import opened Types
  import opened Availability

  // The record an element of the list points to.
  class AvailablePool {
    var name: string
    var addresses: seq<string>
    var allowedNamespaces: seq<string>
    var hostNetwork: Option<HostNetwork>
    var hetzner: bool

    function Value(): Pool
      reads this
    {
      Pool(name, addresses, allowedNamespaces, hostNetwork, hetzner)
    }

    constructor (p: Pool)
      ensures Value() == p
    {
      name, addresses, allowedNamespaces, hostNetwork, hetzner :=
        p.name, p.addresses, p.allowedNamespaces, p.hostNetwork, p.hetzner;
    }

    method Assign(p: Pool)
      modifies this
      ensures Value() == p
    {
      name, addresses, allowedNamespaces, hostNetwork, hetzner :=
        p.name, p.addresses, p.allowedNamespaces, p.hostNetwork, p.hetzner;
    }
  }

  ghost function Values(pools: seq<AvailablePool>): (r: seq<Pool>)
    reads pools
    ensures |r| == |pools| && forall i :: 0 <= i < |r| ==> r[i] == pools[i].Value()
  {
    seq(|pools|, i requires 0 <= i < |pools| reads pools => pools[i].Value())
  }

  class Manager {
    var poolStore: seq<Pool>
    var availablesPools: seq<AvailablePool>

    // No two elements of the list are the same record.
    ghost predicate Valid()
      reads this
    {
      Distinct(availablesPools)
    }

    // The records the list points to.
    ghost function Repr(): set<AvailablePool>
      reads this
    {
      set p | p in availablesPools
    }

    ghost function Available(): seq<Pool>
      reads this, availablesPools
    {
      Values(availablesPools)
    }

    constructor (declared: seq<Pool>)
      ensures Valid() && Available() == [] && poolStore == declared
    {
      poolStore := declared;
      availablesPools := [];
    }

    method SearchAvailabilityPoolByName(name: string) returns (index: nat)
      requires Valid()
      ensures index == IndexOfName(Available(), name)
    {
      index := 0;
      while index < |availablesPools|
        invariant index <= |availablesPools|
        invariant forall j :: 0 <= j < index ==> Available()[j].name != name
      {
        if availablesPools[index].name == name {
          break;
        }
        index := index + 1;
      }
      IndexOfNameIs(Available(), index, name);
    }

    method SearchPoolByName(name: string) returns (pool: Option<Pool>)
      ensures pool == PoolByName(poolStore, name)
    {
      for i := 0 to |poolStore|
        invariant forall j :: 0 <= j < i ==> poolStore[j].name != name
      {
        if poolStore[i].name == name {
          return Some(poolStore[i]);
        }
      }
      return None;
    }

    method GetPoolOfAddress(namespace: string, address: string) returns (pool: Option<Pool>)
      ensures pool == PoolOfAddress(poolStore, namespace, address)
    {
      for i := 0 to |poolStore|
        invariant forall j :: 0 <= j < i ==> !Serves(poolStore[j], namespace, address)
      {
        var p := poolStore[i];
        var listed := Contains(p.allowedNamespaces, namespace);
        if |p.allowedNamespaces| == 0 || listed {
          var has := Contains(p.addresses, address);
          if has {
            return Some(p);
          }
        }
      }
      return None;
    }

    method GetAvailabilityPoolOfAddress(namespace: string, address: string) returns (index: nat)
      requires Valid()
      ensures index == IndexServing(Available(), namespace, address)
    {
      index := 0;
      while index < |availablesPools|
        invariant index <= |availablesPools|
        invariant forall j :: 0 <= j < index ==> !Serves(Available()[j], namespace, address)
      {
        var p := availablesPools[index];
        var listed := Contains(p.allowedNamespaces, namespace);
        if |p.allowedNamespaces| == 0 || listed {
          var has := Contains(p.addresses, address);
          if has {
            break;
          }
        }
        index := index + 1;
      }
      assert index < |availablesPools| ==> Serves(Available()[index], namespace, address);
    }

    method RemoveAvailablePool(pool: AvailablePool) returns (removed: bool)
      requires Valid()
      modifies this`availablesPools
      ensures Valid()
      ensures Available() == RemoveEntry(old(Available()), pool.name)
      ensures removed <==> IndexOfName(old(Available()), pool.name) < |old(Available())|
      ensures Repr() <= old(Repr())
    {
      var poolIndex := SearchAvailabilityPoolByName(pool.name);
      if poolIndex == |availablesPools| {
        return false;
      }
      var last := |availablesPools| - 1;
      availablesPools := availablesPools[poolIndex := availablesPools[last]];
      availablesPools := availablesPools[..last];
      assert Available() == SwapRemove(old(Available()), poolIndex);
      return true;
    }

    method RemoveIPFromPool(pool: AvailablePool, address: string, ghost i: nat)
      requires Valid() && i < |availablesPools| && availablesPools[i] == pool
      modifies this`availablesPools, pool
      ensures Valid()
      ensures Available() == TakeFrom(old(Available()), i, address)
      ensures pool.Value() == old(pool.Value()).(addresses := Without(old(pool.addresses), address))
      ensures Repr() <= old(Repr())
    {
      var addresses: seq<string> := [];
      for k := 0 to |pool.addresses|
        invariant addresses == Without(pool.addresses[..k], address)
      {
        assert pool.addresses[..k + 1][..k] == pool.addresses[..k];
        if pool.addresses[k] != address {
          addresses := addresses + [pool.addresses[k]];
        }
      }
      assert pool.addresses[..|pool.addresses|] == pool.addresses;
      pool.addresses := addresses;
      assert Available() == old(Available())[i := pool.Value()];
      if |pool.addresses| == 0 {
        var _ := RemoveAvailablePool(pool);
      }
    }

    // Hands the address to the namespace, or fails.
    method UseIP(namespace: string, address: string) returns (pool: Option<Pool>)
      requires Valid()
      modifies this`availablesPools, Repr()
      ensures Valid()
      ensures Use(Available(), pool) == Availability.UseIP(old(Available()), namespace, address)
      ensures Repr() <= old(Repr())
    {
      if |availablesPools| == 0 {
        return None;
      }
      var i := GetAvailabilityPoolOfAddress(namespace, address);
      if i == |availablesPools| || |availablesPools[i].addresses| == 0 {
        return None;
      }
      var p := availablesPools[i];
      RemoveIPFromPool(p, address, i);
      return Some(p.Value());
    }

    method RecreatePoolAvailability(pool: Pool, addresses: seq<string>)
      requires Valid()
      modifies this`availablesPools
      ensures Valid()
      ensures Available() == old(Available()) + [pool.(addresses := addresses)]
      ensures fresh(Repr() - old(Repr()))
    {
      var availablePool := new AvailablePool(pool.(addresses := addresses));
      availablesPools := availablesPools + [availablePool];
    }

    // The last step of ReleaseIP, on the record found.
    method AppendAddress(i: nat, address: string)
      requires Valid() && i < |availablesPools|
      modifies availablesPools[i]
      ensures Available()
          == old(Available())[i := old(Available())[i].(addresses := old(Available())[i].addresses + [address])]
    {
      var pool := availablesPools[i];
      pool.addresses := pool.addresses + [address];
      assert Available() == old(Available())[i := pool.Value()];
    }

    method ReleaseIP(poolName: string, namespace: string, address: string)
      requires Valid()
      modifies this`availablesPools, Repr()
      ensures Valid()
      ensures Available() == Availability.ReleaseIP(poolStore, old(Available()), poolName, namespace, address)
      ensures fresh(Repr() - old(Repr()))
    {
      var i := SearchAvailabilityPoolByName(poolName);
      if i == |availablesPools| {
        var pool := GetPoolOfAddress(namespace, address);
        if pool.None? {
          return;
        }
        RecreatePoolAvailability(pool.value, [address]);
      } else {
        var already := Contains(availablesPools[i].addresses, address);
        if already {
          return;
        }
        var pool := GetPoolOfAddress(namespace, address);
        if pool.None? {
          return;
        }
        AppendAddress(i, address);
      }
    }

    method EnsureAddressIsNotAvailable(poolName: string, namespace: string, address: string)
      requires Valid()
      modifies this`availablesPools, Repr()
      ensures Valid()
      ensures Available() == EnsureNotAvailable(old(Available()), poolName, address)
      ensures Repr() <= old(Repr())
    {
      var i := SearchAvailabilityPoolByName(poolName);
      if i == |availablesPools| {
        // only logged: the pool has no entry, whether or not the address is declared
        var _ := GetPoolOfAddress(namespace, address);
        return;
      }
      RemoveIPFromPool(availablesPools[i], address, i);
    }

    method AddOrReplaceAvailabilityPool(pool: Pool)
      requires Valid()
      modifies this`availablesPools, Repr()
      ensures Valid()
      ensures Available() == AddOrReplace(old(Available()), pool)
      ensures fresh(Repr() - old(Repr()))
    {
      if |pool.addresses| > 0 {
        var i := SearchAvailabilityPoolByName(pool.name);
        if i < |availablesPools| {
          availablesPools[i].Assign(pool);
          assert Available() == old(Available())[i := pool];
        } else {
          var added := new AvailablePool(pool);
          availablesPools := availablesPools + [added];
        }
      }
    }

    // checkIfIPIsAllocated: scans every entry of every allocation.
    static method CheckIfIPIsAllocated(ip: string, allocations: seq<IPAllocation>) returns (found: bool)
      ensures found <==> ip in AllocatedAddresses(allocations)
    {
      for i := 0 to |allocations|
        invariant ip !in AllocatedAddresses(allocations[..i])
      {
        var entries := allocations[i].entries;
        for k := 0 to |entries|
          invariant forall e :: e in entries[..k] ==> e.address != ip
        {
          if entries[k].address == ip {
            assert entries[k] in allocations[i].entries;
            return true;
          }
        }
        assert allocations[..i + 1] == allocations[..i] + [allocations[i]];
      }
      assert allocations[..|allocations|] == allocations;
      return false;
    }

    // The loop of processIPAvailability.
    static method CollectFree(pool: Pool, allocations: seq<IPAllocation>) returns (free: seq<string>)
      ensures free == FreeAddresses(pool.addresses, AllocatedAddresses(allocations))
    {
      free := [];
      for i := 0 to |pool.addresses|
        invariant free == FreeAddresses(pool.addresses[..i], AllocatedAddresses(allocations))
      {
        var used := CheckIfIPIsAllocated(pool.addresses[i], allocations);
        FreeAddressesNext(pool.addresses, AllocatedAddresses(allocations), i);
        if !used {
          free := free + [pool.addresses[i]];
        }
      }
      assert pool.addresses[..|pool.addresses|] == pool.addresses;
    }

    method ProcessIPAvailability(pool: Pool, allocations: seq<IPAllocation>)
      requires Valid()
      modifies this`availablesPools, Repr()
      ensures Valid()
      ensures Available() == Recompute(old(Available()), pool, AllocatedAddresses(allocations))
      ensures fresh(Repr() - old(Repr()))
    {
      var free := CollectFree(pool, allocations);
      AddOrReplaceAvailabilityPool(pool.(addresses := free));
    }

    // addPool followed by processIPAvailability.
    method WarmupPool(pool: Pool, allocations: seq<IPAllocation>)
      requires Valid()
      modifies this`availablesPools, Repr()
      ensures Valid()
      ensures Available() == Recompute(AddOrReplace(old(Available()), pool), pool, AllocatedAddresses(allocations))
      ensures fresh(Repr() - old(Repr()))
    {
      AddOrReplaceAvailabilityPool(pool);
      ProcessIPAvailability(pool, allocations);
    }

    // warmupIPAvailabilityOrDie, on the pools of the store and the allocations the API lists.
    method WarmupIPAvailability(allocations: seq<IPAllocation>)
      requires Valid() && availablesPools == []
      modifies this`availablesPools, Repr()
      ensures Valid() && fresh(Repr() - old(Repr()))
      ensures Available() == Warmup(poolStore, AllocatedAddresses(allocations))
    {
      for i := 0 to |poolStore|
        invariant Valid() && fresh(Repr() - old(Repr()))
        invariant Available() == Warmup(poolStore[..i], AllocatedAddresses(allocations))
      {
        assert poolStore[..i + 1][..i] == poolStore[..i];
        WarmupPool(poolStore[i], allocations);
      }
      assert poolStore[..|poolStore|] == poolStore;
    }
  }

  ghost function AllocatedAddresses(allocations: seq<IPAllocation>): set<string> {
    set o, e | o in allocations && e in o.entries :: e.address
  }
}

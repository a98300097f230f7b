// The values the controller and the operators exchange: pools, allocations, their states and errors.
module Types {
  datatype Option<+T> = None | Some(value: T)

  // The host network option of a pool (the interface matters only when addAddressesToInterface is set).
  datatype HostNetwork = HostNetwork(addAddressesToInterface: bool, interfaceName: string)

  // A PersistentIPPool, either as declared or as an availability entry holding the free addresses only.
  datatype Pool = Pool(
    name: string,
    addresses: seq<string>,
    allowedNamespaces: seq<string>,
    hostNetwork: Option<HostNetwork>,
    hetzner: bool)
  {
    predicate HasHostNetwork() {
      hostNetwork.Some? && hostNetwork.value.addAddressesToInterface
    }

    function InterfaceName(): string
      requires HasHostNetwork()
    {
      hostNetwork.value.interfaceName
    }

    function CloudProvider(): string {
      if hetzner then "hetzner" else ""
    }

    predicate Allows(namespace: string) {
      allowedNamespaces == [] || namespace in allowedNamespaces
    }
  }

  // IPAllocationAddresses: one address of an allocation and where it lives.
  datatype Entry = Entry(
    address: string,
    networkInterface: string,
    nodeName: string,
    cloudProvider: string,
    pool: string)

  datatype IPType = Ephemeral | Persistent

  datatype Error =
    | NoIPAvailable
    | PoolNotFound
    | NoNode
    | OperatorUnreachable
    | CloudFailure
    | WriteFailed

  datatype Status = NoStatus | Success | Error(reason: Error) | Failed | NodeError | Pending | AddrDeleted

  // An IPAllocation object; the namespace and name of the object and of its service are the key.
  datatype Key = Key(namespace: string, name: string)

  datatype IPAllocation = IPAllocation(kind: IPType, entries: seq<Entry>, status: Status)

  datatype Service = Service(isLoadBalancer: bool, externalIPs: seq<string>)

  predicate Distinct<T(==)>(s: seq<T>) {
    forall i, j :: 0 <= i < j < |s| ==> s[i] != s[j]
  }

  // utils.ContainsString and ContainsAddressInfo
  method Contains<T(==)>(a: seq<T>, x: T) returns (found: bool)
    ensures found <==> x in a
  {
    for i := 0 to |a|
      invariant x !in a[..i]
    {
      if a[i] == x {
        return true;
      }
    }
    return false;
  }

  ghost function Elements<T>(s: seq<T>): set<T> {
    set x | x in s
  }

  ghost function AddressesOf(entries: seq<Entry>): set<string> {
    set e | e in entries :: e.address
  }

  function AddressList(entries: seq<Entry>): (r: seq<string>)
    ensures |r| == |entries|
    ensures forall i :: 0 <= i < |r| ==> r[i] == entries[i].address
  {
    seq(|entries|, i requires 0 <= i < |entries| => entries[i].address)
  }
}

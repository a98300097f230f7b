// network.go and observer.go: the calls on the kernel's table and on the list of assigned addresses, in place.
module Observer {
  import opened Types
  import opened OperatorNode

  // An address on a link and its label.
  datatype Addr = Addr(ip: string, tag: string)

  // netlink: the links of the node and one entry per address on each of them.
  class Kernel {
    const links: seq<string>
    var table: map<Slot, string>
    var faulty: set<Slot>

    constructor (links: seq<string>)
      ensures this.links == links && table == map[] && faulty == {}
    {
      this.links := links;
      table := map[];
      faulty := {};
    }

    // AddrList: the addresses of a link with their labels, in any order.
    method AddrList(link: string) returns (addresses: seq<Addr>)
      ensures forall a :: a in addresses <==> Slot(link, a.ip) in table && table[Slot(link, a.ip)] == a.tag
    {
      addresses := [];
      var rest := table.Keys;
      while rest != {}
        invariant rest <= table.Keys
        invariant forall a :: a in addresses <==>
            Slot(link, a.ip) in table && table[Slot(link, a.ip)] == a.tag && Slot(link, a.ip) !in rest
        decreases |rest|
      {
        var s :| s in rest;
        rest := rest - {s};
        if s.networkInterface == link {
          addresses := addresses + [Addr(s.address, table[s])];
        }
      }
    }

    // AddrAdd: "file exists" when the address is already there, an error when the kernel refuses it.
    method AddrAdd(s: Slot, tag: string) returns (fileExists: bool, ok: bool)
      modifies this`table
      ensures fileExists <==> s in old(table)
      ensures ok <==> !fileExists && s !in faulty
      ensures table == if ok then old(table)[s := tag] else old(table)
    {
      fileExists := s in table;
      ok := !fileExists && s !in faulty;
      if ok {
        table := table[s := tag];
      }
    }

    method AddrDel(s: Slot) returns (ok: bool)
      modifies this`table
      ensures ok <==> s !in faulty
      ensures table == if ok then old(table) - {s} else old(table)
    {
      ok := s !in faulty;
      if ok {
        table := table - {s};
      }
    }

    method HasLink(name: string) returns (found: bool)
      ensures found <==> name in links
    {
      for i := 0 to |links|
        invariant name !in links[..i]
      {
        if links[i] == name {
          return true;
        }
      }
      return false;
    }
  }

  class AddressObserver {
    const kernel: Kernel
    var assignedAddressesList: seq<Slot>

    ghost function State(): Operator
      reads this, kernel
    {
      Operator(kernel.links, kernel.table, assignedAddressesList)
    }

    constructor (kernel: Kernel)
      ensures this.kernel == kernel && assignedAddressesList == []
    {
      this.kernel := kernel;
      assignedAddressesList := [];
    }

    // ---- network.go ----

    method NetworkAdd(s: Slot) returns (ok: bool)
      modifies kernel`table
      ensures ok <==> CanAdd(old(State()), s, kernel.faulty)
      ensures kernel.table == if ok then Put(old(kernel.table), s) else old(kernel.table)
    {
      var found := kernel.HasLink(s.networkInterface);
      if !found {
        return false;
      }
      var fileExists, added := kernel.AddrAdd(s, LinkLabel(s.networkInterface));
      return fileExists || added;
    }

    method NetworkDelete(s: Slot) returns (ok: bool)
      modifies kernel`table
      ensures ok <==> s.networkInterface in kernel.links && !(s in old(kernel.table) && s in kernel.faulty)
      ensures kernel.table == if ok then old(kernel.table) - {s} else old(kernel.table)
    {
      var found := kernel.HasLink(s.networkInterface);
      if !found {
        return false;
      }
      ghost var here := Addr(s.address, if s in kernel.table then kernel.table[s] else "");
      var addresses := kernel.AddrList(s.networkInterface);
      for i := 0 to |addresses|
        invariant kernel.table == old(kernel.table)
        invariant forall a :: a in addresses[..i] ==> a.ip != s.address
      {
        if addresses[i].ip == s.address {
          assert addresses[i] in addresses;
          ok := kernel.AddrDel(s);
          return ok;
        }
      }
      assert addresses[..|addresses|] == addresses;
      assert here !in addresses;
      return true;
    }

    method NetworkCleanup(keepThese: seq<Slot>)
      modifies kernel`table
      ensures kernel.table == Swept(old(State()), keepThese, kernel.faulty)
    {
      ghost var before := State();
      for i := 0 to |kernel.links|
        invariant kernel.table == map s | s in before.table
            && !(s.networkInterface in kernel.links[..i] && Stale(before, s, keepThese, kernel.faulty)) ::
            before.table[s]
      {
        SweepLink(kernel.links[i], keepThese, before, kernel.links[..i]);
        assert kernel.links[..i + 1] == kernel.links[..i] + [kernel.links[i]];
      }
      assert kernel.links[..|kernel.links|] == kernel.links;
    }

    // The inner loop: one link, after the links `done`.
    method SweepLink(link: string, keepThese: seq<Slot>, ghost before: Operator, ghost done: seq<string>)
      requires link in kernel.links && before.links == kernel.links
      requires kernel.table == map s | s in before.table
          && !(s.networkInterface in done && Stale(before, s, keepThese, kernel.faulty)) :: before.table[s]
      modifies kernel`table
      ensures kernel.table == map s | s in before.table
          && !(s.networkInterface in done + [link] && Stale(before, s, keepThese, kernel.faulty)) :: before.table[s]
    {
      var addresses := kernel.AddrList(link);
      ghost var entry := kernel.table;
      for k := 0 to |addresses|
        invariant kernel.table == map s | s in entry
            && !(s.networkInterface == link && Addr(s.address, entry[s]) in addresses[..k]
            && Stale(before, s, keepThese, kernel.faulty)) :: entry[s]
      {
        var s := Slot(link, addresses[k].ip);
        assert addresses[k] in addresses;
        assert s in entry && entry[s] == before.table[s] == addresses[k].tag;
        var keep := Contains(keepThese, s);
        if addresses[k].tag == LinkLabel(link) && !keep {
          // a refused delete is only logged
          var _ := kernel.AddrDel(s);
        }
        assert addresses[..k + 1] == addresses[..k] + [addresses[k]];
      }
      assert addresses[..|addresses|] == addresses;
      assert forall s :: s in entry && s.networkInterface == link ==> Addr(s.address, entry[s]) in addresses;
    }

    method IsAddressOnInterface(s: Slot) returns (found: bool, ok: bool)
      ensures ok <==> s.networkInterface in kernel.links
      ensures ok ==> (found <==> s in kernel.table)
    {
      ok := kernel.HasLink(s.networkInterface);
      if !ok {
        return false, false;
      }
      ghost var here := Addr(s.address, if s in kernel.table then kernel.table[s] else "");
      var addresses := kernel.AddrList(s.networkInterface);
      for i := 0 to |addresses|
        invariant forall a :: a in addresses[..i] ==> a.ip != s.address
      {
        if addresses[i].ip == s.address {
          assert addresses[i] in addresses;
          return true, true;
        }
      }
      assert addresses[..|addresses|] == addresses;
      assert here !in addresses;
      return false, true;
    }

    // ---- observer.go ----

    method AddAddress(info: Slot) returns (ok: bool)
      modifies this`assignedAddressesList, kernel`table
      ensures Result(State(), ok) == Add(old(State()), info, kernel.faulty)
    {
      ok := NetworkAdd(info);
      if !ok {
        return;
      }
      var listed := Contains(assignedAddressesList, info);
      if !listed {
        assignedAddressesList := assignedAddressesList + [info];
      }
    }

    method RemoveAddress(info: Slot) returns (ok: bool)
      modifies this`assignedAddressesList, kernel`table
      ensures Result(State(), ok) == Remove(old(State()), info, kernel.faulty)
    {
      ok := NetworkDelete(info);
      if !ok {
        return;
      }
      var newAddressList: seq<Slot> := [];
      for i := 0 to |assignedAddressesList|
        invariant newAddressList == Except(assignedAddressesList[..i], info)
      {
        assert assignedAddressesList[..i + 1][..i] == assignedAddressesList[..i];
        if assignedAddressesList[i] != info {
          newAddressList := newAddressList + [assignedAddressesList[i]];
        }
      }
      assert assignedAddressesList[..|assignedAddressesList|] == assignedAddressesList;
      assignedAddressesList := newAddressList;
    }

    method CleanupAddresses(keepThese: seq<Slot>) returns (ok: bool)
      modifies this`assignedAddressesList, kernel`table
      ensures Result(State(), ok) == Cleanup(old(State()), keepThese, kernel.faulty)
    {
      NetworkCleanup(keepThese);
      ghost var swept := State();
      for i := 0 to |keepThese|
        invariant Result(State(), true) == Restore(swept, keepThese[..i], kernel.faulty)
      {
        assert keepThese[..i + 1][..i] == keepThese[..i];
        var added := NetworkAdd(keepThese[i]);
        if !added {
          RestoreStops(swept, keepThese, i + 1, kernel.faulty);
          return false;
        }
      }
      assert keepThese[..|keepThese|] == keepThese;
      assignedAddressesList := keepThese;
      return true;
    }

    method ProcessAddressUpdate()
      modifies kernel`table
      ensures State() == Repair(old(State()), kernel.faulty)
    {
      ghost var before := State();
      for i := 0 to |assignedAddressesList|
        invariant kernel.table == before.table + Missing(before, assignedAddressesList[..i], kernel.faulty)
      {
        var s := assignedAddressesList[i];
        var found, ok := IsAddressOnInterface(s);
        if ok && !found {
          var _ := NetworkAdd(s);
        }
        assert assignedAddressesList[..i + 1] == assignedAddressesList[..i] + [s];
        MissingStep(before, assignedAddressesList[..i], s, kernel.faulty);
      }
      assert assignedAddressesList[..|assignedAddressesList|] == assignedAddressesList;
    }
  }

  lemma MissingStep(o: Operator, slots: seq<Slot>, s: Slot, faulty: set<Slot>)
    ensures o.table + Missing(o, slots + [s], faulty)
            == if s.networkInterface in o.links && s !in o.table + Missing(o, slots, faulty) && s !in faulty
               then (o.table + Missing(o, slots, faulty))[s := LinkLabel(s.networkInterface)]
               else o.table + Missing(o, slots, faulty)
  {
  }

  // Once a kept address could not be put back the rest of the list is not tried.
  lemma {:induction false} RestoreStops(o: Operator, keep: seq<Slot>, n: nat, faulty: set<Slot>)
    requires n <= |keep| && !Restore(o, keep[..n], faulty).ok
    ensures Restore(o, keep, faulty) == Restore(o, keep[..n], faulty)
    decreases |keep|
  {
    if n < |keep| {
      assert keep[..|keep| - 1][..n] == keep[..n];
      RestoreStops(o, keep[..|keep| - 1], n, faulty);
    } else {
      assert keep[..n] == keep;
    }
  }
}

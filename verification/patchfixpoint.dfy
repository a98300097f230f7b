// Patching again with the same addresses: when the second run has nothing to do, whatever nodes are drawn.
module PatchFixpoint {
  import opened Types
  import opened Availability
  import opened Allocations

  // addOperatorNodeToAllocation leaves the entry exactly as it is and draws no node.
  ghost predicate Settled(declared: seq<Pool>, namespace: string, e: Entry) {
    var d := PoolOfAddress(declared, namespace, e.address);
    d.Some? && !NeedsNode(d.value, e) && e.cloudProvider == d.value.CloudProvider()
  }

  // The pool of the address puts addresses on an interface whose name is empty.
  ghost predicate NamelessInterface(declared: seq<Pool>, namespace: string, address: string) {
    var d := PoolOfAddress(declared, namespace, address);
    d.Some? && d.value.HasHostNetwork() && d.value.InterfaceName() == ""
  }

  ghost predicate NamedNodes(picks: seq<Option<string>>) {
    forall i :: 0 <= i < |picks| ==> picks[i] != Some("")
  }

  lemma AssignSettles(pool: Pool, e: Entry, pick: Option<string>)
    requires pick != Some("") && !PickFails(pool, e, pick)
    ensures NeedsNode(pool, AssignNode(pool, e, pick)) <==> pool.HasHostNetwork() && pool.InterfaceName() == ""
    ensures AssignNode(pool, e, pick).cloudProvider == pool.CloudProvider()
  {
  }

  // Assigning again, whatever node is drawn, leaves an entry alone and does not fail, exactly when its pool does not
  // ask for an interface without a name and the entry has a node: it got one now, or had one already.
  lemma AssignAgainIff(pool: Pool, e: Entry, pick: Option<string>)
    requires pick != Some("")
    ensures var placed := AssignNode(pool, e, pick);
            (forall again :: AssignNode(pool, placed, again) == placed && !PickFails(pool, placed, again))
            <==> !(pool.HasHostNetwork() && pool.InterfaceName() == "") && (PickFails(pool, e, pick) ==>
              e.nodeName != "")
  {
    var placed := AssignNode(pool, e, pick);
    if forall again :: AssignNode(pool, placed, again) == placed && !PickFails(pool, placed, again) {
      assert AssignNode(pool, placed, None) == placed && !PickFails(pool, placed, None);
    }
  }

  // What a build leaves behind: only a nameless interface makes the entry draw a node again.
  ghost predicate SettledUnlessNameless(declared: seq<Pool>, namespace: string, e: Entry) {
    var d := PoolOfAddress(declared, namespace, e.address);
    && d.Some?
    && e.cloudProvider == d.value.CloudProvider()
    && (NeedsNode(d.value, e) <==> NamelessInterface(declared, namespace, e.address))
  }

  lemma {:induction false} BuildSettles(declared: seq<Pool>, av: seq<Pool>, free: set<string>, namespace: string,
      current: seq<Entry>, ips: seq<string>, picks: seq<Option<string>>)
    requires |picks| == |ips| && NamedNodes(picks)
    requires DisjointPools(declared) && Offers(declared, av, free) && AllBacked(declared, namespace, current)
    requires Build(declared, av, namespace, current, ips, picks).error.None?
    ensures forall e :: e in Build(declared, av, namespace, current, ips, picks).entries ==>
        SettledUnlessNameless(declared, namespace, e)
  {
    if ips != [] {
      var k := |ips| - 1;
      var before := Build(declared, av, namespace, current, ips[..k], picks[..k]);
      var left := free - Obtained(declared, free, namespace, current, ips[..k]);
      BuildMeaning(declared, av, free, namespace, current, ips[..k], picks[..k]);
      BuildStepOrder(declared, before, left, namespace, current, ips[k], picks[k]);
      BuildSettles(declared, av, free, namespace, current, ips[..k], picks[..k]);
      BuildStepSettles(declared, before, left, namespace, current, ips[k], picks[k]);
    }
  }

  lemma BuildStepSettles(declared: seq<Pool>, b: Built, free: set<string>, namespace: string, current: seq<Entry>,
      ip: string, pick: Option<string>)
    requires pick != Some("") && DisjointPools(declared) && Offers(declared, b.av, free)
        && AllBacked(declared, namespace, current)
    requires BuildStep(declared, namespace, current, b, ip, pick).error.None?
    ensures exists x :: BuildStep(declared, namespace, current, b, ip, pick).entries == b.entries + [x]
                        && SettledUnlessNameless(declared, namespace, x)
  {
    match FindEntry(current, ip)
    case Some(ready) =>
      assert Backed(declared, namespace, ready);
      var d :| d in declared && Serves(d, namespace, ip) && d.name == ready.pool;
      PoolOfAddressIs(declared, namespace, ip, d);
      AssignSettles(d, ready, pick);
      assert BuildStep(declared, namespace, current, b, ip, pick).entries == b.entries + [AssignNode(d, ready, pick)];
    case None =>
      UseTakesOne(declared, b.av, free, namespace, ip);
      var u := UseIP(b.av, namespace, ip);
      var e := Entry(ip, "", "", "", u.pool.value.name);
      AssignSettles(u.pool.value, e, pick);
      assert BuildStep(declared, namespace, current, b, ip, pick).entries
          == b.entries + [AssignNode(u.pool.value, e, pick)];
  }

  lemma {:induction false} FindDistinct(entries: seq<Entry>, i: nat)
    requires i < |entries| && Distinct(AddressList(entries))
    ensures FindEntry(entries, entries[i].address) == Some(entries[i])
  {
    if i > 0 {
      assert AddressList(entries)[0] != AddressList(entries)[i];
      assert AddressList(entries[1..]) == AddressList(entries)[1..];
      FindDistinct(entries[1..], i - 1);
    }
  }

  lemma KeepSettled(declared: seq<Pool>, namespace: string, entries: seq<Entry>, b: Built, e: Entry,
      pick: Option<string>)
    requires FindEntry(entries, e.address) == Some(e) && Settled(declared, namespace, e)
    ensures BuildStep(declared, namespace, entries, b, e.address, pick) == b.(entries := b.entries + [e])
  {
  }

  // Rebuilding settled entries for their own addresses gives them back, takes nothing and draws no node.
  lemma {:induction false} RebuildSettled(declared: seq<Pool>, av: seq<Pool>, namespace: string, entries: seq<Entry>,
      ips: seq<string>, picks: seq<Option<string>>, n: nat)
    requires n <= |entries| == |picks| && ips == AddressList(entries) && Distinct(ips)
    requires forall e :: e in entries ==> Settled(declared, namespace, e)
    ensures Build(declared, av, namespace, entries, ips[..n], picks[..n]) == Built(av, entries[..n], None)
  {
    if n > 0 {
      var k := n - 1;
      RebuildSettled(declared, av, namespace, entries, ips, picks, k);
      BuildNext(declared, av, namespace, entries, ips, picks, k);
      RebuildOne(declared, av, namespace, entries, picks[k], k);
    }
  }

  lemma RebuildOne(declared: seq<Pool>, av: seq<Pool>, namespace: string, entries: seq<Entry>, pick: Option<string>,
      k: nat)
    requires k < |entries| && Distinct(AddressList(entries)) && Settled(declared, namespace, entries[k])
    ensures BuildStep(declared, namespace, entries, Built(av, entries[..k], None), entries[k].address, pick)
            == Built(av, entries[..k + 1], None)
  {
    FindDistinct(entries, k);
    KeepSettled(declared, namespace, entries, Built(av, entries[..k], None), entries[k], pick);
    assert entries[..k + 1] == entries[..k] + [entries[k]];
  }

  lemma StepKeepsError(declared: seq<Pool>, namespace: string, current: seq<Entry>, b: Built, ip: string,
      pick: Option<string>)
    requires b.error.Some?
    ensures BuildStep(declared, namespace, current, b, ip, pick).error.Some?
  {
  }

  lemma UnsettledStep(declared: seq<Pool>, namespace: string, entries: seq<Entry>, b: Built, k: nat)
    requires k < |entries| && Distinct(AddressList(entries))
    requires var d := PoolOfAddress(declared, namespace, entries[k].address); d.Some? && NeedsNode(d.value, entries[k])
    ensures BuildStep(declared, namespace, entries, b, entries[k].address, None).error.Some?
  {
    FindDistinct(entries, k);
  }

  // Once a build has met an error, it reports one.
  lemma {:induction false} ErrorStays(declared: seq<Pool>, av: seq<Pool>, namespace: string, current: seq<Entry>,
      ips: seq<string>, picks: seq<Option<string>>, i: nat)
    requires i <= |ips| == |picks| && Build(declared, av, namespace, current, ips[..i], picks[..i]).error.Some?
    ensures Build(declared, av, namespace, current, ips, picks).error.Some?
    decreases |ips| - i
  {
    if i < |ips| {
      BuildNext(declared, av, namespace, current, ips, picks, i);
      StepKeepsError(declared, namespace, current, Build(declared, av, namespace, current, ips[..i], picks[..i]),
          ips[i],
        picks[i]);
      ErrorStays(declared, av, namespace, current, ips, picks, i + 1);
    } else {
      assert ips[..i] == ips && picks[..i] == picks;
    }
  }

  // A held address that needs a node makes the build report an error when no node is found.
  lemma UnsettledFails(declared: seq<Pool>, av: seq<Pool>, namespace: string, entries: seq<Entry>,
      picks: seq<Option<string>>, i: nat)
    requires i < |entries| == |picks| && Distinct(AddressList(entries)) && picks[i] == None
    requires var d := PoolOfAddress(declared, namespace, entries[i].address); d.Some? && NeedsNode(d.value, entries[i])
    ensures Build(declared, av, namespace, entries, AddressList(entries), picks).error.Some?
  {
    var ips := AddressList(entries);
    BuildNext(declared, av, namespace, entries, ips, picks, i);
    UnsettledStep(declared, namespace, entries, Build(declared, av, namespace, entries, ips[..i], picks[..i]), i);
    ErrorStays(declared, av, namespace, entries, ips, picks, i + 1);
  }

  lemma {:induction false} DroppedNone(entries: seq<Entry>, kept: seq<Entry>)
    requires forall e :: e in entries ==> e in kept
    ensures Dropped(entries, kept) == []
  {
    if entries != [] {
      DroppedNone(entries[..|entries| - 1], kept);
      var e := entries[|entries| - 1];
      assert e in kept;
      assert e.address in AddressesOf(kept);
    }
  }

  lemma PatchSettled(declared: seq<Pool>, av: seq<Pool>, namespace: string, stored: IPAllocation,
      picks: seq<Option<string>>, updateOk: bool)
    requires |picks| == |stored.entries| && Distinct(AddressList(stored.entries))
    requires forall e :: e in stored.entries ==> Settled(declared, namespace, e)
    ensures Patch(declared, av, namespace, stored, AddressList(stored.entries), picks, updateOk)
        == Patched(av, stored, [], None, None, false)
  {
    var entries := stored.entries;
    var n := |entries|;
    RebuildSettled(declared, av, namespace, entries, AddressList(entries), picks, n);
    assert AddressList(entries)[..n] == AddressList(entries) && picks[..n] == picks && entries[..n] == entries;
    DroppedNone(entries, entries);
  }

  lemma PatchUnsettled(declared: seq<Pool>, av: seq<Pool>, namespace: string, stored: IPAllocation, i: nat)
    requires i < |stored.entries| && Distinct(AddressList(stored.entries))
    requires var d :=
        PoolOfAddress(declared, namespace, stored.entries[i].address); d.Some? && NeedsNode(d.value, stored.entries[i])
    ensures Patch(declared, av, namespace, stored, AddressList(stored.entries), seq(|stored.entries|, _ => None),
        true).allocError.Some?
  {
    UnsettledFails(declared, av, namespace, stored.entries, seq(|stored.entries|, _ => None), i);
  }

  // Patching this object with exactly its own addresses has nothing to do, for every choice of nodes.
  ghost predicate IsFixpoint(declared: seq<Pool>, av: seq<Pool>, namespace: string, stored: IPAllocation) {
    forall again: seq<Option<string>>, updateOk: bool :: |again| == |stored.entries| ==>
      Patch(declared, av, namespace, stored, AddressList(stored.entries), again, updateOk)
          == Patched(av, stored, [], None, None, false)
  }

  lemma FixpointIff(declared: seq<Pool>, av: seq<Pool>, namespace: string, stored: IPAllocation)
    requires Distinct(AddressList(stored.entries))
    requires forall e :: e in stored.entries ==> SettledUnlessNameless(declared, namespace, e)
    ensures IsFixpoint(declared, av, namespace, stored)
            <==> forall ip :: ip in AddressList(stored.entries) ==> !NamelessInterface(declared, namespace, ip)
  {
    var entries := stored.entries;
    if i :| 0 <= i < |entries| && NamelessInterface(declared, namespace, AddressList(entries)[i]) {
      assert entries[i] in entries;
      PatchUnsettled(declared, av, namespace, stored, i);
    } else {
      AllSettled(declared, namespace, entries);
      forall again: seq<Option<string>>, updateOk: bool | |again| == |entries|
        ensures Patch(declared, av, namespace, stored, AddressList(entries), again, updateOk)
            == Patched(av, stored, [], None, None, false)
      {
        PatchSettled(declared, av, namespace, stored, again, updateOk);
      }
    }
  }

  // A patch that ended with no allocation error is a fixpoint: run again with the same addresses it changes neither
  // the object nor the availability, removes nothing and writes nothing, for every choice of nodes, exactly when
  // no requested address belongs to a pool with an empty interface name.
  lemma PatchAgain(declared: seq<Pool>, av: seq<Pool>, free: set<string>, namespace: string, current: IPAllocation,
      ips: seq<string>, picks: seq<Option<string>>)
    requires |picks| == |ips| && Distinct(ips) && NamedNodes(picks)
    requires DisjointPools(declared) && Offers(declared, av, free) && AllBacked(declared, namespace, current.entries)
    requires Patch(declared, av, namespace, current, ips, picks, true).allocError.None?
    ensures var p := Patch(declared, av, namespace, current, ips, picks, true);
            && AddressList(p.stored.entries) == ips
            && (IsFixpoint(declared, p.av, namespace, p.stored) <==>
                 forall ip :: ip in ips ==> !NamelessInterface(declared, namespace, ip))
  {
    var p := Patch(declared, av, namespace, current, ips, picks, true);
    assert p.stored.entries == Build(declared, av, namespace, current.entries, ips, picks).entries;
    BuildListsAll(declared, av, free, namespace, current.entries, ips, picks);
    BuildSettles(declared, av, free, namespace, current.entries, ips, picks);
    FixpointIff(declared, p.av, namespace, p.stored);
  }

  lemma AllSettled(declared: seq<Pool>, namespace: string, entries: seq<Entry>)
    requires forall e :: e in entries ==> SettledUnlessNameless(declared, namespace, e)
    requires forall i :: 0 <= i < |entries| ==> !NamelessInterface(declared, namespace, entries[i].address)
    ensures forall e :: e in entries ==> Settled(declared, namespace, e)
  {
  }
}

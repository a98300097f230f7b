// One operator: the kernel's address table on its node and the list of addresses it was told to hold, as a value.
// `faulty` are the slots on which the kernel refuses to add or delete in this call.
module OperatorNode {
  import opened Types

  // An address on an interface (AddressInfo).
  datatype Slot = Slot(networkInterface: string, address: string)

  datatype Operator = Operator(links: seq<string>, table: map<Slot, string>, listed: seq<Slot>)

  datatype Result = Result(operator: Operator, ok: bool)

  const LABEL_NAME := "pllb"

  function LinkLabel(networkInterface: string): string {
    networkInterface + ":" + LABEL_NAME
  }

  // The entry carries the label this operator puts on what it adds.
  predicate Labelled(table: map<Slot, string>, s: Slot) {
    s in table && table[s] == LinkLabel(s.networkInterface)
  }

  // ---- the calls ----

  predicate CanAdd(o: Operator, s: Slot, faulty: set<Slot>) {
    s.networkInterface in o.links && (s in o.table || s !in faulty)
  }

  function Put(table: map<Slot, string>, s: Slot): map<Slot, string> {
    if s in table then table else table[s := LinkLabel(s.networkInterface)]
  }

  function Add(o: Operator, s: Slot, faulty: set<Slot>): Result {
    if CanAdd(o, s, faulty) then
      Result(o.(table := Put(o.table, s), listed := if s in o.listed then o.listed else o.listed + [s]), true)
    else Result(o, false)
  }

  function Except(slots: seq<Slot>, s: Slot): (r: seq<Slot>)
    ensures forall x :: x in r <==> x in slots && x != s
    ensures Distinct(slots) ==> Distinct(r)
  {
    if slots == [] then []
    else
      var n := |slots| - 1;
      assert slots == slots[..n] + [slots[n]];
      var rest := Except(slots[..n], s);
      assert forall j :: 0 <= j < |rest| ==> rest[j] in slots[..n];
      assert Distinct(slots) ==> slots[n] !in slots[..n];
      rest + (if slots[n] != s then [slots[n]] else [])
  }

  function Remove(o: Operator, s: Slot, faulty: set<Slot>): Result {
    if s.networkInterface in o.links && !(s in o.table && s in faulty) then
      Result(o.(table := o.table - {s}, listed := Except(o.listed, s)), true)
    else Result(o, false)
  }

  predicate Stale(o: Operator, s: Slot, keep: seq<Slot>, faulty: set<Slot>) {
    s.networkInterface in o.links && Labelled(o.table, s) && s !in keep && s !in faulty
  }

  function Swept(o: Operator, keep: seq<Slot>, faulty: set<Slot>): map<Slot, string> {
    map s | s in o.table && !Stale(o, s, keep, faulty) :: o.table[s]
  }

  // Puts the kept addresses back one by one and stops at the first that fails.
  function Restore(o: Operator, keep: seq<Slot>, faulty: set<Slot>): Result {
    if keep == [] then Result(o, true)
    else
      var n := |keep| - 1;
      var r := Restore(o, keep[..n], faulty);
      if r.ok && CanAdd(r.operator, keep[n], faulty)
          then Result(r.operator.(table := Put(r.operator.table, keep[n])), true)
      else Result(r.operator, false)
  }

  function Cleanup(o: Operator, keep: seq<Slot>, faulty: set<Slot>): Result {
    var r := Restore(o.(table := Swept(o, keep, faulty)), keep, faulty);
    if r.ok then Result(r.operator.(listed := keep), true) else r
  }

  // Addresses that disappear from the kernel behind the operator's back.
  function Lose(o: Operator, lost: set<Slot>): Operator {
    o.(table := o.table - lost)
  }

  // The table entries for those of the slots that are missing and can be added.
  function Missing(o: Operator, slots: seq<Slot>, faulty: set<Slot>): map<Slot, string> {
    map s | s in slots && s !in o.table && CanAdd(o, s, faulty) :: LinkLabel(s.networkInterface)
  }

  // processAddressUpdate: every listed address that is missing is added again.
  function Repair(o: Operator, faulty: set<Slot>): Operator {
    o.(table := o.table + Missing(o, o.listed, faulty))
  }

  // ---- what a cleanup leaves ----

  lemma {:induction false} RestoreMeaning(o: Operator, keep: seq<Slot>, faulty: set<Slot>)
    ensures var r := Restore(o, keep, faulty);
            && r.operator == o.(table := r.operator.table)
            && (r.ok <==> forall s :: s in keep ==> CanAdd(o, s, faulty))
            && (forall s :: s in o.table ==> s in r.operator.table && r.operator.table[s] == o.table[s])
            && (forall s :: s in r.operator.table && s !in o.table ==> s in keep && Labelled(r.operator.table, s))
            && (r.ok ==> forall s :: s in keep ==> s in r.operator.table)
  {
    if keep != [] {
      var n := |keep| - 1;
      assert keep == keep[..n] + [keep[n]];
      assert forall s :: s in keep <==> s in keep[..n] || s == keep[n];
      RestoreMeaning(o, keep[..n], faulty);
      var before := Restore(o, keep[..n], faulty);
      assert before.ok ==> (CanAdd(before.operator, keep[n], faulty) <==> CanAdd(o, keep[n], faulty));
    }
  }

  // The slot is asked for before any that cannot be added.
  ghost predicate BeforeFailure(links: seq<string>, keep: seq<Slot>, x: Slot) {
    exists j :: 0 <= j < |keep| && keep[j] == x && forall m :: 0 <= m <= j ==> keep[m].networkInterface in links
  }

  lemma BeforeFailureLast(links: seq<string>, keep: seq<Slot>, n: nat, x: Slot)
    requires |keep| == n + 1
    ensures BeforeFailure(links, keep, x)
            <==> BeforeFailure(links, keep[..n], x) || (x == keep[n] && forall s :: s in keep ==>
              s.networkInterface in links)
  {
    if j :| 0 <= j <= n && keep[j] == x && forall m :: 0 <= m <= j ==> keep[m].networkInterface in links {
      if j < n {
        assert keep[..n][j] == x && forall m :: 0 <= m <= j ==> keep[..n][m] == keep[m];
      }
    }
    if j :| 0 <= j < n && keep[..n][j] == x && forall m :: 0 <= m <= j ==> keep[..n][m].networkInterface in links {
      assert keep[j] == x && forall m :: 0 <= m <= j ==> keep[m] == keep[..n][m];
    }
  }

  // Restoring reaches the slots before the first failure, and no others.
  lemma {:induction false} RestoreReaches(o: Operator, keep: seq<Slot>, x: Slot)
    ensures x in Restore(o, keep, {}).operator.table <==> x in o.table || BeforeFailure(o.links, keep, x)
  {
    if keep != [] {
      var n := |keep| - 1;
      assert keep == keep[..n] + [keep[n]];
      RestoreReaches(o, keep[..n], x);
      RestoreMeaning(o, keep[..n], {});
      BeforeFailureLast(o.links, keep, n, x);
    }
  }

  // A cleanup succeeds exactly when every kept address is on an interface the node has (and the kernel takes it).
  // Then the list is the keep list, every kept address is present, no other labelled address is left unless the
  // kernel refused to delete it, and what was not labelled is as before.
  lemma CleanupMeaning(o: Operator, keep: seq<Slot>, faulty: set<Slot>)
    requires forall s :: s in o.table ==> s.networkInterface in o.links
    ensures var r := Cleanup(o, keep, faulty);
            && (r.ok <==> forall s :: s in keep ==> CanAdd(o, s, faulty))
            && (r.ok ==> r.operator.listed == keep && forall s :: s in keep ==> s in r.operator.table)
            && (!r.ok ==> r.operator.listed == o.listed)
            && (forall s :: Labelled(r.operator.table, s) ==> s in keep || s in faulty)
            && (forall s :: s in o.table && !Labelled(o.table, s) ==>
                 s in r.operator.table && r.operator.table[s] == o.table[s])
            && (forall s :: s in r.operator.table && s !in o.table ==> s in keep && Labelled(r.operator.table, s))
            && (forall s :: s in r.operator.table && s in o.table ==> r.operator.table[s] == o.table[s])
            && r.operator.links == o.links
  {
    var swept := o.(table := Swept(o, keep, faulty));
    RestoreMeaning(swept, keep, faulty);
    assert forall s :: s in keep ==> (CanAdd(o, s, faulty) <==> CanAdd(swept, s, faulty));
    var r := Restore(swept, keep, faulty);
    forall s | Labelled(r.operator.table, s)
      ensures s in keep || s in faulty
    {
      if s in swept.table {
        assert Labelled(o.table, s) && !Stale(o, s, keep, faulty);
      }
    }
  }

  // ---- runs of one operator ----

  datatype Call =
    | AddCall(slot: Slot, refused: bool)
    | RemoveCall(slot: Slot, refused: bool)
    | CleanupCall(keep: seq<Slot>)
    | Loss(lost: set<Slot>)
    | Update

  function Serve(o: Operator, e: Call): Operator {
    match e
    case AddCall(s, refused) => Add(o, s, if refused then {s} else {}).operator
    case RemoveCall(s, refused) => Remove(o, s, if refused then {s} else {}).operator
    case CleanupCall(keep) => Cleanup(o, keep, {}).operator
    case Loss(lost) => Lose(o, lost)
    case Update => Repair(o, {})
  }

  function ServeAll(o: Operator, calls: seq<Call>): Operator {
    if calls == [] then o else Serve(ServeAll(o, calls[..|calls| - 1]), calls[|calls| - 1])
  }

  // The simple form of the list: the set of slots the calls ask for, whatever the kernel loses.
  ghost function Wanted(links: seq<string>, start: set<Slot>, calls: seq<Call>): set<Slot> {
    if calls == [] then start
    else
      var before := Wanted(links, start, calls[..|calls| - 1]);
      match calls[|calls| - 1]
      case AddCall(s, refused) => if refused || s.networkInterface !in links then before else before + {s}
      case RemoveCall(s, refused) => if refused || s.networkInterface !in links then before else before - {s}
      case CleanupCall(keep) => Elements(keep)
      case Loss(_) => before
      case Update => before
  }

  // The list and the table agree: only interfaces of the node, and nothing labelled that is not listed.
  ghost predicate Agrees(o: Operator) {
    && (forall s :: s in o.table ==> s.networkInterface in o.links)
    && (forall s :: s in o.listed ==> s.networkInterface in o.links)
    && (forall s :: Labelled(o.table, s) ==> s in o.listed)
  }

  // A cleanup whose keep list is on interfaces of the node, free of duplicates; a refused call really is refused.
  ghost predicate Regular(o: Operator, e: Call) {
    match e
    case AddCall(s, refused) => refused ==> s !in o.table
    case RemoveCall(s, refused) => refused ==> s in o.table
    case CleanupCall(keep) => Distinct(keep) && forall s :: s in keep ==> s.networkInterface in o.links
    case _ => true
  }

  ghost predicate RegularCalls(o: Operator, calls: seq<Call>) {
    forall i :: 0 <= i < |calls| ==> Regular(ServeAll(o, calls[..i]), calls[i])
  }

  lemma ServeAgrees(o: Operator, e: Call)
    requires Agrees(o) && Distinct(o.listed) && Regular(o, e)
    ensures Agrees(Serve(o, e)) && Distinct(Serve(o, e).listed) && Serve(o, e).links == o.links
  {
    match e
    case CleanupCall(keep) => CleanupMeaning(o, keep, {});
    case _ =>
  }

  lemma {:induction false} CallsAgree(o: Operator, calls: seq<Call>)
    requires Agrees(o) && Distinct(o.listed) && RegularCalls(o, calls)
    ensures Agrees(ServeAll(o, calls)) && Distinct(ServeAll(o, calls).listed) && ServeAll(o, calls).links == o.links
    ensures Elements(ServeAll(o, calls).listed) == Wanted(o.links, Elements(o.listed), calls)
  {
    if calls != [] {
      var n := |calls| - 1;
      assert forall i :: 0 <= i < n ==> calls[..n][..i] == calls[..i];
      CallsAgree(o, calls[..n]);
      ServeAgrees(ServeAll(o, calls[..n]), calls[n]);
      match calls[n]
      case CleanupCall(keep) => CleanupMeaning(ServeAll(o, calls[..n]), keep, {});
      case _ =>
    }
  }

  // After any regular run, one update puts every wanted address back on its interface and changes nothing else:
  // the labelled addresses are then exactly the wanted ones that nobody else had put there.
  lemma UpdateRestoresAll(o: Operator, calls: seq<Call>)
    requires Agrees(o) && Distinct(o.listed) && RegularCalls(o, calls)
    ensures var before := ServeAll(o, calls);
            var after := Repair(before, {});
            var wanted := Wanted(o.links, Elements(o.listed), calls);
            && (forall s :: s in after.table <==> s in before.table || s in wanted)
            && (forall s :: s in before.table ==> after.table[s] == before.table[s])
            && (forall s :: Labelled(after.table, s) <==>
                 s in wanted && !(s in before.table && !Labelled(before.table, s)))
            && after.listed == before.listed
  {
    CallsAgree(o, calls);
  }
}

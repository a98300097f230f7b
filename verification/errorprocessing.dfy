// The list of error allocations being retried (lock.go) and the handler that brackets its retries with it
// (processAllocationStatusError of allocationswatcher.go).
module ErrorProcessing {
  import opened Types
  import opened Availability
  import opened Backoff

  // fmt.Sprintf("%s/%s", namespace, name)
  function ListKey(key: Key): string {
    key.namespace + "/" + key.name
  }

  // Kubernetes namespaces contain no slash, so two allocations never share a list key.
  lemma ListKeyInjective(a: Key, b: Key)
    requires '/' !in a.namespace && '/' !in b.namespace && ListKey(a) == ListKey(b)
    ensures a == b
  {
    var x, y := ListKey(a), ListKey(b);
    var i, j := |a.namespace|, |b.namespace|;
    assert x[i] == '/' && y[j] == '/';
    assert forall t :: 0 <= t < i ==> x[t] == a.namespace[t] != '/';
    assert forall t :: 0 <= t < j ==> y[t] == b.namespace[t] != '/';
    assert i == j;
    assert x[..i] == a.namespace && y[..j] == b.namespace;
    assert x[i + 1..] == a.name && y[j + 1..] == b.name;
  }

  function IndexIn(list: seq<string>, k: string): (i: nat)
    ensures i <= |list|
    ensures i < |list| ==> list[i] == k
    ensures k !in list[..i]
  {
    if list == [] || list[0] == k then 0 else
      var rest := IndexIn(list[1..], k);
      assert list[..1 + rest] == [list[0]] + list[1..][..rest];
      1 + rest
  }

  function Added(list: seq<string>, k: string): seq<string> {
    if k in list then list else list + [k]
  }

  function Removed(list: seq<string>, k: string): seq<string> {
    var i := IndexIn(list, k);
    if i < |list| then SwapRemove(list, i) else list
  }

  class ProcessingList {
    var errorAllocations: seq<string>

    constructor ()
      ensures errorAllocations == []
    {
      errorAllocations := [];
    }

    method IsAlreadyProcessing(key: Key) returns (found: bool)
      ensures found <==> ListKey(key) in errorAllocations
    {
      for i := 0 to |errorAllocations|
        invariant ListKey(key) !in errorAllocations[..i]
      {
        if errorAllocations[i] == ListKey(key) {
          return true;
        }
      }
      return false;
    }

    method AddToProcessingList(key: Key)
      modifies this
      ensures errorAllocations == Added(old(errorAllocations), ListKey(key))
    {
      var found := IsAlreadyProcessing(key);
      if !found {
        errorAllocations := errorAllocations + [ListKey(key)];
      }
    }

    method RemoveFromProcessingList(key: Key)
      modifies this
      ensures errorAllocations == Removed(old(errorAllocations), ListKey(key))
    {
      ghost var before := errorAllocations;
      for i := 0 to |errorAllocations|
        invariant errorAllocations == before && ListKey(key) !in before[..i]
      {
        if errorAllocations[i] == ListKey(key) {
          IndexInUnique(before, i, ListKey(key));
          var last := |errorAllocations| - 1;
          errorAllocations := errorAllocations[i := errorAllocations[last]];
          errorAllocations := errorAllocations[..last];
          return;
        }
      }
      assert before[..|before|] == before;
    }
  }

  lemma IndexInUnique(list: seq<string>, i: nat, k: string)
    requires i < |list| && list[i] == k && k !in list[..i]
    ensures IndexIn(list, k) == i
  {
    var j := IndexIn(list, k);
    assert forall m :: 0 <= m < i ==> list[m] in list[..i];
    assert forall m :: 0 <= m < j ==> list[m] in list[..j];
  }

  // ---- the list is a set ----

  datatype Op = Begin(key: string) | End(key: string)

  function Play(list: seq<string>, ops: seq<Op>): seq<string> {
    if ops == [] then list
    else
      var before := Play(list, ops[..|ops| - 1]);
      match ops[|ops| - 1]
      case Begin(k) => Added(before, k)
      case End(k) => Removed(before, k)
  }

  ghost function PlaySet(s: set<string>, ops: seq<Op>): set<string> {
    if ops == [] then s
    else
      var before := PlaySet(s, ops[..|ops| - 1]);
      match ops[|ops| - 1]
      case Begin(k) => before + {k}
      case End(k) => before - {k}
  }

  lemma RemovedMeaning(list: seq<string>, k: string)
    requires Distinct(list)
    ensures Distinct(Removed(list, k)) && Elements(Removed(list, k)) == Elements(list) - {k}
    ensures multiset(Removed(list, k)) == multiset(list) - multiset{k}
  {
    var i := IndexIn(list, k);
    var r := Removed(list, k);
    if i < |list| {
      SwapRemoveMultiset(list, i);
      forall x | x in list && x != k
        ensures x in r
      {
        var j :| 0 <= j < |list| && list[j] == x;
        assert r[if j == |list| - 1 then i else j] == x;
      }
    } else {
      assert list[..i] == list;
    }
  }

  // Swap removal and all, the list is at every time a duplicate-free form of the set of allocations being retried.
  lemma {:induction false} PlayIsASet(list: seq<string>, ops: seq<Op>)
    requires Distinct(list)
    ensures Distinct(Play(list, ops)) && Elements(Play(list, ops)) == PlaySet(Elements(list), ops)
  {
    if ops != [] {
      var n := |ops| - 1;
      PlayIsASet(list, ops[..n]);
      var before := Play(list, ops[..n]);
      match ops[n]
      case Begin(k) => assert Elements(Added(before, k)) == Elements(before) + {k};
      case End(k) => RemovedMeaning(before, k);
    }
  }

  // Whatever other handlers do in between, a retry that begins and ends leaves no trace in the set.
  lemma {:induction false} BracketLeavesNoTrace(s: set<string>, k: string, others: seq<Op>)
    requires k !in s && forall i :: 0 <= i < |others| ==> others[i].key != k
    ensures PlaySet(s + {k}, others) == PlaySet(s, others) + {k}
    ensures k !in PlaySet(s, others)
    ensures PlaySet(s, [Begin(k)] + others + [End(k)]) == PlaySet(s, others)
  {
    BracketAround(s, k, others);
    var all := [Begin(k)] + others + [End(k)];
    var n := |all| - 1;
    assert all[..n] == [Begin(k)] + others;
    BeginFirst(s, k, others);
  }

  lemma {:induction false} BracketAround(s: set<string>, k: string, others: seq<Op>)
    requires k !in s && forall i :: 0 <= i < |others| ==> others[i].key != k
    ensures PlaySet(s + {k}, others) == PlaySet(s, others) + {k}
    ensures k !in PlaySet(s, others)
  {
    if others != [] {
      BracketAround(s, k, others[..|others| - 1]);
    }
  }

  lemma {:induction false} BeginFirst(s: set<string>, k: string, others: seq<Op>)
    ensures PlaySet(s, [Begin(k)] + others) == PlaySet(s + {k}, others)
  {
    var all := [Begin(k)] + others;
    var n := |all| - 1;
    if others == [] {
      assert all == [Begin(k)] && all[..0] == [];
    } else {
      assert all[..n] == [Begin(k)] + others[..|others| - 1];
      BeginFirst(s, k, others[..|others| - 1]);
    }
  }

  // ---- the handler ----

  // How one attempt ends: the lock is held, a lookup or the reconciliation or the allocation fails, or the allocation
  // is still in error (all of them tried again), or it is no longer in error state.
  datatype Attempt = Trouble(reason: string) | NoLongerInError

  datatype Outcome = AlreadyProcessing | Recovered | GoneMissing | MarkedFailed(reason: string)

  method ProcessAllocationStatusError(list: ProcessingList, key: Key, attempts: seq<Attempt>, draws: seq<nat>,
      found: bool)
    returns (outcome: Outcome, runs: nat)
    requires Distinct(list.errorAllocations) && |attempts| >= ERROR_BACKOFF.steps && |draws| >= ERROR_BACKOFF.steps
    modifies list
    ensures ListKey(key) in old(list.errorAllocations) <==> outcome == AlreadyProcessing
    ensures outcome == AlreadyProcessing ==> list.errorAllocations == old(list.errorAllocations) && runs == 0
    ensures outcome != AlreadyProcessing ==>
              && ListKey(key) !in list.errorAllocations
              && list.errorAllocations == old(list.errorAllocations)
              && 1 <= runs <= ERROR_BACKOFF.steps
              && (forall k :: 0 <= k < runs - 1 ==> attempts[k].Trouble?)
              && (outcome == Recovered <==> attempts[runs - 1] == NoLongerInError)
              && (outcome != Recovered ==> runs == ERROR_BACKOFF.steps)
              && (outcome == GoneMissing ==> !found)
              && (outcome.MarkedFailed? ==> found && attempts[runs - 1] == Trouble(outcome.reason))
  {
    var already := list.IsAlreadyProcessing(key);
    if already {
      return AlreadyProcessing, 0;
    }
    list.AddToProcessingList(key);
    AddThenRemove(old(list.errorAllocations), ListKey(key));
    var results := seq(|attempts|, k requires 0 <= k < |attempts| =>
      match attempts[k] case Trouble(reason) => Some(reason) case NoLongerInError => None);
    var err, sleeps;
    err, runs, sleeps := OnErrorForever(ERROR_BACKOFF, (e: string) => true, results, draws);
    forall k | 0 <= k < runs - 1
      ensures attempts[k].Trouble?
    {
      assert results[k].Some?;
    }
    // the attempt that finds the allocation out of error state leaves the list, and so does exhaustion
    list.RemoveFromProcessingList(key);
    if err.None? {
      return Recovered, runs;
    }
    if !found {
      return GoneMissing, runs;
    }
    return MarkedFailed(err.value), runs;
  }

  lemma AddThenRemove(list: seq<string>, k: string)
    requires k !in list
    ensures Removed(Added(list, k), k) == list
  {
    var added := list + [k];
    assert added[|list|] == k && added[..|list|] == list;
    IndexInUnique(added, |list|, k);
  }
}

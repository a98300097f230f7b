# A verified model of the PlenusLB controller and operator

PlenusLB gives addresses to Kubernetes services of type LoadBalancer. A controller hands out the persistent addresses
that pools declare, records them in IPAllocation objects and picks a node for each; on every node an operator puts the
addresses on a network interface and keeps them there. Each persistent address is meant to be bound to a single service
(README.md:216 of the repository). This project models the three parts that promise depends on and proves what they keep.

**The ledger.** The controller caches the free addresses of each pool in a list that is edited in place (used, released,
recomputed, swap-removed). It has to agree with two slower truths: the declared pools, and the allocation objects together
with deletions not handled yet. `availability.dfy` describes the list as a value, `poolsmanager.dfy` is the same code on
records in the heap, `allocations.dfy` builds, patches, creates and moves allocations.

**Placement.** `operatornode.dfy` is one operator: the kernel's table, the assigned list, the calls and the repair of
outside losses; `observer.dfy` is its imperative form. `speaker.dfy` is the controller's loop over all operators.

**Retry and status.** `backoff.dfy` is the capped backoff in integers, `errorprocessing.dfy` the list of allocations being
retried and the handler around it, `relocation.dfy` the status each allocation ends in.

**Everything together.** `cluster.dfy` is a state machine whose events are handlers run to their end: a service is
created, an allocation is reconciled, ensured, moved, deleted, its deletion handled, a node is lost or comes back, a kernel
loses addresses. `controller.dfy` is the controller as a class whose methods edit pools, objects and nodes, and
`handlers.dfy` sends each event to its method. `effects.dfy` says what each event leaves behind, component by component:
objects and their status, deletions, nodes and offers. `ledger.dfy`, `ledgerresults.dfy` and `placement.dfy` prove what
every run keeps; `dispatch.dfy` derives what `placement.dfy` assumes of the nodes from the states that call for each
handler; `placementheals.dfy` says how a lost placement comes back. `pooledit.dfy`, `poollife.dfy` and
`poolplacement.dfy` let pools come, change and go during a run; `patchfixpoint.dfy` is about reconciling twice.
`failures.dfy` and `failuresplaced.dfy` hold the concrete runs in which a property fails.

The main invariants are `Ledger.LedgerAgrees` (pools disjoint, every entry backed by its pool, one holder per address, the
availability offers exactly what nobody holds) and `Placement.PlacementHolds` (the address of a success allocation is in
the table and in the list of the ready node it names, on the interface of its pool, and no ready node has that address in
any other place; whatever declared addresses ready nodes have are on the interfaces of their pools).

## What turned out not to hold everywhere

For each of these the code is modelled as it is. One lemma says exactly when it meets the property, another gives a
concrete run in which it does not.

- A pool whose addresses are all allocated is offered whole after start-up: `LedgerResults.StartedAgreesIff`,
  `Availability.WarmupExactIff`; `Failures.RestartOffersTaken`. Ensuring the allocations heals it:
  `LedgerResults.HealedAgrees`.
- When the update of a patched object fails, the addresses already used and released stay so:
  `LedgerResults.FailedUpdateIff`; `Failures.FailedUpdateLoses`.
- Recomputing a pool offers the addresses of objects that are deleted but not yet released:
  `LedgerResults.RecomputeKeepsIff`, `PoolLife.EditKeepsLedgerIff`; `Failures.EditOffersPending`.
- The second release of an address that a success allocation gives up frees it under its new owner, if another service
  took it between the two: `LedgerResults.LateReleaseIff`; `Failures.LateReleaseOffersTaken`, which interleaves the two
  handlers. When the reconciliation is one step it is harmless (`Ledger.PatchKeepsLedger`).
- A release that names the wrong pool can put a second entry of the right pool in the list, when an address moved to
  another pool before its deletion was handled: `Availability.ReleaseWellFormedIff`,
  `Availability.SecondReleaseIffNameMatches`; `Failures.MovedAddressDoublesEntry`.
- A pool that adds addresses to an interface with an empty name is given a node again on every reconciliation:
  `PatchFixpoint.PatchAgain`; `PlacementFailures.NamelessMoves`.
- A call for a node without an operator in the list reports success and places nothing, and another ready node that
  cannot be reached keeps the address: `Speaker.EnsureExclusiveIff`, `Placement.EnsurePlacesIff`. The first needs a
  reconciliation that writes an allocation back onto a node it was to leave (`Dispatch.DispatchedRunKeepsAll`);
  `PlacementFailures.MissingOperatorSucceeds`, `PlacementFailures.UnreachableKeeps`.
- When a pool changes its interface, an address stays on the old interface of the node that had it, and ensuring it on
  the new one does not take it away: reconciled and ensured without failure, it can be on two ready nodes.
  `PoolPlacement.EditKeepsPlacementIff`, `Placement.EnsurePlacesIff`; `PlacementFailures.OtherInterfaceStays`.
- The cleanup of a new node fails, and leaves the assigned list as it was, when an allocation names the node with an
  interface the node does not have; entries of cloud-only pools name a node with an empty interface:
  `Placement.ReadyCleansIff`, `Placement.ReadyKeepsPlacementIff`; `PlacementFailures.CloudEntryStopsCleanup`.
- Removing a pool leaves its free addresses in the availability list, and they are still handed out:
  `PoolLife.WithdrawKeepsLedgerIff`, `PoolLife.WithdrawnStillHandedOut`; `Failures.RemovedPoolOffers`.
- An edit that leaves a pool nothing to offer leaves its old entry in place: `PoolEdit.EditedAvailabilityIff`,
  `PoolLife.EditKeepsLedgerIff`; `Failures.EditLeavesOldEntry`.

Once lost, the placement comes back when the ready nodes are cleaned up and the allocations ensured:
`PlacementHeals.HealedPlacement`.

Where code and comments disagree the model follows the code:

- `pkg/controller/utils/utils.go:151` says a sleep truncated by the cap ends the loop; nothing in the loop does that.
- `pkg/controller/persistentips/allocator.go:164` records a missing pool in a variable of the inner block, so the address
  is dropped from the allocation without an error: `Allocations.HeldKeptIff`, `Allocations.HeldGoSilently`.
- `pkg/controller/allocator/allocator.go:37` means to delete an allocation only when its service is not found; after any
  other lookup error there is no service either, which is no load balancer, so the allocation is deleted as well and the
  branch that returns the error is never reached. In the model a service that did not come back is `None`.

## Model

| member | source | states |
|---|---|---|
| `LedgerResults.RunExactlyOnePlace` | pkg/controller/persistentips/allocator.go:36-111 | after any run of events from an agreeing state, whose object updates succeed, each declared address is in exactly one place: available in its own pool, in one allocation, or in one deletion not handled yet; so no two services own it |
| `Ledger.RunKeepsLedger` | pkg/controller/persistentips/poolsManager.go:99-328 | every such run keeps the ledger (free list, allocation objects and pending deletions agree) and the declared pools |
| `Ledger.StepKeepsLedger` | pkg/controller/allocationswatcher/allocationswatcher.go:225-347 | one event, whichever it is, keeps the ledger when the update it makes succeeds |
| `Ledger.PatchKeepsLedger` | pkg/controller/allocationReconciler/reconciler.go:58-86 | a patch whose update succeeds keeps the ledger, and the second release of what it removed changes nothing at all |
| `LedgerResults.RunTenancy` | pkg/controller/persistentips/poolsManager.go:241-273 | after any run every address of an allocation belongs to a pool open to its namespace, and every availability entry admits exactly the namespaces its pool declares |
| `LedgerResults.RunRefinesRecompute` | pkg/controller/persistentips/poolsManager.go:162-238 | after any run with no deletion pending, recomputing a pool as declared minus allocated changes the offer under no pool name, and the cached offer of the pool is declared minus allocated, also when the pool is fully used |
| `LedgerResults.RecomputeKeepsIff` | pkg/controller/persistentips/poolsManager.go:180-195 | recomputing one pool keeps the ledger if and only if no address of it awaits release after a deletion |
| `LedgerResults.FailedUpdateIff` | pkg/controller/persistentips/allocator.go:82-94 | a patch whose update fails after it used and released addresses keeps the ledger if and only if it had no obtainable new address and no address to give up |
| `LedgerResults.LateReleaseIff` | pkg/controller/allocationReconciler/reconciler.go:68-74 | releasing an address a second time later on keeps the ledger if and only if nobody took it in between |
| `LedgerResults.RecreateGetsBack` | pkg/controller/allocationswatcher/allocationswatcher.go:266-289 | handling a deletion while the service still asks for addresses creates an object of the expected type that holds every one of the old addresses still asked for, and whatever else is obtainable |
| `LedgerResults.DeleteThenRecreate` | pkg/controller/persistentips/allocator.go:389-407 | deleting and recreating the allocation of an unchanged service gives back the same addresses from the same pools in the same order, and every pool offers what it did |
| `LedgerResults.StartedAgreesIff` | pkg/controller/persistentips/watcher.go:50-70 | start-up reaches an agreeing ledger if and only if every pool that declares an address has one that nobody owns |
| `LedgerResults.HealingRun` | pkg/controller/allocator/allocator.go:51-76 | from any well-formed availability, after a run in which allocations are ensured with success, exactly the addresses the ensured entries name under a pool name are gone from that name and nothing else has changed |
| `LedgerResults.HealedAgreesIff` | pkg/controller/allocator/allocator.go:51-76 | from an availability that offers any declared addresses, once every allocation was ensured with success the ledger agrees if and only if no address nobody holds had been lost and none that awaits release was offered |
| `LedgerResults.HealedAgrees` | pkg/controller/persistentips/watcher.go:50-70 | however start-up left the availability, once every allocation was ensured with success the ledger agrees |
| `LedgerResults.FreshRun` | pkg/controller/persistentips/watcher.go:50-70 | from declared pools with nothing allocated every run with successful updates keeps the ledger |
| `Placement.RunKeepsPlacement` | pkg/controller/allocationswatcher/allocationswatcher.go:292-347 | after any admissible run every address of a success allocation is on the ready node it names, in the table and in the list, on the interface of its pool, and no ready node has that address in any other place, on whatever interface |
| `Placement.StepKeepsPlacement` | pkg/controller/operatorSpeaker/speaker.go:32-153 | each event keeps that placement; the conditions are those of Admissible |
| `Dispatch.DispatchedRunKeepsAll` | pkg/controller/allocationswatcher/allocationswatcher.go:225-263 | through every run whose handlers are called for by the status they find, pick nodes from the operator list and write no allocation back onto a node without an operator, the ledger and the placement hold, and every address of a pending or success allocation on a host names a node that has an operator: that need not be assumed |
| `Dispatch.DispatchedIsAdmissible` | pkg/controller/allocator/allocator.go:51-76 | in such a state what the handlers rely on implies what the placement rests on, the presence of operators included |
| `Dispatch.StepKeepsHomes` | pkg/controller/allocationswatcher/allocationswatcher.go:292-317 | each event keeps the homes listed: only an allocation that is to be moved names a node without an operator |
| `Dispatch.BuildNodes` | pkg/controller/persistentips/allocator.go:113-189 | a build names only nodes with operators when its picks and the held entries it goes on with do, and one for every address on a host when it reports no error |
| `Dispatch.MoveNodes` | pkg/controller/persistentips/allocator.go:206-249 | and so does a move, whatever the entries named before |
| `PlacementHeals.HealedPlacement` | pkg/controller/allocationswatcher/allocationswatcher.go:319-347 | from any nodes whatever, once every ready node was cleaned up as a clean arrival and every allocation was ensured with its nodes listed and reachable, the placement holds and every allocation is in success |
| `PlacementHeals.CleaningSettles` | pkg/controller/allocationswatcher/allocationswatcher.go:319-347 | after the cleanups, ready nodes that were cleaned have declared addresses only on the interfaces of their pools |
| `Placement.EnsurePlacesIff` | pkg/controller/operatorSpeaker/speaker.go:32-91 | when ensuring all entries ends without error, an address is on its node and in no other place on a ready node if and only if, before, its node was in the operator list and every ready node that had the address had it on the interface of the pool and was that node or reachable |
| `Placement.ReachableClears` | pkg/controller/operatorSpeaker/speaker.go:32-91 | while nodes have declared addresses only on the interfaces of their pools, it is enough that the node has an operator and no unreachable ready node has the address |
| `Placement.ReadyCleansIff` | pkg/controller/allocationswatcher/allocationswatcher.go:320-347 | the cleanup of a new node succeeds if and only if every entry that names the node carries an interface the node has (an entry of a cloud-only pool, with no interface, makes it fail) |
| `Placement.ReadyKeepsPlacementIff` | pkg/controller/allocationswatcher/allocationswatcher.go:320-347 | a node that comes back clean keeps the placement if and only if its cleanup succeeds, or all its operator had listed fits and what success allocations place there is listed and was there or is put back before the failure |
| `Placement.NodeLostKeepsPlacement` | pkg/controller/allocationswatcher/allocationswatcher.go:292-317 | losing a node keeps the placement: what named it is no longer in success state |
| `Placement.NodeDeletedKeepsPlacement` | pkg/controller/operator/daemonset.go:161-169 | so does the deletion of its pod, after which the node has no operator |
| `Placement.ReadyNode` | pkg/controller/allocationswatcher/allocationswatcher.go:320-347 | after the cleanup the node has, of the declared addresses, exactly those of the entries that name it |
| `Relocation.EnsuredStatusIs` | pkg/controller/allocator/allocator.go:34-91 | the status an allocation ends in: success iff no entry is at fault, to be moved iff the first fault is an operator that cannot take the address, error iff it is a missing pool or a cloud failure |
| `Relocation.EnsureErrorIs` | pkg/controller/allocator/allocator.go:51-76 | the loop ends with the fault of the first entry at fault, judged by the nodes as they were before the loop |
| `Relocation.MoveMeaning` | pkg/controller/persistentips/allocator.go:206-273 | a move without error puts every entry on the node picked for it, with the interface of its pool, and keeps address, pool and cloud provider; it has no error when all pools are declared and all picks succeed |
| `Relocation.MoveThenEnsureRecovers` | pkg/controller/allocationswatcher/allocationswatcher.go:441-486 | an allocation on a lost node, moved to ready nodes and ensured while calls succeed, ends in success with every address on the node picked and on no other ready node |
| `Relocation.DeallocationLeavesNodes` | pkg/controller/persistentips/allocator.go:389-407 | deallocating takes each address off the node and interface its entry names when that operator is reachable |
| `Relocation.ReconcileLeavesNodes` | pkg/controller/allocationReconciler/reconciler.go:68-74 | the clean-up of a reconciled success allocation takes each removed address off the node, on the interface its pool names now |
| `Handlers.HandleAll` | pkg/controller/allocationswatcher/allocationswatcher.go:122-164 | the handlers run on the heap reach the state of the abstract run; the ledger and the placement therefore hold of the controller fields and the pool objects edited in place |
| `Handlers.HandleEvent` | pkg/controller/allocationswatcher/allocationswatcher.go:122-164 | each handler does to pools, allocations, deletions and nodes exactly its step of the state machine |
| `PoolLife.HistoryKeepsLedger` | pkg/controller/allocationswatcher/allocationswatcher.go:399-435 | the ledger and the one place of each address survive every history of events mixed with pools added, edited and removed under the stated conditions, deletions pending or not |
| `PoolPlacement.HistoryKeepsPlacement` | pkg/controller/allocationswatcher/allocationswatcher.go:399-435 | so does the placement, when edits leave addresses where they are and new pools find theirs nowhere else |
| `PoolPlacement.EditKeepsPlacementIff` | pkg/controller/allocationswatcher/allocationswatcher.go:399-426 | an edit to disjoint pools keeps the placement if and only if ready nodes have its addresses only on its new interface, the interface is the old one when entries remain, and so is the option when success allocations keep entries |
| `PoolPlacement.DeclareKeepsPlacementIff` | pkg/controller/persistentips/watcher.go:124-130 | a new pool keeps the placement if and only if no ready node has one of its addresses elsewhere than it wants them |
| `PoolPlacement.WithdrawKeepsPlacement` | pkg/controller/allocationswatcher/allocationswatcher.go:433-435 | removing a pool always keeps the placement |
| `PoolLife.EditKeepsLedgerIff` | pkg/controller/allocationswatcher/allocationswatcher.go:399-426 | an edit of a pool keeps the ledger if and only if the pools are still disjoint, the holders are still allowed, none of its old addresses awaits release, and it declares an address nobody owns or offered none before |
| `PoolLife.WithdrawKeepsLedgerIff` | pkg/controller/allocationswatcher/allocationswatcher.go:433-435 | removing a pool keeps the ledger if and only if each of its addresses was in an allocation |
| `PoolLife.WithdrawnStillHandedOut` | pkg/controller/persistentips/watcher.go:136-138 | after a removal an address of the removed pool can still be taken, under the name of a pool nobody declares, if and only if it was free and the namespace was allowed |
| `PoolLife.DeclareKeepsLedger` | pkg/controller/persistentips/watcher.go:124-130 | a new pool that shares nothing with the others keeps the ledger and offers all it declares |
| `Effects.ReconciledEffect` | pkg/controller/allocationReconciler/reconciler.go:58-86 | a wanted persistent allocation is patched: no other object changes and none is deleted; nodes change for a success allocation only, and there exactly the addresses it gave up leave the interface of their pool on the nodes that can be reached |
| `Effects.UnwantedEffect` | pkg/controller/allocationReconciler/reconciler.go:31-50 | when the service is no load balancer, or its addresses ask for the other type, the object leaves the store, its deletion is the last to be handled, and nothing else changes |
| `Effects.PatchedEffect` | pkg/controller/persistentips/allocator.go:82-111 | the object after a patch: untouched when the update fails or when nothing changed and no request is at fault, pending when it changed and none is, and in error with the fault of the last request at fault otherwise; it lists what was granted, in request order |
| `Effects.PatchReports` | pkg/controller/persistentips/allocator.go:60-111 | the errors and the removed list a patch returns: the last fault, the failed write, and the entries given up in the order they had, of an update that did not fail |
| `Effects.PatchedOffers` | pkg/controller/persistentips/allocator.go:60-111 | after a reconciliation the pools offer what they did, less what it obtained and with what it gave up, whether or not the update succeeded |
| `Effects.ReleasedTwice` | pkg/controller/allocationReconciler/reconciler.go:68-74 | whatever the availability was, only a success allocation has what it gave up released a second time |
| `Effects.BuildErrorIs` | pkg/controller/persistentips/allocator.go:146-189 | for distinct requests the error of a build is the fault of the last request that has one: no address to be had, or no node found where one is needed |
| `Effects.AssignedEntry` | pkg/controller/persistentips/allocator.go:113-144 | where a node choice leaves an entry: on a host the interface of the pool, the node it had when that was right and the one picked otherwise; on the cloud a node only when it had none; it fails exactly when a node is needed and none was picked |
| `Effects.CreatedEffect` | pkg/controller/persistentips/allocator.go:36-55 | a created object lists what was granted, pending when no request is at fault and in error with the last fault otherwise; no other object changes |
| `Effects.NotCreatedEffect` | pkg/controller/persistentips/allocator.go:191-201 | nothing is stored for a service that asks for nothing, for an object that is there, or when the write fails, and every pool then offers what it did |
| `Effects.DeletionHandledEffect` | pkg/controller/allocationswatcher/allocationswatcher.go:266-289 | exactly this deletion is done with; exactly the spots its entries name are cleared on the nodes that can be reached; the objects are as they were unless the service asks for a new one, and its addresses are free again |
| `Effects.DeletedAddressIsOff` | pkg/controller/allocationswatcher/allocationswatcher.go:273-276 | each address of a deleted allocation that names an interface is off its node when that can be reached |
| `Effects.RecreatedEffect` | pkg/controller/allocationswatcher/allocationswatcher.go:277-288 | the object created after a deletion is the one a creation stores once the old addresses are free |
| `Effects.RemoveEntriesTakesOff` | pkg/controller/persistentips/allocator.go:389-407 | deallocating entries clears, in the table and in the list, exactly the spots they name on reachable nodes |
| `Effects.DeallocateRemovedTakesOff` | pkg/controller/allocationReconciler/reconciler.go:68-74 | the clean-up clears exactly the spots of the removed entries on the interface their pools name now |
| `Effects.DeallocationFailsIff` | pkg/controller/persistentips/allocator.go:335-363 | one deallocation reports a missing pool, else an operator that is missing, unreachable or without the interface, else a refusal of the cloud, and else no error |
| `Effects.RemovedEffect` | pkg/controller/ipallocations/manager.go:249-257 | a removed object leaves the store and its deletion waits behind the others; nothing else changes |
| `Effects.NodeChangedEffect` | pkg/controller/persistentips/allocator.go:206-273 | an allocation that is to be moved ends pending iff all its pools are declared and every node needed was found, and else in error with a missing pool before a missing node; entries before the first missing pool are relocated, the rest stays; any other allocation is left alone |
| `Effects.MovedEntry` | pkg/controller/persistentips/allocator.go:210-246 | every entry before the first whose pool is gone goes to the node picked and to the interface of its pool, every other one stays |
| `Effects.MoveErrorIs` | pkg/controller/persistentips/allocator.go:210-249 | with all pools declared, a move reports a missing node exactly when one was needed and none found |
| `Effects.OrphanEffect` | pkg/controller/allocator/allocator.go:34-43 | an allocation whose service is not found or is no load balancer leaves the store, its deletion is the last to be handled, and nothing else changes |
| `Effects.EnsuredEffect` | pkg/controller/allocator/allocator.go:51-91 | an ensured allocation keeps its entries and only its status changes; the offers lose exactly the addresses tried, and each address that was tried and taken is in its place and no other exactly when that could be cleared, while one that was not tried is where it was |
| `Effects.LostEffect` | pkg/controller/allocationswatcher/allocationswatcher.go:292-317 | losing a node: exactly the allocations with an entry that names it become node_error and all others are identical; exactly that node is no longer ready |
| `Effects.PodDeletedEffect` | pkg/controller/operator/daemonset.go:161-169 | deleting the pod of a node: the same of the allocations, and exactly that node leaves the list, the others in their order |
| `Effects.ReadyEffect` | pkg/controller/allocationswatcher/allocationswatcher.go:320-347 | a new operator changes its node and nothing else |
| `Effects.LossEffect` | pkg/operator/observer/observer.go:127-167 | after addresses vanish from a node, what was listed on interfaces the node has is there again with its label, what was not lost is as it was, the rest is gone |
| `Availability.UseTakesOne` | pkg/controller/persistentips/poolsManager.go:99-121 | an address is handed out iff it is free and a declared pool open to the namespace has it; then it alone leaves the free set, and the answer names its declared pool |
| `Availability.UsedRecord` | pkg/controller/persistentips/poolsManager.go:99-121 | the record handed out lists what its pool still offers, and is in the list unless that is nothing |
| `Availability.ReleaseGivesBack` | pkg/controller/persistentips/poolsManager.go:298-328 | a release under the name of the declaring pool adds exactly that address to the free set |
| `Availability.UseThenRelease` | pkg/controller/persistentips/poolsManager.go:99-135 | use then release leaves every pool offering what it did, also after its last address; a second release changes nothing |
| `Availability.SecondReleaseIffNameMatches` | pkg/controller/persistentips/poolsManager.go:298-328 | on any list, releasing twice is releasing once if and only if the first release did not rebuild an entry under another name |
| `Availability.ReleaseWellFormedIff` | pkg/controller/persistentips/poolsManager.go:298-328 | a release keeps the list well formed if and only if it does not rebuild an entry of a pool that has one |
| `Availability.EditsKeepWellFormed` | pkg/controller/persistentips/poolsManager.go:62-211 | use, ensure, replace, recompute and a release with the matching name keep any list free of empty entries and repeated names |
| `Availability.TakeKeepsOthers` | pkg/controller/persistentips/poolsManager.go:123-135 | taking an address leaves the multiset of the other entries as it was |
| `Availability.SwapRemoveMultiset` | pkg/controller/persistentips/poolsManager.go:69-90 | swap removal takes out exactly one occurrence |
| `Availability.RemoveEntryElements` | pkg/controller/persistentips/poolsManager.go:69-90 | removing by name deletes exactly the entry of that name and no other |
| `Availability.EnsureTakesOut` | pkg/controller/persistentips/poolsManager.go:276-295 | afterwards the address is not available and nothing else is lost; nothing changes when it was not |
| `Availability.RecomputeOffers` | pkg/controller/persistentips/poolsManager.go:162-211 | a recompute is exact when an address is left, and has no effect at all when none is |
| `Availability.OffersPerPool` | pkg/controller/persistentips/poolsManager.go:42-135 | an agreeing list offers, under the name of a pool, exactly the free addresses that pool declares |
| `Availability.EntryIffFree` | pkg/controller/persistentips/poolsManager.go:137-144 | a pool has an entry iff one of its addresses is free |
| `Availability.WarmupOffers` | pkg/controller/persistentips/watcher.go:50-70 | what start-up offers, pool by pool: the unallocated addresses, or the whole pool when none is unallocated |
| `Availability.WarmupExactIff` | pkg/controller/persistentips/watcher.go:50-70 | start-up computes declared minus allocated if and only if no pool that declares addresses is fully allocated |
| `Availability.EnsureAllHeals` | pkg/controller/allocator/allocator.go:51-76 | from any well-formed list, ensuring entries takes out of each pool exactly the addresses they name there |
| `Availability.WarmupThenEnsureIsExact` | pkg/controller/allocator/allocator.go:51-76 | start-up followed by ensuring all entries is exact |
| `PoolsManager.Manager.UseIP` | pkg/controller/persistentips/poolsManager.go:99-121 | the list edited in place is the one the specification describes; the record handed out is the edited one; no new record appears |
| `PoolsManager.Manager.RemoveIPFromPool` | pkg/controller/persistentips/poolsManager.go:123-135 | the record loses every occurrence of the address, and leaves the list when it was the last |
| `PoolsManager.Manager.RemoveAvailablePool` | pkg/controller/persistentips/poolsManager.go:69-90 | swap removal in place of the entry with that name |
| `PoolsManager.Manager.ReleaseIP` | pkg/controller/persistentips/poolsManager.go:298-328 | the address is appended to the entry, or an entry is rebuilt from the store, or nothing happens, as specified |
| `PoolsManager.Manager.EnsureAddressIsNotAvailable` | pkg/controller/persistentips/poolsManager.go:276-295 | the entry of the named pool loses the address |
| `PoolsManager.Manager.AddOrReplaceAvailabilityPool` | pkg/controller/persistentips/poolsManager.go:197-211 | an entry is overwritten in place or appended; a pool without addresses changes nothing |
| `PoolsManager.Manager.ProcessIPAvailability` | pkg/controller/persistentips/poolsManager.go:162-195 | the pool is recomputed as declared minus allocated |
| `PoolsManager.Manager.CollectFree` | pkg/controller/persistentips/poolsManager.go:162-177 | the declared addresses no allocation has, in order |
| `PoolsManager.Manager.CheckIfIPIsAllocated` | pkg/controller/persistentips/poolsManager.go:229-238 | true iff some entry of some allocation has the address |
| `PoolsManager.Manager.GetPoolOfAddress` | pkg/controller/persistentips/poolsManager.go:241-259 | the first declared pool open to the namespace that has the address |
| `PoolsManager.Manager.GetAvailabilityPoolOfAddress` | pkg/controller/persistentips/poolsManager.go:261-273 | the first entry open to the namespace that offers the address |
| `PoolsManager.Manager.SearchAvailabilityPoolByName` | pkg/controller/persistentips/poolsManager.go:137-144 | the first entry of that name |
| `PoolsManager.Manager.SearchPoolByName` | pkg/controller/persistentips/poolsManager.go:147-159 | the first declared pool of that name |
| `PoolsManager.Manager.RecreatePoolAvailability` | pkg/controller/persistentips/poolsManager.go:62-66 | an entry with the options of the pool and the given addresses is appended |
| `PoolsManager.Manager.WarmupIPAvailability` | pkg/controller/persistentips/watcher.go:50-70 | the start-up loop over the store on the heap |
| `PoolsManager.Manager.WarmupPool` | pkg/controller/persistentips/watcher.go:66-67 | a pool is added whole, then recomputed |
| `Types.Contains` | pkg/controller/utils/utils.go:46-53 | membership, for strings and for addresses on interfaces |
| `Allocations.BuildMeaning` | pkg/controller/persistentips/allocator.go:146-189 | a build takes from the availability exactly the requested addresses that are not held, free and open to the namespace, and allocates exactly these and the held ones |
| `Allocations.BuildOrder` | pkg/controller/persistentips/allocator.go:146-189 | for distinct requests the new spec lists, in request order, the addresses held and those obtained |
| `Allocations.BuildErrors` | pkg/controller/persistentips/allocator.go:146-189 | no error means every request was granted; if all can be granted and every node choice succeeds there is no error |
| `Allocations.BuildListsAll` | pkg/controller/persistentips/allocator.go:146-189 | a build without error lists all the requests in their order |
| `Allocations.HeldKeptIff` | pkg/controller/persistentips/allocator.go:160-166 | in any state, a requested address that was held stays in the spec if and only if a declared pool still serves it to the namespace |
| `Allocations.HeldGoSilently` | pkg/controller/persistentips/allocator.go:160-166 | a build of held addresses reports no error while node choices succeed, whatever pools are declared, and takes nothing |
| `Allocations.PatchMeaning` | pkg/controller/persistentips/allocator.go:60-111 | the removed list is exactly old minus new; the availability loses the obtained and gains the removed addresses; when the update fails the object stays but the availability has changed |
| `Allocations.CreateRollsBack` | pkg/controller/persistentips/allocator.go:191-201 | when creating the object fails, every pool offers exactly what it did |
| `Allocations.ReleaseEntriesMeaning` | pkg/controller/persistentips/allocator.go:74-80 | releasing backed entries makes exactly their addresses free |
| `Allocations.ReleaseFreeEntries` | pkg/controller/allocationReconciler/reconciler.go:68-74 | releasing what is already free changes the list not at all |
| `Allocations.MoveKeepsAddresses` | pkg/controller/persistentips/allocator.go:206-249 | changing nodes changes neither addresses nor pools |
| `PatchFixpoint.AssignAgainIff` | pkg/controller/persistentips/allocator.go:113-144 | assigning a node to an entry again, whatever node is drawn, changes nothing and does not fail if and only if the pool does not ask for a nameless interface and the entry got a node now or had one |
| `PatchFixpoint.PatchAgain` | pkg/controller/persistentips/allocator.go:60-144 | after a patch without allocation error, patching again with the same addresses changes neither the object nor the availability and writes nothing, whatever nodes are drawn, if and only if no requested address is in a pool with an empty interface name |
| `PatchFixpoint.PatchSettled` | pkg/controller/persistentips/allocator.go:113-144 | an object whose entries all have node, interface and provider is left alone for every draw |
| `PatchFixpoint.PatchUnsettled` | pkg/controller/persistentips/allocator.go:113-144 | an entry that still needs a node makes a second patch report an error when no node is found |
| `ControllerSteps.ContainsAddress` | pkg/controller/utils/allocations.go:20 | the first entry with the address |
| `ControllerSteps.Controller.BuildAllocations` | pkg/controller/persistentips/allocator.go:146-189 | the loop builds the specified entries, error and availability; an unknown pool of a held address drops the entry and loses the error |
| `ControllerSteps.Controller.ReleaseDropped` | pkg/controller/persistentips/allocator.go:73-80 | releases and lists exactly the old entries missing from the new spec |
| `ControllerSteps.Controller.CheckAndPatchAllocation` | pkg/controller/persistentips/allocator.go:60-111 | object, availability, removed list and both errors are the specified ones |
| `ControllerSteps.Controller.EnsurePersistentAllocation` | pkg/controller/persistentips/allocator.go:36-55 | an existing object is left alone; otherwise it is created with its status, or rolled back |
| `ControllerSteps.Controller.ReleaseAll` | pkg/controller/persistentips/allocator.go:195-197 | the rollback loop |
| `ControllerSteps.Controller.ChangeEntries` | pkg/controller/persistentips/allocator.go:210-249 | moves entry by entry and stops at the first whose pool is gone |
| `ControllerSteps.Controller.ProcessAllocationNodeError` | pkg/controller/allocationswatcher/allocationswatcher.go:441-463 | only an object still in node_error is moved; it ends pending or in error |
| `ControllerSteps.Controller.EnsureIPAllocationOnNode` | pkg/controller/operatorSpeaker/speaker.go:32-91 | adds on the target, removes from every other ready node, stops at the target only |
| `ControllerSteps.Controller.RemoveAddressFromNode` | pkg/controller/operatorSpeaker/speaker.go:94-121 | removes on the named node or reports it unreachable |
| `ControllerSteps.Controller.CleanupNode` | pkg/controller/operatorSpeaker/speaker.go:124-153 | cleans the named node up to the keep list or reports it unreachable |
| `ControllerSteps.Controller.SearchOperatorByClusterNodeName` | pkg/controller/operator/operatorslist.go:53 | the first operator on that node |
| `ControllerSteps.Controller.AllocateOne` | pkg/controller/persistentips/allocator.go:302-330 | host first, then cloud, with the error of the one that fails |
| `ControllerSteps.Controller.DeallocateOne` | pkg/controller/persistentips/allocator.go:335-363 | off the node when the pool puts addresses on an interface, then off the cloud, with the error of the one that fails |
| `ControllerSteps.Controller.DeallocateAllocation` | pkg/controller/persistentips/allocator.go:389-407 | every entry with an interface leaves its node, and every entry is released |
| `ControllerSteps.Controller.CreateAllocationForService` | pkg/controller/allocationReconciler/reconciler.go:127-143 | creates the persistent object of a service with external addresses |
| `ControllerSteps.Controller.DeleteAllocationByName` | pkg/controller/ipallocations/manager.go:249-257 | the object leaves the store and its deletion is to be delivered |
| `ControllerSteps.Controller.ReconcileAllocation` | pkg/controller/allocationReconciler/reconciler.go:31-86 | deletes the object of a service that is no load balancer or changed type, otherwise patches it |
| `ControllerSteps.Controller.ReleaseAndDeallocate` | pkg/controller/allocationReconciler/reconciler.go:68-74 | the removed entries are released again and taken off their nodes |
| `ControllerSteps.Controller.EnsureAddresses` | pkg/controller/allocator/allocator.go:51-76 | takes addresses out of the availability and places them until the first error |
| `ControllerSteps.Controller.EnsureIPAllocation` | pkg/controller/allocator/allocator.go:34-91 | the state and the status after the loop; when no service comes back from the lookup, whatever its error, or it is no load balancer, the allocation is deleted |
| `ControllerSteps.Controller.AllocationDeleted` | pkg/controller/allocationswatcher/allocationswatcher.go:266-289 | releases, then recreates when the service still asks for it |
| `ControllerSteps.Controller.OperatorNodeLost` | pkg/controller/allocationswatcher/allocationswatcher.go:292-317 | exactly the allocations that name the node become node_error |
| `ControllerSteps.Controller.OperatorNodeDeleted` | pkg/controller/operator/daemonset.go:161-169 | the same, and the pod leaves the operator list |
| `ControllerSteps.Controller.MarkLost` | pkg/controller/allocationswatcher/allocationswatcher.go:294-316 | the loop over the store |
| `ControllerSteps.Controller.NewOperatorNode` | pkg/controller/allocationswatcher/allocationswatcher.go:320-347 | the node is cleaned up to the addresses of all entries that name it |
| `ControllerSteps.Controller.AddressesToKeep` | pkg/controller/allocationswatcher/allocationswatcher.go:322-344 | those addresses, in store order |
| `Cluster.KeepList` | pkg/controller/allocationswatcher/allocationswatcher.go:322-344 | the keep list has exactly the slots of the entries that name the node |
| `PoolEdit.EditedEntries` | pkg/controller/allocationswatcher/allocationswatcher.go:399-426 | an edited or removed pool leaves no disowned entry, keeps the other entries in order and unchanged when addresses are distinct, marks exactly the allocations that had a disowned entry and leaves every other identical |
| `PoolEdit.StripMeaning` | pkg/controller/allocationswatcher/allocationswatcher.go:411-422 | the loop over the entries the object had at first, while the object shrinks, leaves exactly the entries whose address it did not find to be gone |
| `PoolEdit.EditedAvailabilityIff` | pkg/controller/allocationswatcher/allocationswatcher.go:399-426 | other pools offer what they did; the edited one offers what it declares and no allocation had, if and only if that is something or it offered nothing |
| `PoolEdit.RemoveAddressFromAllocation` | pkg/controller/ipallocations/manager.go:220-246 | all entries with the address go; the status changes only when there was one |
| `PoolEdit.StripAllocation` | pkg/controller/allocationswatcher/allocationswatcher.go:411-422 | the inner loop of both handlers |
| `PoolEdit.PersistentPoolModified` | pkg/controller/allocationswatcher/allocationswatcher.go:399-426 | all allocations are edited, then the pool is recomputed |
| `PoolEdit.PersistentPoolRemoved` | pkg/controller/allocationswatcher/allocationswatcher.go:349-372 | all allocations lose the addresses of the pool; the availability is not touched |
| `OperatorNode.UpdateRestoresAll` | pkg/operator/observer/observer.go:127-167 | after any regular run of calls and losses one update puts every wanted address back and changes nothing else; labelled addresses are then exactly the wanted ones nobody else had put there |
| `OperatorNode.CallsAgree` | pkg/operator/observer/observer.go:51-107 | after any regular run the assigned list is free of duplicates and is exactly the set the calls ask for, and nothing labelled is missing from it |
| `OperatorNode.CleanupMeaning` | pkg/operator/network/network.go:32-60 | a cleanup succeeds iff every kept address can be added; then the list is the keep list, all of it present, nothing else labelled, and the unlabelled untouched |
| `OperatorNode.RestoreMeaning` | pkg/operator/observer/observer.go:93-104 | adding the kept addresses one by one, stopping at the first failure, only adds labelled ones |
| `Observer.AddressObserver.AddAddress` | pkg/operator/observer/observer.go:51-63 | table and list as specified, the list only when the kernel call succeeded |
| `Observer.AddressObserver.RemoveAddress` | pkg/operator/observer/observer.go:66-84 | table and list as specified |
| `Observer.AddressObserver.CleanupAddresses` | pkg/operator/observer/observer.go:87-107 | sweeps, restores, and replaces the list only when all was restored |
| `Observer.AddressObserver.ProcessAddressUpdate` | pkg/operator/observer/observer.go:127-167 | every listed address that is missing is added again |
| `Observer.AddressObserver.NetworkAdd` | pkg/operator/network/network.go:96-116 | adds with the label of the interface; an address that is there is no error |
| `Observer.AddressObserver.NetworkDelete` | pkg/operator/network/network.go:67-93 | deletes the address on the interface; an absent one is no error |
| `Observer.AddressObserver.NetworkCleanup` | pkg/operator/network/network.go:32-60 | deletes on every link the labelled addresses that are not kept |
| `Observer.AddressObserver.SweepLink` | pkg/operator/network/network.go:40-57 | one link of that sweep |
| `Observer.AddressObserver.IsAddressOnInterface` | pkg/operator/network/network.go:128-148 | present on that interface, or an error when there is no such interface |
| `Speaker.EnsureExclusiveIff` | pkg/controller/operatorSpeaker/speaker.go:32-91 | a call without error leaves the address on the target and in no other place on a ready node, on whatever interface, if and only if the target is in the list and every ready node that had the address had it on this interface and is the target or reachable |
| `Speaker.EnsureFailsIff` | pkg/controller/operatorSpeaker/speaker.go:32-91 | the call fails if and only if an operator on the target is not ready, not reachable or without the interface |
| `Speaker.EnsureStopsThere` | pkg/controller/operatorSpeaker/speaker.go:32-91 | a call that fails at an operator on the target has given those before it in the list their turn and left this one and all after it as they were |
| `Speaker.EnsureMeaning` | pkg/controller/operatorSpeaker/speaker.go:32-91 | what the loop does to each node: nothing at other addresses, added on the target, removed from the reachable ready rest |
| `Speaker.RemoveFromNodeMeaning` | pkg/controller/operatorSpeaker/speaker.go:94-121 | a removal takes the slot off the first operator on the node and changes nothing else; it fails, changing nothing, if and only if there is none, it is unreachable or lacks the interface |
| `Backoff.DurationsGrow` | pkg/controller/utils/utils.go:119-142 | sleeps before jitter never get shorter and never exceed the cap |
| `Backoff.ExponentialBackoffWithForeverCap` | pkg/controller/utils/utils.go:154-167 | the condition runs until the first answer or `Steps` times, with one sleep between runs, each the duration of its turn plus jitter; reaching the cap does not stop it |
| `Backoff.OnErrorForever` | pkg/controller/utils/utils.go:184-202 | the error is that of the last attempt, the first that succeeds or cannot be retried, or number `Steps` |
| `Backoff.ForeverBackoff.Step` | pkg/controller/utils/utils.go:119-142 | returns the present duration plus jitter and advances steps and duration |
| `Backoff.ErrorBackoffLastsTwoDays` | pkg/controller/utils/utils.go:204-212 | an allocation in error is retried for 1.8 to 2.2 days, whatever the jitter |
| `Backoff.DurationIs` | pkg/controller/utils/utils.go:119-142 | each sleep before jitter is the one before times the factor, rounded down, up to the cap |
| `Backoff.CapReached` | pkg/controller/utils/utils.go:204-212 | the cap is reached after sleep 28 and by sleep 32 |
| `Backoff.ErrorDurations` | pkg/controller/utils/utils.go:204-212 | bounds on the 551 sleeps before jitter |
| `Backoff.JitterBounds` | pkg/controller/utils/utils.go:138-140 | jitter adds at most a fifth to the total |
| `ErrorProcessing.ProcessAllocationStatusError` | pkg/controller/allocationswatcher/allocationswatcher.go:166-223 | an allocation being retried is skipped; otherwise every way out leaves the list as it was, after at most 552 attempts, recovered iff the last attempt found it out of error |
| `ErrorProcessing.PlayIsASet` | pkg/controller/allocationsLock/lock.go:98-147 | after any operations the list is a duplicate-free form of the set they describe |
| `ErrorProcessing.BracketLeavesNoTrace` | pkg/controller/allocationswatcher/allocationswatcher.go:166-223 | whatever other handlers do in between, adding and removing an allocation leaves the set as without it |
| `ErrorProcessing.RemovedMeaning` | pkg/controller/allocationsLock/lock.go:131-147 | swap removal takes out exactly the named allocation |
| `ErrorProcessing.AddThenRemove` | pkg/controller/allocationsLock/lock.go:119-147 | add then remove gives back the same list |
| `ErrorProcessing.ListKeyInjective` | pkg/controller/allocationsLock/lock.go:119-128 | two allocations never share a list key |
| `ErrorProcessing.ProcessingList.AddToProcessingList` | pkg/controller/allocationsLock/lock.go:119-128 | appended once |
| `ErrorProcessing.ProcessingList.RemoveFromProcessingList` | pkg/controller/allocationsLock/lock.go:131-147 | swap-removed in place |
| `ErrorProcessing.ProcessingList.IsAlreadyProcessing` | pkg/controller/allocationsLock/lock.go:102-116 | membership |
| `Failures.RestartOffersTaken` | pkg/controller/persistentips/watcher.go:50-70 | after one service took the only address of a pool, a restart offers it |
| `Failures.FailedUpdateLoses` | pkg/controller/persistentips/allocator.go:82-94 | a service changes to the other address and the update fails: the ledger is wrong |
| `Failures.EditOffersPending` | pkg/controller/allocationswatcher/allocationswatcher.go:399-426 | a pool is edited, even to what it was, while a deletion is pending: the ledger is wrong |
| `Failures.EditLeavesOldEntry` | pkg/controller/persistentips/poolsManager.go:197-211 | a pool gives up its only free address: it is still offered |
| `Failures.LateReleaseOffersTaken` | pkg/controller/allocationReconciler/reconciler.go:58-74 | a success allocation changes to another address; after the patch and before the clean-up that releases the old one a second time, a second service takes it: the clean-up offers what is taken |
| `Failures.MovedAddressDoublesEntry` | pkg/controller/persistentips/poolsManager.go:298-328 | an address moves to another pool while its deletion is pending: handling the deletion lists that pool twice |
| `Failures.RemovedPoolOffers` | pkg/controller/persistentips/watcher.go:136-138 | an untouched pool is removed: its address is still handed out |
| `PlacementFailures.NamelessMoves` | pkg/controller/persistentips/allocator.go:113-144 | a pool with an empty interface name and two operators: the second reconciliation moves the address to the node it draws |
| `PlacementFailures.MissingOperatorSucceeds` | pkg/controller/operatorSpeaker/speaker.go:32-91 | the pod of a node is deleted, and before its allocation is moved the service gives up one of two addresses: reconciled and ensured without any failure it ends in success, and the address it kept is nowhere |
| `PlacementFailures.UnreachableKeeps` | pkg/controller/operatorSpeaker/speaker.go:77-87 | an operator is ready and unreachable: its address is moved, and both ready nodes have it |
| `PlacementFailures.OtherInterfaceStays` | pkg/controller/persistentips/allocator.go:119-129 | a pool changes its interface: reconciled and ensured without any failure, the address is on two ready nodes |
| `PlacementFailures.CloudEntryStopsCleanup` | pkg/controller/allocationswatcher/allocationswatcher.go:320-347 | an entry of a cloud-only pool makes the cleanup of its node fail |

## Left out

Assumptions the model makes:

- Each handler is one atomic step; the availability lock is not held on every path and the allocation lock checks and stores in two operations, so mutual exclusion is not proved.
- The store equals the API server: stale caches and writes lost between the two are not modelled, nor the retry that follows a reconciliation that returns no object.
- Writing a status, and updating an object that is being moved or edited, succeeds; only creating an object and updating a patched one may fail.
- Random node choice is a parameter (`picks`, one per address, none when no ready node is found; drawing from an empty operator list, where the code panics, is not modelled); an event with another number of picks does nothing in the state machine, and the imperative handlers ask for one pick per address.
- A node has one operator pod, and the kernel has one entry per address on each interface; listing links and addresses does not fail.
- A call from the controller to a reachable ready operator meets no kernel error; the operators themselves are modelled with kernel errors.
- A refused delete during a sweep is only logged, as in the code, and the model of the sweep keeps such an address.
- Durations are integers and the factor 1.2 is 6/5; rounding of floating point is not modelled, and jitter is any extra up to a fifth.
- Copying objects is copying values; an absent and an empty list are the same.

Weaker than could be stated:

- PoolEdit.PersistentPoolModified: the addresses taken from allocations stay on their nodes until the next cleanup, as in the code, where no handler answers the status the edit leaves.
- PoolPlacement.EditKeepsPlacementIff: for edits to pools that still share no address, as for every result about placement.
- ControllerSteps.Controller.CreateAllocationForService: does nothing for a service without external addresses, because ephemeral allocations are not modelled.
- ControllerSteps.Controller.ReconcileAllocation: does nothing for an ephemeral allocation of the expected type, for the same reason.
- Placement.RunKeepsPlacement: the conditions on each event (distinct requests, targets with an operator, other ready nodes reachable or without the address, nodes that arrive clean) are assumed of the run; the presence of operators is derived in `Dispatch.DispatchedRunKeepsAll`, the others are not.
- Dispatch.DispatchedRunKeepsAll: that a reconciliation writes no allocation back onto a node it is to leave is assumed, because the code does not see to it.
- Speaker.EnsureExclusiveIff: speaks of ready nodes only; a node that is not ready keeps what it has until it is cleaned up.
- Backoff.ErrorBackoffLastsTwoDays: counts the sleeps, not the time the attempts take.
- ErrorProcessing.ProcessAllocationStatusError: what an attempt does to the allocation is the reconcile and ensure steps of the state machine; here it is only its answer.

Not modelled:

- Ephemeral allocations, buying and deleting addresses at the cloud: they depend on the cloud; the cloud is a success or failure result.
- gRPC dialing, netlink itself, health handlers, leader election, deployment of the operator daemonset and of the CRDs.
- Generated clients, informers, protobuf and deep-copy code, CRD schemas: no logic of their own.
- The service watcher and the ingress status of services.
- `UpdatePoolAvailability`: nothing in the controller calls it.
- The five second limit after which an operator that cannot finish a repair ends itself.

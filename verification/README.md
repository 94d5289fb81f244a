# Machine API controllers, verified

A Dafny model of the controllers of the Machine API: the Machine reconciler with its deletion, the patch
helper and the deep copy below it, the bootstrap data of a Config, the approval of node certificates, and
the tracker of external objects. What the code does in place is modelled in place, by classes and methods
that are proved against functions of values; the properties are proved of these functions over all inputs,
runs and interleavings.

| file | models |
|---|---|
| `Json.dfy` | JSON values and the merge patch of RFC 7386, section 2 |
| `MachineApi.dfy`, `MachineJson.dfy` | the Machine with its pointers and slices, its deep copy, its JSON |
| `PatchHelper.dfy`, `PatchLaws.dfy` | `util/patch`: snapshot, aliasing, the two writes and what they guarantee |
| `Reconciling.dfy`, `MachineReconciler.dfy` | a reconcile of a Machine as a function, and as it runs |
| `ReconcileLaws.dfy` | what a reconcile achieves, from the answers and the members of the external object's JSON |
| `Idempotence.dfy`, `MachineRuns.dfy`, `Fleet.dfy` | reconciling twice, runs of one Machine, interleavings of many |
| `Deleting.dfy`, `DeletionReconciler.dfy`, `ControlPlane.dfy` | deletion: order of effects, and the guard of the control plane |
| `Text.dfy` (used by others, too), `CloudInit.dfy`, `Quoting.dfy`, `LiteralBlock.dfy` | the cloud-config printer and readers of lines, quoted scalars and literal blocks |
| `Multipart.dfy` | the MIME wrapper and a reader of it |
| `BootstrapConfig.dfy`, `ConfigReconciler.dfy` | the bootstrap data end to end, and the controller that stores it |
| `CsrApproval.dfy`, `CsrApprover.dfy` | the approval of certificate signing requests |
| `ObjectTracker.dfy` | once-per-kind registration under concurrency |

The answers of API calls (found, refused, listed nodes and so on) are parameters, arbitrary unless a
lemma says otherwise. Assumptions:

- Reconciles of one object are serialised and read the object as stored; those of different objects
  interleave. A deletion reconcile is atomic where the control plane is concerned, as the code takes no lock.
- The resource endpoint of the API server keeps the stored status, the status endpoint keeps the rest.
- InfrastructureRef is set when a Machine with a node reference is deleted; the code dereferences it.
  The nil object handed to Delete when the infrastructure is not found is taken as "gone already", the
  no-op that the error filter intends.
- Whether an error of the node deletion is recognised as NotFound through its wrapping is decided by
  apimachinery; `Deleting.PollDoesNotMatter` covers both answers. The requeue time of a failed drain
  travels in the error that Reconcile returns.
- A conversion of typed objects to JSON is a parameter of the patch helper; `MachineApi.Encode` is the one
  of Machines. The version of a node is the printed form of what its kubelet reports.
- The guard's listing shows each stored Machine of the namespace once, with its labels; what it shows besides
  may be older or newer, such as the phase that the same reconcile has just written.
- Provider IDs being stable means what `Fleet.Stable` says: who shows a Machine's or node's provider ID
  shows the same one every time.
- `isPrint` stands for Go's table of printable characters; only that control characters are not in it is used.

Where the code differs from what one may expect, the model follows the code:

- A merge patch cannot introduce a null (`PatchLaws.TypedPatchReachesAfter`), and the helper never writes the
  status of an unstructured object (`PatchLaws.UnstructuredKeepsStatus`), although patching it is what its comment promises.
- A Machine without a node reference loses its finalizer without its infrastructure being deleted
  (`Deleting.FinalizerRemovedExactlyWhen`).
- The guard counts Machines, not nodes (`ControlPlane.GuardCountsNodesExactlyWhen`,
  `ControlPlane.NodelessMachineStillCounts`).
- Data that starts with the boundary line is not read back by the grammar of RFC 2046, besides data that
  contains the delimiter (`Multipart.MessageReadsBackExactlyWhen`); a cloud-config never starts so.
- Three early returns of the CSR validation count as success (`CsrApproval.ApprovedIsCheckedExactlyWhen`).
- After a failed watch the tracker deletes another key than it stored (`ObjectTracker.LaterCallSeesNoWatch`,
  `ObjectTracker.LoneSuccessMeansWatchedExactlyWhen`).
- Addresses of which only some decode are written as far as they do, although an error is returned, and elements
  that were there before keep what the JSON does not give (`MachineReconciler.UnmarshalInto`).

`dafny verify dfyconfig.toml` checks everything.

## Model

| member | source | states |
|---|---|---|
| `MachineApi.CopySlice` | api/v1alpha1/zz_generated.deepcopy.go:411-415 | a slice is copied into a new array with the same elements; nil stays nil |
| `MachineApi.MachineSpec.DeepCopyInto` | api/v1alpha1/zz_generated.deepcopy.go:354-372 | the specification copied into has the same value, and every pointer in it leads to a new target |
| `MachineApi.MachineStatus.DeepCopyInto` | api/v1alpha1/zz_generated.deepcopy.go:385-416 | the status copied into has the same value; its pointers and its address slice lead to new targets, field by field |
| `MachineApi.Machine.DeepCopy` | api/v1alpha1/zz_generated.deepcopy.go:261-277 | the copy has the same value and shares neither struct, pointer target nor address array with anything that existed before |
| `Json.DiffThenMerge` | util/patch/patch.go:70-77 | the merge patch computed from `a` to `b`, applied to `a` (RFC 7386, section 2), gives `b` if and only if `b` introduces no null member at any depth; without that condition it fails |
| `Json.MergeIntoNothing` | util/patch/patch.go:70-77 | a patch applied to a missing or non-object member creates exactly its own value if and only if the value holds no null |
| `Json.MergedMembers` | util/patch/patch.go:70-77 | member by member, the merge of RFC 7386, section 2: a null deletes, another member of the patch is merged, the rest is kept |
| `Json.DiffEmpty` | util/patch/patch.go:113-128 | the computed patch is empty if and only if nothing changed, and no patch nested in it, at any depth, is empty |
| `Json.DisjointCommute` | util/patch/patch.go:113-128 | two patches that meet at no leaf can be applied in either order to any target with the same result |
| `Json.MergeFrame` | util/patch/patch.go:113-128 | a path that a patch does not mention keeps whatever value the target has there |
| `PatchHelper.ToUnstructured` | util/patch/patch.go:52-55 | converting a typed object gives a new map, converting an unstructured one gives the object's own map |
| `PatchHelper.SplitStatus` | util/patch/patch.go:93-111 | the map loses its status; for an unstructured object this removes the status from the very object the patches are built from, for a typed object it does not |
| `PatchHelper.Convert` | util/patch/patch.go:44-68 | the caller's object is left as it was: an unstructured one is copied before its status is removed |
| `PatchHelper.JsonMap.SetOwnerReferences` | controllers/machine/helpers.go:62-65 | the list is written into the nested metadata map in place, or into a new one if there is none, and nothing else changes |
| `PatchHelper.NewHelper` | util/patch/patch.go:39-78 | the helper holds a snapshot of the object's JSON in which every struct, pointer target, array and map is new; the object itself is not changed |
| `PatchHelper.SnapshotIsolated` | util/patch/patch.go:70-77 | after NewHelper any writes to any objects that existed before it, pointer targets, address array and nested metadata of the resource included, leave the snapshot as it was |
| `PatchHelper.WriteBeside` | util/patch/patch.go:70-77 | a snapshot holds on under any writes to objects that it is not made of |
| `PatchHelper.Compare` | util/patch/patch.go:93-122 | from the snapshot and the object as it is now: whether resource and status differ, and the two patch bodies |
| `PatchHelper.StoredObject.Patch` | util/patch/patch.go:115-120 | the resource endpoint applies the patch and keeps the stored status; a refused write changes nothing but is recorded as issued |
| `PatchHelper.StoredObject.PatchStatus` | util/patch/patch.go:122-128 | the status endpoint applies the patch to the status only |
| `PatchHelper.Patch` | util/patch/patch.go:81-131 | at most one write to each endpoint, each issued exactly when its half differs from the snapshot, both attempted when the first fails, failures counted; the stored object is the specified combination of the accepted writes |
| `PatchLaws.HalvesCompose` | util/patch/patch.go:113-128 | the two endpoints, each ignoring the other's half, together apply the whole merge patch to whatever is stored |
| `PatchLaws.WritesExactlyWhen` | util/patch/patch.go:113-130 | which writes are issued, in which order and with which patch, and how many of them count as failed |
| `PatchLaws.TypedPatchReachesAfter` | util/patch/patch.go:93-130 | an error-free patch of a typed object takes the stored object from before to after in resource and status if and only if after introduces no null and does not drop a status that was null |
| `PatchLaws.FailedWriteLeavesItsHalf` | util/patch/patch.go:113-130 | when one of the two writes fails exactly its half of the stored object is old, when both fail all of it |
| `PatchLaws.SkippedResourceWrite` | util/patch/patch.go:115-120 | the resource write that the helper saves would have changed nothing, whatever is stored |
| `PatchLaws.SkippedStatusWrite` | util/patch/patch.go:122-128 | the status write that it saves would have changed nothing if and only if the status is present before and after or absent before and after, or none is stored; else one side is null and the null would have deleted the stored status |
| `PatchLaws.UnstructuredKeepsStatus` | util/patch/patch.go:107-111 | through the helper the stored status of an unstructured object never changes, whatever its caller did to the status |
| `PatchLaws.UnstructuredResourceHalf` | util/patch/patch.go:86-120 | apart from the status an unstructured object is patched like a typed one |
| `PatchLaws.UnstructuredPatchReachesAfter` | util/patch/patch.go:86-130 | an error-free patch of an unstructured object reaches after if and only if its caller left the status alone and introduced no null elsewhere |
| `PatchLaws.PatchedIsMerged` | util/patch/patch.go:113-130 | also over an object that others changed meanwhile, an error-free typed patch applies the whole computed patch |
| `PatchLaws.DisjointWritersBothSurvive` | util/patch/patch.go:113-130 | when another client's patch to the same object meets the computed one nowhere, both sets of changes survive |
| `PatchLaws.UntouchedPathKeepsStored` | util/patch/patch.go:113-130 | for typed and unstructured objects every path outside the computed patch keeps what is stored at the time of the writes, whichever of them are refused |
| `PatchLaws.OwnerReferenceWrite` | controllers/machine/helpers.go:56-70 | the write to the external object replaces owner references and nothing else, so a status or any other field its provider wrote meanwhile survives; without a change nothing is written |
| `MachineJson.MetaNullsKept` | controllers/machine/controller.go:116-128 | the one null in a Machine's JSON, an unset creation time, is never introduced by a patch |
| `MachineJson.MachinePatched` | controllers/machine/controller.go:116-128 | the stored Machine after the deferred patch is the old Machine with exactly the accepted halves of the new one |
| `MachineJson.SpecMembersNamed` | api/v1alpha1/machine_types.go:72-90 | the members of the specification stand under their names, unset ones are left out |
| `MachineJson.StatusMembersNamed` | api/v1alpha1/machine_types.go:92-165 | so do those of the status |
| `MachineJson.EncodeInjective` | api/v1alpha1/machine_types.go:72-194 | different Machines have different JSON, so a Machine can be read from it |
| `MachineJson.NextReadsWhatWasWritten` | controllers/machine/controller.go:90-128 | whoever reads a Machine from what the deferred patch left reads the old Machine with the accepted halves of the new one |
| `Reconciling.LastSame` | controllers/machine/helpers.go:62-65 | the reference that an owner replaces is the last one to the same group, kind and name, if there is one |
| `Reconciling.FirstRequeue` | controllers/machine/controller.go:142-151 | the requeue time is that of the first error that asks for one, and there is none only if no error asks |
| `MachineReconciler.AddFinalizer` | controllers/machine/controller.go:130-131 | the finalizer is there afterwards, appended only if it was missing, and nothing else changed |
| `MachineReconciler.AdoptExternal` | controllers/machine/helpers.go:56-70 | setting the controller reference in the object's own nested metadata and patching leave the external object as `OwnerWrites` and `OwnerStored` say; a foreign controller is an error before any write |
| `MachineReconciler.ReconcileExternal` | controllers/machine/helpers.go:43-94 | the failure fields of the Machine, the error and the writes to the external object, for every answer of the calls |
| `MachineReconciler.CopyFailures` | controllers/machine/helpers.go:77-91 | failure fields are overwritten by non-empty ones only, the message with the text around it; by neither, and with an error, when one of them is malformed |
| `MachineReconciler.UnmarshalInto` | controllers/machine/infraref.go:78-82 | the items are decoded over the elements that are there, which keep what the JSON does not give; a malformed value is skipped and reported while the others are written; the rest of the status is left alone |
| `MachineReconciler.CopyFromReady` | controllers/machine/infraref.go:70-96 | the ordered partial updates with their early exits: addresses are already set, as far as they decode, when they or the failure domain turn out malformed, the provider ID comes last |
| `MachineReconciler.ReconcileInfrastructure` | controllers/machine/infraref.go:34-97 | the whole infrastructure step on the object in place: Machine value, error and external writes |
| `MachineReconciler.NoteIfLost` | controllers/machine/infraref.go:42-50 | failure fields are set exactly when the infrastructure was ready and the object could not be found |
| `MachineReconciler.FollowView` | controllers/machine/infraref.go:54-96 | what follows from a fetched external object: nothing while it is being deleted, readiness, then its fields |
| `MachineReconciler.ReconcileNodeRef` | controllers/machine/noderef.go:31-64 | the loop sets node reference and version to the first listed node with the provider ID, wherever it stands in the list, asks for a requeue after a second when there is none, and changes nothing when a reference is set already |
| `MachineReconciler.ReconcilePhase` | controllers/machine/status.go:25-43 | the successive assignments leave the phase that deletion, failure, node reference and old phase determine in this order of priority |
| `MachineReconciler.SortErrors` | controllers/machine/controller.go:139-154 | of the errors of the inner reconcilers the first that asks for a requeue gives the requeue time, later ones are dropped, and all others are returned in order |
| `MachineReconciler.ReconcileBesideSnapshot` | controllers/machine/controller.go:116-137 | whatever objects the reconcile may write to, none of them in the snapshot, the snapshot that the patch is computed from holds on |
| `MachineReconciler.Snapshot` | controllers/machine/controller.go:116-120 | taking the snapshot leaves the Machine as it is, and no object that existed before is part of the snapshot |
| `MachineReconciler.ReconcileAndPatch` | controllers/machine/controller.go:116-154 | on every exit of the reconcile the stored object gets the patch from the Machine as read to the Machine as it is then, for any conversion to JSON |
| `MachineReconciler.Reconcile` | controllers/machine/controller.go:86-155 | for every answer of the calls and every refusal of the two writes: the stored Machine, the writes issued to it and to the external object, the requeue time, and the error, which is that of the patch only if there is no other; nothing happens to a Machine that is not found |
| `ReconcileLaws.FinalizerIsSet` | controllers/machine/controller.go:130-131 | the reconciled Machine's metadata is the old one with the finalizer, appended if it was missing |
| `ReconcileLaws.GroupBeforeSlash` | controllers/machine/helpers.go:62-65 | the group that tells owners apart is what stands before the slash of the apiVersion |
| `ReconcileLaws.ExternalIsOwnedExactlyWhen` | controllers/machine/helpers.go:56-70 | an external object that no other object controls keeps its owner references and gains the Machine's as controller, and nothing else of it changes; one that is controlled already is left, with an error |
| `ReconcileLaws.MissingOwnerIsWritten` | controllers/machine/helpers.go:62-70 | while the Machine's reference is missing exactly one write is issued, and its refusal is the error |
| `ReconcileLaws.FailedCallIsReported` | controllers/machine/infraref.go:41-51 | the first call for the external object that fails is the step's error and leaves everything copied from it; a ready Machine whose object could not be found gets the failure reason and message |
| `ReconcileLaws.NoInfrastructure` | controllers/machine/infraref.go:35-38 | without an infrastructure reference nothing of it changes and there is no error |
| `ReconcileLaws.FailuresAreReported` | controllers/machine/helpers.go:77-91 | over a whole reconcile and from the JSON members: a non-empty failure reason becomes the Machine's, a non-empty message with the text around it, an empty or absent one leaves the old |
| `ReconcileLaws.ReportedFailureFails` | controllers/machine/status.go:34-36 | a failure that the provider reports makes the Machine Failed |
| `ReconcileLaws.UnreadableFailureIsError` | controllers/machine/helpers.go:78-81 | a failure member that is no text leaves both fields and everything else, and is an error |
| `ReconcileLaws.ReadinessIsCopied` | controllers/machine/infraref.go:54-68 | readiness is the provider's; an object being deleted is left alone, one that is not ready is waited for, one whose readiness is no boolean is an error |
| `ReconcileLaws.ReadyObjectIsCopied` | controllers/machine/infraref.go:70-96 | from a ready object provider ID and failure domain are copied exactly when there is a provider ID and everything is readable, else neither, with an error |
| `ReconcileLaws.ReadyAddressesAreCopied` | controllers/machine/infraref.go:78-82 | the addresses are copied, element by element, exactly when there is a provider ID and a list of them |
| `ReconcileLaws.NodeReferenceExactlyWhen` | controllers/machine/noderef.go:31-64 | a Machine without a node reference has one afterwards if and only if its provider ID is set, the nodes were listed and one carries it: that of the first such node, with its version and no error; else the error is that of the listing or a requeue after a second |
| `ReconcileLaws.NodeReferenceStays` | controllers/machine/noderef.go:34-36 | a node reference that is set is left alone, with its version |
| `ReconcileLaws.PhaseIs` | controllers/machine/status.go:25-43 | the phase after a reconcile, by deletion, failure, node reference and the old phase |
| `ReconcileLaws.ReturnedIs` | controllers/machine/controller.go:134-154 | requeue time and errors returned, from the errors of the two inner reconcilers |
| `ReconcileLaws.PatchErrorExactlyWhen` | controllers/machine/controller.go:121-128 | a patch error is reported exactly if a write that was due was refused and there is no other error |
| `Idempotence.SecondReconcileIsSilent` | controllers/machine/controller.go:116-154 | in a frozen environment with all calls succeeding a second reconcile leaves the Machine unchanged, returns the same, and issues no write to Machine or external object, from every state and on every error or requeue exit |
| `Idempotence.OwnerSetOnce` | controllers/machine/helpers.go:56-70 | once the controller reference is set, the same calls lead to the same object and issue no write |
| `Idempotence.AfterIsStored` | controllers/machine/helpers.go:56-70 | the external object that the second reconcile finds is the one that the first left in the API server |
| `Idempotence.PutOwnerTwice` | controllers/machine/helpers.go:62-65 | setting an owner reference twice is setting it once and makes no foreign controller |
| `Idempotence.FollowExternalAgain` | controllers/machine/infraref.go:34-97 | the infrastructure step on its own result changes nothing more and ends in the same way, also after an early exit |
| `Idempotence.NodeRefStepAgain` | controllers/machine/noderef.go:31-64 | so does the node reference step, and the phase is settled |
| `MachineRuns.ReconcileProgress` | controllers/machine/controller.go:130-137 | one reconcile never clears a failure, never changes a set node reference or the deletion mark |
| `MachineRuns.RunKeepsFit` | controllers/machine/status.go:25-43 | over every run the phase says what the rest of the status says: Running means a node reference and no failure, Pending neither, Failed a failure, Terminating a deletion |
| `MachineRuns.PhaseNeverDrops` | controllers/machine/status.go:25-43 | at any two moments of any run of a fresh Machine, with refused writes, deletions and user edits: the rank of the phase does not drop, failures and the node reference stay |
| `MachineRuns.LostInfrastructureFailsForGood` | controllers/machine/infraref.go:42-50 | infrastructure lost after being ready makes the Machine Failed, and it stays Failed or becomes Terminating in every continuation |
| `MachineRuns.NodeRefWrittenOnce` | controllers/machine/noderef.go:34-36 | a run writes the node reference at most once, and never when it was set at the start |
| `MachineRuns.NodeForFirst` | controllers/machine/noderef.go:47-61 | the node chosen is the first listed one with the provider ID; none is chosen only if there is none |
| `MachineRuns.AssignedNodeHasProviderID` | controllers/machine/noderef.go:43-61 | a node reference that a reconcile sets names a node listed with the Machine's provider ID, whose version it takes |
| `Fleet.ReconcileLinks` | controllers/machine/infraref.go:70-95 | a reconcile keeps the provider ID the provider's and the node reference that of a node with it |
| `Fleet.NodeRefsInjective` | controllers/machine/controller.go:134-137 | with provider IDs stable and distinct, no two Machines refer to the same node after any interleaving of creations, reconciles, edits and deletions |
| `DeletionReconciler.IsDeleteNodeAllowed` | controllers/machine/helpers.go:199-233 | the loop that collects the namespace's control-plane Machines refuses a nil node reference and the only control-plane Machine, and nothing else |
| `DeletionReconciler.DrainNode` | controllers/machine/helpers.go:96-148 | no error means drained or gone already; a refused client, get or cordon is an error, and only a drain that failed on a cordoned node carries a requeue after 20 seconds |
| `DeletionReconciler.ReconcileDeleteExternal` | controllers/machine/helpers.go:161-170 | no error means that the infrastructure was deleted or gone, before or during the delete; any other refusal is returned, and exactly one effect is recorded |
| `DeletionReconciler.PollDeleteNode` | controllers/machine/controller.go:193-207 | node deletions are issued until one is not refused or time is up |
| `DeletionReconciler.ReconcileDelete` | controllers/machine/controller.go:157-210 | the effects in order and the error, with every early return |
| `DeletionReconciler.FinishNode` | controllers/machine/controller.go:185-207 | the infrastructure goes first, and only then, if the guard allowed it, the node |
| `DeletionReconciler.WritePhase` | controllers/machine/controller.go:99-105 | phase Terminating is written unless stored already; a refused write leaves the stored Machine |
| `DeletionReconciler.ReconcileDeletion` | controllers/machine/controller.go:98-114 | a whole deletion reconcile: stored Machine, ordered effects, error |
| `Deleting.DeletionOrder` | controllers/machine/controller.go:164-207 | in every deletion reconcile, whatever its calls answer, a node delete comes after guard, drain and infrastructure delete succeeded in that reconcile, and with a node reference the finalizer goes only after the infrastructure step |
| `Deleting.NodeDeletedExactlyWhen` | controllers/machine/controller.go:164-202 | exactly when a node delete is issued |
| `Deleting.FinalizerRemovedExactlyWhen` | controllers/machine/controller.go:106-113 | exactly when the finalizer goes; without a node reference neither node nor infrastructure is looked at |
| `Deleting.ErrorExactlyWhen` | controllers/machine/controller.go:98-114 | a deletion reconcile returns no error if and only if it removed the finalizer; else its error is that of the first call that failed, in the order phase write, list, drain, infrastructure, finalizer write, a failed drain with a requeue after 20 seconds |
| `Deleting.StoredExactlyWhen` | controllers/machine/controller.go:98-114 | what is stored afterwards: unchanged, Terminating, without the finalizer, or gone with the last one |
| `Deleting.EffectsExactlyWhen` | controllers/machine/controller.go:157-188 | exactly when the phase is written, the guard refuses, the node is drained, and the infrastructure is deleted or found gone |
| `Deleting.GuardRefusesExactlyWhen` | controllers/machine/helpers.go:220-232 | the guard refuses a Machine with a node reference exactly when it is of the control plane and the list holds one such Machine |
| `Deleting.PollStopsExactlyWhen` | controllers/machine/controller.go:197-202 | the deletion of the node is tried again exactly while it is refused and there is time |
| `Deleting.WithoutKeepsOrder` | controllers/machine/controller.go:109 | the other finalizers keep their order |
| `Deleting.PollDoesNotMatter` | controllers/machine/controller.go:196-206 | however the node deletions are answered or recognised, the Machine ends up the same |
| `ControlPlane.AnotherControlPlane` | controllers/machine/helpers.go:210-230 | next to a control-plane Machine the count differs from one exactly when there is another |
| `ControlPlane.GuardSeesOthers` | controllers/machine/helpers.go:199-233 | for every listing that shows the stored Machines of the namespace with their labels, in any order, the guard lets a control-plane Machine go if and only if another one is stored |
| `ControlPlane.OwnPhaseWriteIsListed` | controllers/machine/controller.go:99-106 | the listing that already shows the phase written by the same reconcile is among those the guard is proved for |
| `ControlPlane.StepKeepsSafe` | controllers/machine/controller.go:164-207 | an atomic deletion of any Machine of any namespace keeps a guarded control plane guarded |
| `ControlPlane.ControlPlaneSurvives` | controllers/machine/helpers.go:199-233 | no sequence of atomic deletions takes the control plane of a namespace from some nodes to none, when each of its Machines starts with an existing node of its own |
| `ControlPlane.GuardCountsNodesExactlyWhen` | controllers/machine/helpers.go:220-232 | the guard, which counts Machines, refuses exactly the last node's deletion if and only if the Machine has no peer or a peer whose node exists |
| `ControlPlane.NodeRemovedExactlyWhen` | controllers/machine/controller.go:193-202 | a deletion reconcile removes the Machine's node exactly when guard, phase write, drain and infrastructure succeed and the first delete that is not refused deletes it |
| `ControlPlane.LastNodeGoesExactlyWhen` | controllers/machine/controller.go:157-207 | one deletion reconcile takes the control plane from some nodes to none exactly when a peer is stored, no peer has a node, and phase write, listing, drain, infrastructure and node delete are answered with success |
| `ControlPlane.NodelessMachineStillCounts` | controllers/machine/controller.go:109-112 | concrete runs in which the last node goes: a Machine whose node went still counts while its finalizer update is refused or a foreign finalizer keeps it |
| `Text.LinesSplit` | util/cloudinit/cloudinit.go:114-118 | splitting at newlines distributes over a newline between two texts |
| `Text.JoinedLines` | util/cloudinit/cloudinit.go:114-118 | joining the split lines gives back the text |
| `CloudInit.IndentLines` | util/cloudinit/cloudinit.go:114-118 | the indented content has the content's lines, each, empty ones included, behind the indentation |
| `CloudInit.EntryPrints` | util/cloudinit/cloudinit.go:30-46 | the lines the template prints for a file: path, the attributes that are set, the content's header and its indented lines |
| `CloudInit.EntryLayout` | util/cloudinit/cloudinit.go:30-46 | the text of a file word for word: path, attributes that are set, and each line of the content behind six spaces |
| `CloudInit.FileReadsBack` | util/cloudinit/cloudinit.go:30-46 | a printed file is read back with every attribute and exactly the lines of its content, whatever lines the content holds |
| `CloudInit.FilesReadBack` | util/cloudinit/cloudinit.go:30-46 | so is every list of clean files, with the reader stopping where the list ends |
| `CloudInit.BytesOfRaws` | util/cloudinit/cloudinit.go:114-118 | the lines read give back each content byte for byte |
| `CloudInit.FilesReadAreClean` | util/cloudinit/cloudinit.go:30-46 | no document whatever is read as a file that is not clean |
| `CloudInit.CommandsReadBack` | util/cloudinit/cloudinit.go:24-29 | the printed commands are read back in order, before whatever follows |
| `CloudInit.CommandLayout` | util/cloudinit/cloudinit.go:24-29 | each command is a quoted list item |
| `CloudInit.RuncmdReadsBack` | util/cloudinit/cloudinit.go:17-20 | the `runcmd` list reads as the commands before, the one that starts crit, and the commands after, and ends there |
| `CloudInit.DocumentLines` | util/cloudinit/cloudinit.go:14-23 | the lines of the whole document, section by section |
| `CloudInit.DocumentLayout` | util/cloudinit/cloudinit.go:14-23 | the fixed lines of the document and the command that starts crit, word for word |
| `CloudInit.DocumentReadsBackExactlyWhen` | util/cloudinit/cloudinit.go:111-146 | the document reads back as its files and commands if and only if no path, owner, permissions or encoding contains a newline or its closing quote |
| `Quoting.HexReadsBack` | util/cloudinit/cloudinit.go:24-29 | hexadecimal escapes of any width denote their number |
| `Quoting.CharReadsBack` | util/cloudinit/cloudinit.go:24-29 | one character printed by `%q` is one character in a double-quoted scalar (section 5.7 of YAML 1.2.2) |
| `Quoting.QuoteReadsBack` | util/cloudinit/cloudinit.go:24-29 | every valid text, printed with `%q` and read as a double-quoted scalar, is itself |
| `Quoting.SimpleEscapes` | util/cloudinit/cloudinit.go:24-29 | what a reader of section 5.7 of YAML 1.2.2 makes of each one-letter escape that the printer uses |
| `Quoting.HexEscape` | util/cloudinit/cloudinit.go:24-29 | and of the escapes by two, four and eight digits |
| `Quoting.EscapeIsOneLine` | util/cloudinit/cloudinit.go:24-29 | a quoted command never breaks its line |
| `LiteralBlock.ChompLines` | util/cloudinit/cloudinit.go:42-43 | clip chomping line by line (section 8.1.1.2 of YAML 1.2.2) is stripping trailing newlines down to one |
| `LiteralBlock.PlainFirst` | util/cloudinit/cloudinit.go:42-43 | content whose first line with text is not indented is read with the printed indentation, or is an error when a blank line before it is not empty |
| `LiteralBlock.SpaceFirst` | util/cloudinit/cloudinit.go:42-43 | content whose first line with text starts with a space is never read back, since indentation is detected there |
| `LiteralBlock.BlockDecodesExactlyWhen` | util/cloudinit/cloudinit.go:114-118 | for every content without carriage returns: read as a literal block it is itself with trailing newlines clipped to one if and only if its leading blank lines are empty and its first other line does not start with a space |
| `LiteralBlock.DocumentDecodesExactlyWhen` | util/cloudinit/cloudinit.go:111-146 | the whole document, each content read as a literal block, gives every file with its content clipped if and only if every file is clean and every content starts plainly; the commands are read, then, too |
| `Multipart.Writer.CreatePart` | util/cloudinit/message.go:19-21 | a part starts with the dash-boundary line, its header and an empty line; a later part first ends the one before |
| `Multipart.CreateMessage` | util/cloudinit/message.go:15-32 | the buffer holds header, part, data and closing delimiter in order, word for word |
| `Multipart.NoStraddling` | util/cloudinit/message.go:25-30 | no occurrence of the delimiter begins inside the data and ends beyond it |
| `Multipart.FindsTheEnd` | util/cloudinit/message.go:25-30 | the first delimiter after the part's header is the one that the printer put after the data |
| `Multipart.HeaderReadsBack` | util/cloudinit/message.go:10-18 | the boundary announced in the header is read back, and the body after it |
| `Multipart.MessageReadsBackExactlyWhen` | util/cloudinit/message.go:15-32 | reading the message by section 5.1.1 of RFC 2046 returns exactly the data if and only if the delimiter occurs neither in the data nor, without its line break, at the start of the data |
| `BootstrapConfig.EveryOrderKeepsAllFiles` | controllers/config/controller.go:109-139 | for every iteration order of the map of Secrets the files taken from them are a permutation of the files of exactly the entries whose key exists |
| `BootstrapConfig.EveryOrderHoldsEntries` | controllers/config/controller.go:113-139 | for every iteration order the files are exactly those of the entries whose Secret holds their key, with the entry's attributes and the data under that key, as many as there are such entries, and those of one Secret in the order of the entries |
| `BootstrapConfig.SelectedEachHolds` | controllers/config/controller.go:125-137 | entry by entry: what each file holds and which entries are skipped |
| `BootstrapConfig.OrderWithinSecret` | controllers/config/controller.go:119-138 | the files of one Secret stand together, in the order of its entries |
| `BootstrapConfig.Partition` | controllers/config/controller.go:109-112 | grouping by Secret neither loses nor duplicates an entry |
| `BootstrapConfig.BootstrapDataReadsBack` | controllers/config/controller.go:140-147 | the rendered bytes read back to the cloud-config if and only if the boundary's delimiter is not in it, and then to exactly the files and commands if and only if every file is clean |
| `ConfigReconciler.GroupSecrets` | controllers/config/controller.go:109-112 | the loop fills the map with, for each Secret, its entries in order |
| `ConfigReconciler.AppendSelected` | controllers/config/controller.go:119-138 | the inner loop appends a file for each entry whose key exists and skips the others |
| `ConfigReconciler.AppendSecrets` | controllers/config/controller.go:113-139 | the loop over the map, in whatever order, appends every Secret's files; it fails if and only if some Secret cannot be read |
| `ConfigReconciler.Render` | controllers/config/controller.go:76-147 | the rendered bytes, or a failure exactly when the configuration is invalid or a Secret cannot be read |
| `ConfigReconciler.Reconcile` | controllers/config/controller.go:60-169 | stored Config, created Secrets and status updates after a reconcile, whichever call fails; before a failure at a Secret nothing is created and the status is untouched |
| `ConfigReconciler.OutcomeExactlyWhen` | controllers/config/controller.go:60-169 | a Config that is not ready gets its Secret and becomes ready exactly when every call succeeds; a call that fails is an error and leaves what the earlier ones did |
| `ConfigReconciler.RunAccounted` | controllers/config/controller.go:148-168 | over every run Secrets created are successful plus failed status updates, at most one successful, and a ready Config names the last Secret created |
| `ConfigReconciler.ReadyForGood` | controllers/config/controller.go:72-74 | Ready never reverts, the name of the data Secret never changes once set, and no Secret is created after that |
| `ConfigReconciler.ReadyMeansRendered` | controllers/config/controller.go:148-168 | a Config found ready was made so by a step that created the Secret it names, with the bytes rendered from the specification stored at that moment |
| `ConfigReconciler.ReadySecretHoldsAllFiles` | controllers/config/controller.go:99-168 | reading that Secret gives back the Config's files, config.yaml word for word, the files of exactly the entries whose Secret holds their key with the data under it, in each Secret's order, and the commands in order |
| `CsrApproval.MachineFor` | controllers/csrapprover/validate.go:126-143 | a Machine that is found is a listed one that refers to the node and whose infrastructure is ready |
| `CsrApproval.ApprovedExactlyWhen` | controllers/csrapprover/controller.go:74-112 | a request gains one condition of type Approved, after the old ones, if and only if it is an open node request that passes every check or takes an early return, and its update is accepted; else its conditions stay |
| `CsrApproval.ValidExactlyWhen` | controllers/csrapprover/validate.go:39-124 | from the checks themselves, names and usages word for word: when the validation finds nothing, and when it asks for another try |
| `CsrApproval.MachineForExactlyWhen` | controllers/csrapprover/validate.go:131-142 | a Machine is found exactly if the first listed one with the node is ready |
| `CsrApproval.NamesExactlyWhen` | controllers/csrapprover/validate.go:71-94 | a name is allowed exactly if it is the node's or one of the Machine's addresses |
| `CsrApproval.ApprovedIsCheckedExactlyWhen` | controllers/csrapprover/validate.go:39-124 | an approved request has both groups, an existing node, allowed usages only, every name among the ready Machine's node name and addresses, and the requestor's permission, if and only if none of the early returns with nil was taken |
| `CsrApproval.GrouplessIsApproved` | controllers/csrapprover/validate.go:48-51 | a concrete request without groups and with a forbidden usage, for a node that does not exist, is approved |
| `CsrApproval.MachineChoiceIgnoresOrder` | controllers/csrapprover/validate.go:126-143 | with distinct node references the Machine found does not depend on the order of the list |
| `CsrApproval.ReachableChoiceIgnoresOrder` | controllers/csrapprover/validate.go:126-143 | so it is for the Machines that any run of the Machine controller leaves, provider IDs being stable and distinct |
| `CsrApproval.TheMachineOf` | controllers/csrapprover/validate.go:131-141 | with distinct node references the Machine of the node is found exactly when its infrastructure is ready |
| `CsrApproval.HandledGainsNothing` | controllers/csrapprover/controller.go:81-103 | over every run conditions only grow, a handled request stays handled, and the controller adds at most one condition, none to a handled request |
| `CsrApprover.IsUsageAllowed` | controllers/csrapprover/validate.go:145-158 | the search finds exactly the three allowed usages |
| `CsrApprover.GetMachine` | controllers/csrapprover/validate.go:126-143 | the loop returns the first Machine of the node if its infrastructure is ready, and an error otherwise |
| `CsrApprover.CollectAddresses` | controllers/csrapprover/validate.go:71-74 | the set holds the node name and every address of the Machine |
| `CsrApprover.CheckNames` | controllers/csrapprover/validate.go:85-94 | the loop accepts exactly the lists whose every name is in the set |
| `CsrApprover.CopyExtra` | controllers/csrapprover/validate.go:110-112 | the review gets every extra value, whatever the order of the map |
| `CsrApprover.ValidateCSR` | controllers/csrapprover/validate.go:39-124 | the error of the validation, in the order of its checks; a Machine that cannot be chosen asks for a requeue |
| `CsrApprover.Csr.Handled` | controllers/csrapprover/controller.go:81-88 | the loop finds a condition of type Approved or Denied exactly if there is one |
| `CsrApprover.Reconcile` | controllers/csrapprover/controller.go:61-113 | the stored conditions, the requeue after 5 seconds and the error, for every answer of the calls |
| `ObjectTracker.ObjectTracker.Watch` | util/external/tracker.go:39-63 | a kind seen before is watched no more; a failed watch is an error, and what is then deleted is the object, not the text stored |
| `ObjectTracker.KindTextInjective` | util/external/tracker.go:44-45 | two kinds share a key exactly when group and kind agree; the version does not count |
| `ObjectTracker.StepKeepsInv` | util/external/tracker.go:39-63 | every atomic step of any call keeps the invariant and every key |
| `ObjectTracker.WatchedAtMostOnce` | util/external/tracker.go:39-63 | in every interleaving of any number of calls at most one watch is started per kind, and the key set never shrinks |
| `ObjectTracker.SuccessMeansWatchedExactlyWhen` | util/external/tracker.go:45-60 | in every interleaving, when all calls have returned, a call without an error means that its kind is watched if and only if no call for the kind returned an error |
| `ObjectTracker.LoneSuccessMeansWatchedExactlyWhen` | util/external/tracker.go:39-63 | from every reachable state an uninterrupted call that returns no error leaves its kind watched if and only if, before it, no call for the kind had failed or was still starting its watch |
| `ObjectTracker.UnsettledIsFailed` | util/external/tracker.go:58-61 | when all earlier calls have returned, that condition is that none of them for the kind returned an error |
| `ObjectTracker.LaterCallSeesNoWatch` | util/external/tracker.go:58-61 | a concrete run: after a watch that failed a later call succeeds although nothing is watched |
| `ObjectTracker.AloneIsWatch` | util/external/tracker.go:39-63 | a call that no other interrupts does in the interleaved model what the method does |

## Left out

- ControlPlane.ControlPlaneSurvives: needs, beyond atomic deletions with accepted finalizer updates, that no foreign finalizer keeps a Machine; `ControlPlane.NodelessMachineStillCounts` shows that it fails otherwise.
- PatchLaws.OwnerReferenceWrite: asks that the external object has a metadata object when read and when written, which the API server guarantees.
- ObjectTracker.KindTextInjective: asks that kinds contain no dot, which the API server guarantees.
- Quoting.QuoteReadsBack: is about valid text; what `%q` makes of bytes that are no UTF-8 is not modelled. U+007F is escaped with four digits, as Go did before version 1.18.
- LiteralBlock.BlockDecodesExactlyWhen: does not model which characters YAML counts as printable.
- Multipart.MessageReadsBackExactlyWhen: reads messages of the shape that CreateMessage writes, with one part; text is a sequence of characters, not of encoded bytes.
- MachineApi.Machine.DeepCopy: ObjectMeta is held as a value, so its own deep copy and what is reached through its maps and slices are not modelled.
- PatchHelper.SnapshotIsolated: of the maps nested in an unstructured object only its metadata, the one the controllers write into, is an object of its own.
- MachineReconciler.UnmarshalInto: a slice is an array of its length, as the deep copy makes it, so a slice that shrinks does not share the array it had; member names are compared exactly.
- `controllers/infraprovider`: handles its external object like the Machine reconciler does, with fewer cases.
- `controllers/node`: not wired into the manager.
- `main.go`, controller setup, RBAC, CRDs, logging, events: no behaviour to prove.
- Eviction and cordoning, SubjectAccessReview, x509 and PEM parsing, `configutil`, base64, random names and boundaries: answers given by the environment.
- The templates for users and time servers: one parameter that starts a further key or is empty.
- The text of semantic versions, of error messages and of the verbosity beyond true and false.
- Stale reads from caches, and races between concurrent deletions of two control-plane Machines.
- Reflection in conversions between objects and JSON: total decoders that give a value, not found or an error.
- The JSON diff is the function that produces the least merge patch; the library that computes it is not part of this model.

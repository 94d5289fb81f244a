/** The Machine reconciler as it runs: a Machine object changed in place, one external object and the
    stored Machine written through the patch helper. */
module MachineReconciler {
  import opened Wrappers
  import opened Json
  import opened MachineApi
  import opened PatchHelper
  import opened Reconciling
  import opened MachineJson

  method AddFinalizer(m: Machine)
    modifies m`meta
    ensures m.Value() == WithFinalizer(old(m.Value()))
  {
    if MACHINE_FINALIZER !in m.meta.finalizers {
      m.meta := m.meta.(finalizers := m.meta.finalizers + [MACHINE_FINALIZER]);
    }
  }

  /** Setting the controller reference leaves the status alone, so the helper writes one half at most. */
  lemma OwnerLeavesStatus(f: Fields, refs: seq<Json>)
    ensures !StatusDiffers(f, WithOwnerReferences(f, refs))
  {
  }

  /** Take ownership of the fetched object in place and write that back. */
  method AdoptExternal(meta: Meta, obj: JsonMap, env: Env, ext: StoredObject) returns (err: Option<Error>)
    requires env.infra == Got(obj.Contents())
    modifies obj, obj.metadata, ext
    ensures ext.fields == OwnerStored(meta, env, old(ext.fields))
    ensures ext.writes == old(ext.writes) + OwnerWrites(meta, env)
    ensures match SetControllerReference(meta, old(obj.Contents()))
            case None => err == Some(PLAIN)
            case Some(owned) => obj.Contents() == owned
                                && err == if ResourceDiffers(old(obj.Contents()), owned) then env.infraWrite else None
  {
    var owned := SetControllerReference(meta, obj.Contents());
    if owned.None? {
      return Some(PLAIN);
    }
    var failures := OwnAndPatch(obj, PutOwner(OwnerReferences(obj.Contents()), OwnerReference(meta)), ext, env.infraWrite.None?);
    err := if failures > 0 then env.infraWrite else None;
  }

  /** Snapshot, in-place change of the owner references, patch. */
  method OwnAndPatch(obj: JsonMap, refs: seq<Json>, ext: StoredObject, ok: bool) returns (failures: nat)
    modifies obj, obj.metadata, ext
    ensures var before := old(obj.Contents());
            var after := WithOwnerReferences(before, refs);
            && obj.Contents() == after
            && ext.fields == Patched(false, before, after, old(ext.fields), ok, ok)
            && ext.writes == old(ext.writes) + Writes(false, before, after)
            && failures == if ResourceDiffers(before, after) && !ok then 1 else 0
  {
    var fetched := obj.Contents();
    var helper := NewHelper(Unstructured(obj), Encode);
    obj.SetOwnerReferences(refs);
    OwnerLeavesStatus(fetched, refs);
    failures := Patch(helper, Unstructured(obj), Encode, ext, ok, ok, fetched);
  }

  method ReconcileExternal(m: Machine, ref: ObjectReference, env: Env, ext: StoredObject)
      returns (view: Option<InfraView>, err: Option<Error>)
    modifies m.status`failureReason, m.status`failureMessage, ext
    ensures m.status.Value() == ExternalStatus(old(m.status.Value()), ref, Fetch(m.meta, env))
    ensures err == ExternalError(Fetch(m.meta, env))
    ensures err.None? ==> Fetch(m.meta, env).Fetched? && view == Some(Fetch(m.meta, env).view)
    ensures ext.fields == OwnerStored(m.meta, env, old(ext.fields))
    ensures ext.writes == old(ext.writes) + OwnerWrites(m.meta, env)
  {
    view := None;
    match env.infra
    case Missing => return None, Some(Error(Some(env.wait), true));
    case InfraRefused(e) => return None, Some(e);
    case Got(f) =>
      var obj := new JsonMap(f);
      err := AdoptExternal(m.meta, obj, env, ext);
      if err.Some? {
        return;
      }
      if env.watch.Some? {
        return None, env.watch;
      }
      var v := View(obj.Contents());
      err := CopyFailures(m.status, ref, v);
      view := Some(v);
  }

  method CopyFailures(status: MachineStatus, ref: ObjectReference, v: InfraView) returns (err: Option<Error>)
    modifies status`failureReason, status`failureMessage
    ensures status.Value() == WithFailures(old(status.Value()), ref, v)
    ensures err == if v.failureReason.Malformed? || v.failureMessage.Malformed? then Some(PLAIN) else None
    ensures err.None? && v.failureReason.Found? && v.failureReason.v != "" ==>
              Deref(status.failureReason) == Some(v.failureReason.v)
    ensures err.None? && v.failureMessage.Found? && v.failureMessage.v != "" ==>
              Deref(status.failureMessage) == Some(FailureText(ref, v.failureMessage.v))
  {
    if v.failureReason.Malformed? || v.failureMessage.Malformed? {
      return Some(PLAIN);
    }
    if NonEmpty(v.failureReason).Some? {
      status.failureReason := new Box(NonEmpty(v.failureReason).value);
    }
    if NonEmpty(v.failureMessage).Some? {
      status.failureMessage := new Box(FailureText(ref, NonEmpty(v.failureMessage).value));
    }
    return None;
  }

  /** Decode the first `n` items over the elements that are there. */
  method DecodeOver(a: array<MachineAddress>, items: seq<Json>, n: nat) returns (ok: bool)
    requires n <= a.Length && n <= |items|
    modifies a
    ensures forall i | 0 <= i < n :: a[i] == DecodedElement(old(a[i]), items[i])
    ensures ok <==> forall i | 0 <= i < n :: Decodes(items[i])
  {
    ok := true;
    for i := 0 to n
      invariant forall j | 0 <= j < i :: a[j] == DecodedElement(old(a[j]), items[j])
      invariant forall j | i <= j < a.Length :: a[j] == old(a[j])
      invariant ok <==> forall j | 0 <= j < i :: Decodes(items[j])
    {
      ok := ok && Decodes(items[i]);
      a[i] := DecodedElement(a[i], items[i]);
    }
  }

  /** The first `n` elements in an array of another length, the other items decoded into new elements. */
  method DecodeRest(a: array?<MachineAddress>, items: seq<Json>, n: nat) returns (c: array<MachineAddress>, ok: bool)
    requires n <= |items| && (a != null ==> n <= a.Length) && (a == null ==> n == 0)
    ensures fresh(c) && c.Length == |items|
    ensures forall i | 0 <= i < n :: c[i] == a[i]
    ensures forall i | n <= i < |items| :: c[i] == DecodedElement(MachineAddress("", ""), items[i])
    ensures ok <==> forall i | n <= i < |items| :: Decodes(items[i])
  {
    c := new MachineAddress[|items|](_ => MachineAddress("", ""));
    ok := true;
    for i := 0 to |items|
      invariant forall j | 0 <= j < i && j < n :: c[j] == a[j]
      invariant forall j | n <= j < i :: c[j] == DecodedElement(MachineAddress("", ""), items[j])
      invariant forall j | i <= j < |items| :: c[j] == MachineAddress("", "")
      invariant ok <==> forall j | n <= j < i :: Decodes(items[j])
    {
      if i < n {
        c[i] := a[i];
      } else {
        ok := ok && Decodes(items[i]);
        c[i] := DecodedElement(c[i], items[i]);
      }
    }
  }

  /** Decode into the slice: the elements that are there are overwritten in place; when there are more
      or fewer items, the result is in an array of their number. */
  method UnmarshalInto(status: MachineStatus, items: seq<Json>) returns (ok: bool)
    modifies status`addresses, status.addresses
    ensures status.Value() == old(status.Value()).(addresses := DecodedInto(old(status.Value()).addresses, items))
    ensures ok == AllDecode(items)
    ensures status.addresses == old(status.addresses) || fresh(status.addresses)
  {
    ghost var prior := Elements(status.addresses);
    var a := status.addresses;
    var n := if a == null then 0 else if a.Length < |items| then a.Length else |items|;
    ok := true;
    if a != null {
      ok := DecodeOver(a, items, n);
    }
    if a == null || a.Length != |items| {
      var c, restOk := DecodeRest(a, items, n);
      status.addresses, ok := c, ok && restOk;
    }
    assert Elements(status.addresses) == DecodedInto(prior, items);
  }

  method CopyFromReady(spec: MachineSpec, status: MachineStatus, v: InfraView) returns (err: Option<Error>)
    modifies spec`providerID, spec`failureDomain, status`addresses, status.addresses
    ensures spec.Value() == CopiedSpec(old(spec.Value()), v)
    ensures status.Value() == CopiedStatus(old(status.Value()), v)
    ensures err == CopyError(v)
    ensures status.addresses == old(status.addresses) || fresh(status.addresses)
  {
    if NonEmpty(v.providerID).None? || v.addresses.Malformed? {
      return Some(PLAIN);
    }
    if v.addresses.Found? {
      var ok := UnmarshalInto(status, v.addresses.v);
      if !ok {
        return Some(PLAIN);
      }
    }
    err := CopyNames(spec, v);
  }

  /** The failure domain, if there is one, and last of all the provider ID. */
  method CopyNames(spec: MachineSpec, v: InfraView) returns (err: Option<Error>)
    requires NonEmpty(v.providerID).Some?
    modifies spec`providerID, spec`failureDomain
    ensures err == if v.failureDomain.Malformed? then Some(PLAIN) else None
    ensures spec.Value() == var s := old(spec.Value());
                            if v.failureDomain.Malformed? then s
                            else s.(failureDomain := if v.failureDomain.Found? then Some(v.failureDomain.v) else s.failureDomain,
                                    providerID := NonEmpty(v.providerID))
  {
    if v.failureDomain.Malformed? {
      return Some(PLAIN);
    } else if v.failureDomain.Found? {
      spec.failureDomain := new Box(v.failureDomain.v);
    }
    spec.providerID := new Box(NonEmpty(v.providerID).value);
    return None;
  }

  method ReconcileInfrastructure(m: Machine, env: Env, ext: StoredObject) returns (err: Option<Error>)
    modifies m.spec`providerID, m.spec`failureDomain, m.status, m.status.addresses, ext
    ensures m.Value() == InfraStep(old(m.Value()), env).m
    ensures err == InfraStep(old(m.Value()), env).error
    ensures m.status.addresses == old(m.status.addresses) || fresh(m.status.addresses)
    ensures ext.fields == ExternalStored(old(m.Value()), env, old(ext.fields))
    ensures ext.writes == old(ext.writes) + ExternalWrites(old(m.Value()), env)
  {
    if m.spec.infrastructureRef == null {
      return None;
    }
    err := ReconcileReferenced(m, m.spec.infrastructureRef.v, env, ext);
  }

  method ReconcileReferenced(m: Machine, ref: ObjectReference, env: Env, ext: StoredObject) returns (err: Option<Error>)
    modifies m.spec`providerID, m.spec`failureDomain, m.status, m.status.addresses, ext
    ensures var out := FollowExternal(old(m.Value()), ref, Fetch(m.meta, env), env.wait);
            m.Value() == out.m && err == out.error
    ensures m.status.addresses == old(m.status.addresses) || fresh(m.status.addresses)
    ensures ext.fields == OwnerStored(m.meta, env, old(ext.fields))
    ensures ext.writes == old(ext.writes) + OwnerWrites(m.meta, env)
  {
    var view, externalErr := ReconcileExternal(m, ref, env, ext);
    assert m.spec.Value() == old(m.spec.Value()) && m.meta == old(m.meta);
    assert m.status.Value() == ExternalStatus(old(m.status.Value()), ref, Fetch(m.meta, env));
    err := FollowResult(m.spec, m.status, ref, view, externalErr, env.wait);
  }

  /** An error of the external object ends the step, after noting lost infrastructure. */
  method FollowResult(spec: MachineSpec, status: MachineStatus, ref: ObjectReference, view: Option<InfraView>,
                      externalErr: Option<Error>, wait: int) returns (err: Option<Error>)
    requires externalErr.None? ==> view.Some?
    modifies spec`providerID, spec`failureDomain, status, status.addresses
    ensures spec.Value() == if externalErr.Some? then old(spec.Value()) else FollowedSpec(old(spec.Value()), view.value)
    ensures status.Value() == if externalErr.Some? then NoteLost(old(status.Value()), ref, externalErr.value)
                              else FollowedStatus(old(status.Value()), view.value)
    ensures err == if externalErr.Some? then externalErr else FollowError(view.value, wait)
    ensures status.addresses == old(status.addresses) || fresh(status.addresses)
  {
    if externalErr.Some? {
      NoteIfLost(status, ref, externalErr.value);
      return externalErr;
    }
    err := FollowView(spec, status, view.value, wait);
  }

  method NoteIfLost(status: MachineStatus, ref: ObjectReference, e: Error)
    modifies status`failureReason, status`failureMessage
    ensures status.Value() == NoteLost(old(status.Value()), ref, e)
  {
    if status.infrastructureReady && e.couldNotFind {
      status.failureReason := new Box("InvalidConfiguration");
      status.failureMessage := new Box(LostText(ref));
    }
  }

  /** Everything after reconcileExternal returned an object. */
  method FollowView(spec: MachineSpec, status: MachineStatus, v: InfraView, wait: int) returns (err: Option<Error>)
    modifies spec`providerID, spec`failureDomain, status`addresses, status`infrastructureReady, status.addresses
    ensures spec.Value() == FollowedSpec(old(spec.Value()), v)
    ensures status.Value() == FollowedStatus(old(status.Value()), v)
    ensures err == FollowError(v, wait)
    ensures status.addresses == old(status.addresses) || fresh(status.addresses)
  {
    if v.deleting {
      return None;
    }
    if v.ready.Malformed? {
      return Some(PLAIN);
    }
    status.infrastructureReady := v.ready == Found(true);
    if !status.infrastructureReady {
      return Some(Error(Some(wait), false));
    }
    err := CopyFromReady(spec, status, v);
  }

  /** The first listed node with the Machine's provider ID, unless a reference is set already. */
  method ReconcileNodeRef(m: Machine, env: Env) returns (err: Option<Error>)
    modifies m.status`nodeRef, m.status`version
    ensures m.Value() == NodeRefStep(old(m.Value()), env).m
    ensures err == NodeRefStep(old(m.Value()), env).error
    ensures old(m.status.nodeRef) == null && m.spec.providerID != null && env.nodes.Nodes? ==>
              if exists n <- env.nodes.items :: n.providerID == m.spec.providerID.v
              then m.status.nodeRef != null && err == None
              else m.status.nodeRef == null && err == Some(Error(Some(1), false))
  {
    if m.status.nodeRef != null || m.spec.providerID == null {
      return None;
    }
    if env.nodes.NodesRefused? {
      return Some(env.nodes.error);
    }
    var items, providerID := env.nodes.items, m.spec.providerID.v;
    assert items[0..] == items;
    for i := 0 to |items|
      invariant m.Value() == old(m.Value())
      invariant forall j | 0 <= j < i :: items[j].providerID != providerID
      invariant NodeFor(items, providerID) == NodeFor(items[i..], providerID)
    {
      var node := items[i];
      if node.providerID == providerID {
        m.status.nodeRef := new Box(RefTo(node));
        m.status.version := new Box(node.version);
        return None;
      }
    }
    return Some(Error(Some(1), false));
  }

  method ReconcilePhase(m: Machine)
    modifies m.status`phase
    ensures m.Value() == WithPhase(old(m.Value()))
  {
    ghost var v := m.Value();
    assert v.status.nodeRef.Some? == (m.status.nodeRef != null);
    assert v.status.HasFailure() == (m.status.failureReason != null || m.status.failureMessage != null);
    var phase := m.status.phase;
    if phase == Unset {
      phase := Pending;
    }
    if m.status.nodeRef != null {
      phase := Running;
    }
    if m.status.failureReason != null || m.status.failureMessage != null {
      phase := Failed;
    }
    if m.meta.deletionTimestamp.Some? {
      phase := Terminating;
    }
    m.status.phase := phase;
  }

  /** Of the errors that ask for a requeue only the first is kept; the others are collected in order. */
  method SortErrors(reconciliationErrors: seq<Option<Error>>) returns (requeueAfter: Option<int>, errs: seq<Error>)
    ensures IsFirstRequeue(reconciliationErrors, requeueAfter)
    ensures errs == PlainErrors(reconciliationErrors)
  {
    requeueAfter, errs := None, [];
    assert reconciliationErrors[0..] == reconciliationErrors;
    for i := 0 to |reconciliationErrors|
      invariant IsFirstRequeue(reconciliationErrors[..i], requeueAfter)
      invariant errs + PlainErrors(reconciliationErrors[i..]) == PlainErrors(reconciliationErrors)
    {
      var e := reconciliationErrors[i];
      assert reconciliationErrors[i..][1..] == reconciliationErrors[i + 1..];
      assert reconciliationErrors[..i + 1] == reconciliationErrors[..i] + [e];
      StillFirst(reconciliationErrors[..i], e, requeueAfter);
      if AsksRequeue(e) {
        if requeueAfter.None? {
          requeueAfter := e.value.requeueAfter;
        }
      } else if e.Some? {
        errs := errs + [e.value];
      }
    }
    assert reconciliationErrors[..|reconciliationErrors|] == reconciliationErrors;
  }

  lemma StillFirst(errs: seq<Option<Error>>, e: Option<Error>, r: Option<int>)
    requires IsFirstRequeue(errs, r)
    ensures IsFirstRequeue(errs + [e], if r.None? && AsksRequeue(e) then e.value.requeueAfter else r)
  {
    if r.Some? {
      var i :| 0 <= i < |errs| && AsksRequeue(errs[i]) && errs[i].value.requeueAfter == r
               && forall j | 0 <= j < i :: !AsksRequeue(errs[j]);
      assert (errs + [e])[i] == errs[i];
    } else {
      assert (errs + [e])[|errs|] == e;
    }
  }

  /** Only one requeue time is that of the first error that asks for one. */
  lemma FirstRequeueIs(errs: seq<Option<Error>>, r: Option<int>)
    requires IsFirstRequeue(errs, r)
    ensures r == FirstRequeue(errs)
  {
    var f := FirstRequeue(errs);
    if r.Some? || f.Some? {
      var i :| 0 <= i < |errs| && AsksRequeue(errs[i]) && forall j | 0 <= j < i :: !AsksRequeue(errs[j]);
      assert errs[i] in errs;
      assert r == errs[i].value.requeueAfter == f;
    }
  }

  method Collect(errs: seq<Option<Error>>) returns (r: Returned)
    ensures r == Returned(FirstRequeue(errs), PlainErrors(errs))
  {
    var requeueAfter, plain := SortErrors(errs);
    FirstRequeueIs(errs, requeueAfter);
    r := Returned(requeueAfter, plain);
  }

  lemma FinalizerKeepsOwner(m: MachineValue, env: Env, stored: Fields)
    ensures ExternalStored(WithFinalizer(m), env, stored) == ExternalStored(m, env, stored)
    ensures ExternalWrites(WithFinalizer(m), env) == ExternalWrites(m, env)
  {
    assert OwnerReference(WithFinalizer(m).meta) == OwnerReference(m.meta);
  }

  /** The inner reconcilers in order, then the phase of the deferred function. */
  method ReconcileParts(m: Machine, env: Env, ext: StoredObject) returns (r: Returned)
    modifies m`meta, m.spec`providerID, m.spec`failureDomain, m.status, m.status.addresses, ext
    ensures m.Value() == Reconciled(old(m.Value()), env)
    ensures r == ReturnedBy(old(m.Value()), env)
    ensures ext.fields == ExternalStored(old(m.Value()), env, old(ext.fields))
    ensures ext.writes == old(ext.writes) + ExternalWrites(old(m.Value()), env)
  {
    FinalizerKeepsOwner(m.Value(), env, ext.fields);
    AddFinalizer(m);
    var infraErr := ReconcileInfrastructure(m, env, ext);
    var nodeErr := ReconcileNodeRef(m, env);
    ReconcilePhase(m);
    r := Collect([infraErr, nodeErr]);
  }

  /** `others` holds everything that a reconcile of `m` writes to, and whatever else. */
  ghost predicate Covers(others: set<object>, m: Machine, ext: StoredObject)
    reads m.status
  {
    && m in others && m.spec in others && m.status in others && ext in others
    && (m.status.addresses != null ==> m.status.addresses in others)
  }

  method ReconcileWithin(m: Machine, env: Env, ext: StoredObject, ghost others: set<object>) returns (r: Returned)
    requires Covers(others, m, ext)
    modifies others
    ensures m.Value() == Reconciled(old(m.Value()), env)
    ensures r == ReturnedBy(old(m.Value()), env)
    ensures ext.fields == ExternalStored(old(m.Value()), env, old(ext.fields))
    ensures ext.writes == old(ext.writes) + ExternalWrites(old(m.Value()), env)
  {
    r := ReconcileParts(m, env, ext);
  }

  /** Reconciling in place while a helper holds a snapshot leaves the snapshot as it was. */
  method ReconcileBesideSnapshot(m: Machine, ext: StoredObject, env: Env,
                                 ghost h: Helper, ghost j: Fields, ghost toJson: ToJson, ghost others: set<object>)
      returns (r: Returned)
    requires Holds(h, true, j, toJson) && SnapshotOutside(h, others) && Covers(others, m, ext)
    modifies others
    ensures Holds(h, true, j, toJson)
    ensures m.Value() == Reconciled(old(m.Value()), env)
    ensures r == ReturnedBy(old(m.Value()), env)
    ensures ext.fields == ExternalStored(old(m.Value()), env, old(ext.fields))
    ensures ext.writes == old(ext.writes) + ExternalWrites(old(m.Value()), env)
  {
    r := ReconcileWithin(m, env, ext, others);
  }

  /** The snapshot is apart from every object there was, `m` and all that can be reached through it included. */
  method Snapshot(m: Machine, toJson: ToJson, ghost others: set<object>) returns (h: Helper)
    ensures Holds(h, true, toJson(m.Value()), toJson) && SnapshotOutside(h, others)
  {
    h := NewHelper(Typed(m), toJson);
  }

  /** Reconcile in place, then patch against the snapshot: for any conversion to JSON. */
  method ReconcileAndPatch(h: Helper, m: Machine, store: StoredObject, ext: StoredObject, env: Env, toJson: ToJson,
                           resourceOk: bool, statusOk: bool, ghost others: set<object>)
      returns (r: Returned, patchFailures: nat)
    requires store !in others
    requires Holds(h, true, toJson(m.Value()), toJson) && SnapshotOutside(h, others) && Covers(others, m, ext)
    modifies others, store
    ensures var before, after := toJson(old(m.Value())), toJson(Reconciled(old(m.Value()), env));
            && store.fields == Patched(true, before, after, old(store.fields), resourceOk, statusOk)
            && store.writes == old(store.writes) + Writes(true, before, after)
            && patchFailures == Failures(before, after, resourceOk, statusOk)
    ensures r == ReturnedBy(old(m.Value()), env)
    ensures ext.fields == ExternalStored(old(m.Value()), env, old(ext.fields))
    ensures ext.writes == old(ext.writes) + ExternalWrites(old(m.Value()), env)
  {
    ghost var j := toJson(m.Value());
    r := ReconcileBesideSnapshot(m, ext, env, h, j, toJson, others);
    patchFailures := Patch(h, Typed(m), toJson, store, resourceOk, statusOk, j);
  }

  datatype MachineGet = MachineFound | MachineNotFound | MachineGetRefused(error: Error)

  /** Reconcile of a Machine that is not being deleted. `m` is the Machine just read, if it was found;
      the deferred patch runs on every exit, and a refused patch is reported if nothing else is. */
  method Reconcile(get: MachineGet, m: Machine, store: StoredObject, ext: StoredObject, env: Env,
                   resourceOk: bool, statusOk: bool, ghost others: set<object>)
      returns (requeueAfter: Option<int>, err: Report)
    requires Covers(others, m, ext) && store !in others
    requires get.MachineFound? ==> !m.Value().Deleting() && store.fields == Encode(m.Value())
    modifies others, store
    ensures get.MachineFound? ==>
              var before, after := old(m.Value()), Reconciled(old(m.Value()), env);
              && store.fields == Encode(Halves(before, after, resourceOk, statusOk))
              && store.writes == old(store.writes) + Writes(true, Encode(before), Encode(after))
              && ext.fields == ExternalStored(before, env, old(ext.fields))
              && ext.writes == old(ext.writes) + ExternalWrites(before, env)
              && requeueAfter == ReturnedBy(before, env).requeueAfter
              && err == Reported(ReturnedBy(before, env).errors,
                                 Failures(Encode(before), Encode(after), resourceOk, statusOk))
    ensures !get.MachineFound? ==>
              && unchanged(others) && unchanged(store) && requeueAfter == None
              && err == if get.MachineNotFound? then NoError else Inner([get.error])
  {
    match get
    case MachineNotFound => return None, NoError;
    case MachineGetRefused(e) => return None, Inner([e]);
    case MachineFound =>
      var r, patchFailures := ReconcileFound(m, store, ext, env, resourceOk, statusOk, others);
      requeueAfter, err := r.requeueAfter, Reported(r.errors, patchFailures);
  }

  method ReconcileFound(m: Machine, store: StoredObject, ext: StoredObject, env: Env,
                        resourceOk: bool, statusOk: bool, ghost others: set<object>)
      returns (r: Returned, patchFailures: nat)
    requires Covers(others, m, ext) && store !in others && !m.Value().Deleting()
    requires store.fields == Encode(m.Value())
    modifies others, store
    ensures var before, after := old(m.Value()), Reconciled(old(m.Value()), env);
            && store.fields == Encode(Halves(before, after, resourceOk, statusOk))
            && store.writes == old(store.writes) + Writes(true, Encode(before), Encode(after))
            && patchFailures == Failures(Encode(before), Encode(after), resourceOk, statusOk)
    ensures r == ReturnedBy(old(m.Value()), env)
    ensures ext.fields == ExternalStored(old(m.Value()), env, old(ext.fields))
    ensures ext.writes == old(ext.writes) + ExternalWrites(old(m.Value()), env)
  {
    ghost var before := m.Value();
    var helper := Snapshot(m, Encode, others);
    assert m.Value() == before;
    r, patchFailures := ReconcileAndPatch(helper, m, store, ext, env, Encode, resourceOk, statusOk, others);
    ReconciledKeepsCreation(before, env);
    MachinePatched(before, Reconciled(before, env), resourceOk, statusOk);
  }

  lemma ReconciledKeepsCreation(m: MachineValue, env: Env)
    ensures Reconciled(m, env).meta.creationTimestamp == m.meta.creationTimestamp
  {
  }
}

/** Reconciling twice against an environment that stands still is reconciling once. */
module Idempotence {
  import opened Json
  import opened MachineApi
  import opened PatchHelper
  import opened PatchLaws
  import opened Reconciling

  /** Every API call of the reconcile succeeds; not finding the external object is an answer. */
  predicate AllSucceed(env: Env) {
    !env.infra.InfraRefused? && env.infraWrite.None? && env.watch.None? && env.nodes.Nodes?
  }

  /** The environment after the reconcile of `m`: only its own write to the external object happened. */
  function After(m: MachineValue, env: Env): Env {
    if m.spec.infrastructureRef.None? || !env.infra.Got? then env
    else match SetControllerReference(m.meta, env.infra.fields)
         case None => env
         case Some(owned) => env.(infra := Got(owned))
  }

  /** The second reconcile leaves the Machine as it is, asks for the same requeue or reports the same
      errors, and issues no write to the Machine or to the external object. */
  lemma SecondReconcileIsSilent(m: MachineValue, env: Env)
    requires AllSucceed(env) && !m.Deleting()
    ensures var m1, env1 := Reconciled(m, env), After(m, env);
            && Reconciled(m1, env1) == m1
            && ReturnedBy(m1, env1) == ReturnedBy(m, env)
            && Writes(true, Encode(m1), Encode(Reconciled(m1, env1))) == []
            && ExternalWrites(m1, env1) == []
  {
    var m0 := WithFinalizer(m);
    var m1, env1 := Reconciled(m, env), After(m, env);
    var infra := InfraStep(m0, env);
    NodeRefStepKeeps(infra.m, env);
    if m.spec.infrastructureRef.Some? {
      var ref, fetched := m.spec.infrastructureRef.value, Fetch(m0.meta, env);
      FollowExternalKeeps(m0, ref, fetched, env.wait);
      OwnerSetOnce(m, m0, env);
      OwnerSetOnce(m, m1, env);
      FollowExternalAgain(m0, m1, ref, fetched, env.wait);
    }
    assert InfraStep(m1, env1) == Outcome(m1, infra.error);
    NodeRefStepAgain(infra.m, m1, env, env1);
    UnchangedIssuesNoWrite(true, Encode(m1), Encode(m1), true, true);
  }

  /** The node step on its own result: same node reference, same wish to requeue. */
  lemma NodeRefStepAgain(m: MachineValue, m1: MachineValue, env: Env, env1: Env)
    requires env.nodes.Nodes? && env1.nodes == env.nodes && !m.Deleting()
    requires m1 == WithPhase(NodeRefStep(m, env).m)
    ensures NodeRefStep(m1, env1) == Outcome(m1, NodeRefStep(m, env).error)
    ensures WithPhase(m1) == m1
  {
  }

  /** What the infrastructure step never writes. */
  lemma FollowExternalKeeps(m: MachineValue, ref: ObjectReference, fetched: Fetched, wait: int)
    ensures var r := FollowExternal(m, ref, fetched, wait).m;
            && r.meta == m.meta
            && r.spec == m.spec.(providerID := r.spec.providerID, failureDomain := r.spec.failureDomain)
            && r.status == m.status.(failureReason := r.status.failureReason, failureMessage := r.status.failureMessage,
                                     addresses := r.status.addresses, infrastructureReady := r.status.infrastructureReady)
            && (m.status.failureReason.Some? ==> r.status.failureReason.Some?)
            && (m.status.failureMessage.Some? ==> r.status.failureMessage.Some?)
  {
  }

  /** The node step writes only the node reference and the version. */
  lemma NodeRefStepKeeps(m: MachineValue, env: Env)
    ensures var r := NodeRefStep(m, env).m;
            && r.meta == m.meta && r.spec == m.spec
            && r.status == m.status.(nodeRef := r.status.nodeRef, version := r.status.version)
  {
  }

  /** Once the controller reference is set, the same calls set it again without a change, issue no
      write and lead to the same object. */
  lemma OwnerSetOnce(m: MachineValue, m1: MachineValue, env: Env)
    requires AllSucceed(env)
    requires m1.meta.name == m.meta.name && m1.meta.uid == m.meta.uid
    requires m.spec.infrastructureRef.Some? && m1.spec.infrastructureRef.Some?
    ensures Fetch(m1.meta, After(m, env)) == Fetch(m.meta, env)
    ensures ExternalWrites(m1, After(m, env)) == []
  {
    assert OwnerReference(m1.meta) == OwnerReference(m.meta);
    if env.infra.Got? {
      var f := env.infra.fields;
      SetControllerTwice(OwnerReference(m.meta), f);
      if SetControllerReference(m.meta, f).Some? {
        var owned := SetControllerReference(m.meta, f).value;
        UnchangedIssuesNoWrite(false, owned, owned, true, true);
      }
    }
  }

  /** The external object of the second reconcile is the one that the first left in the API server. */
  lemma AfterIsStored(m: MachineValue, env: Env)
    requires AllSucceed(env) && env.infra.Got? && m.spec.infrastructureRef.Some?
    ensures After(m, env).infra == Got(ExternalStored(m, env, env.infra.fields))
  {
    var f := env.infra.fields;
    if SetControllerReference(m.meta, f).Some? {
      var owned := SetControllerReference(m.meta, f).value;
      OwnedIsReached(f, PutOwner(OwnerReferences(f), OwnerReference(m.meta)));
    }
  }

  lemma OwnedIsReached(f: Fields, refs: seq<Json>)
    ensures Patched(false, f, WithOwnerReferences(f, refs), f, true, true) == WithOwnerReferences(f, refs)
  {
    var owned := WithOwnerReferences(f, refs);
    UnstructuredPatchReachesAfter(f, owned);
    assert WithStatusOf(owned, f) == owned;
    OwnedWithoutStatus(f, refs);
    OwnedKeepsNulls(f - {"status"}, refs);
  }

  lemma OwnedWithoutStatus(f: Fields, refs: seq<Json>)
    ensures WithOwnerReferences(f, refs) - {"status"} == WithOwnerReferences(f - {"status"}, refs)
  {
    assert Member(f - {"status"}, "metadata") == Member(f, "metadata");
  }

  lemma OwnedKeepsNulls(f: Fields, refs: seq<Json>)
    ensures NullsKept(f, WithOwnerReferences(f, refs))
  {
    var meta := FieldsOf(Member(f, "metadata"));
    var owned := meta["ownerReferences" := Arr(refs)];
    assert NullFree(Arr(refs));
    assert NullsKept(meta, owned);
    if meta == map[] {
      assert NullFree(Obj(owned));
    }
  }

  lemma SetControllerTwice(owner: Json, f: Fields)
    ensures SetController(owner, f).Some? ==> SetController(owner, SetController(owner, f).value) == SetController(owner, f)
  {
    var refs := OwnerReferences(f);
    var put := PutOwner(refs, owner);
    var owned := WithOwnerReferences(f, put);
    ReferencesReadBack(f, put);
    PutOwnerTwice(refs, owner);
    var meta := owned["metadata"].fields;
    assert meta["ownerReferences" := Arr(put)] == meta;
    assert WithOwnerReferences(owned, put) == owned;
  }

  lemma ReferencesReadBack(f: Fields, refs: seq<Json>)
    ensures OwnerReferences(WithOwnerReferences(f, refs)) == refs
  {
    var owned := WithOwnerReferences(f, refs);
    assert Nested(Obj(owned), ["metadata", "ownerReferences"])
        == Nested(owned["metadata"], ["ownerReferences"])
        == Nested(Arr(refs), []);
  }

  /** Putting an owner twice is putting it once, and it adds no foreign controller. */
  lemma PutOwnerTwice(refs: seq<Json>, owner: Json)
    ensures PutOwner(PutOwner(refs, owner), owner) == PutOwner(refs, owner)
    ensures !ForeignController(refs, owner) ==> !ForeignController(PutOwner(refs, owner), owner)
  {
    var i, put := LastSame(refs, owner), PutOwner(refs, owner);
    var at := if i < 0 then |refs| else i;
    assert put[at] == owner;
    LastSameIs(put, owner, at);
    assert put[at := owner] == put;
    if ForeignController(put, owner) {
      var j :| 0 <= j < |put| && !SameObject(owner, put[j]) && IsController(put[j]);
      assert j != at && put[j] == refs[j];
    }
  }

  lemma LastSameIs(refs: seq<Json>, owner: Json, at: nat)
    requires at < |refs| && refs[at] == owner && forall j | at < j < |refs| :: !SameObject(owner, refs[j])
    ensures LastSame(refs, owner) == at
  {
    assert SameObject(owner, refs[at]);
  }

  /** Decoding the same items over their own result changes nothing more. */
  lemma DecodedTwice(prior: seq<MachineAddress>, items: seq<Json>)
    ensures DecodedInto(DecodedInto(prior, items), items) == DecodedInto(prior, items)
  {
    var once := DecodedInto(prior, items);
    assert forall i | 0 <= i < |items| :: PriorAt(once, i) == once[i];
  }

  /** The infrastructure step on its own result, with node reference, version and phase set since. */
  lemma FollowExternalAgain(m: MachineValue, m1: MachineValue, ref: ObjectReference, fetched: Fetched, wait: int)
    requires var r := FollowExternal(m, ref, fetched, wait).m;
             && m1.meta == r.meta && m1.spec == r.spec
             && m1.status == r.status.(nodeRef := m1.status.nodeRef, version := m1.status.version, phase := m1.status.phase)
    ensures FollowExternal(m1, ref, fetched, wait) == Outcome(m1, FollowExternal(m, ref, fetched, wait).error)
  {
    if fetched.Fetched? && fetched.view.addresses.Found? {
      DecodedTwice(m.status.addresses, fetched.view.addresses.v);
    }
  }
}

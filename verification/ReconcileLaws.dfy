/** What a reconcile of a Machine achieves, said of the answers of its calls and of the members of the
    external object's JSON, member by member. */
module ReconcileLaws {
  import opened Wrappers
  import opened Json
  import opened MachineApi
  import opened PatchHelper
  import opened Reconciling
  import opened Idempotence
  import opened MachineRuns

  // Members of a JSON object of objects

  predicate Has(f: Fields, outer: string, inner: string) {
    outer in f && f[outer].Obj? && inner in f[outer].fields
  }

  /** The member at `outer`.`inner`. */
  function At(f: Fields, outer: string, inner: string): Json
    requires Has(f, outer, inner)
  {
    f[outer].fields[inner]
  }

  predicate Lacks(f: Fields, outer: string, inner: string) {
    outer !in f || f[outer].Null? || (f[outer].Obj? && inner !in f[outer].fields)
  }

  predicate HasText(f: Fields, outer: string, inner: string) {
    Has(f, outer, inner) && At(f, outer, inner).Str?
  }

  predicate HasNonEmpty(f: Fields, outer: string, inner: string) {
    HasText(f, outer, inner) && At(f, outer, inner).s != ""
  }

  lemma NestedPair(f: Fields, outer: string, inner: string)
    ensures Nested(Obj(f), [outer, inner])
         == if Has(f, outer, inner) then Found(At(f, outer, inner))
            else if Lacks(f, outer, inner) then Absent else Malformed
  {
    assert [outer, inner][1..] == [inner];
    if outer in f {
      assert Nested(Obj(f), [outer, inner]) == Nested(f[outer], [inner]);
      if f[outer].Obj? && inner in f[outer].fields {
        assert Nested(f[outer], [inner]) == Nested(f[outer].fields[inner], [inner][1..]);
        assert [inner][1..] == [];
      }
    }
  }

  // The external object's controller

  function OwnerRefs(f: Fields): seq<Json> {
    if Has(f, "metadata", "ownerReferences") && At(f, "metadata", "ownerReferences").Arr?
    then At(f, "metadata", "ownerReferences").items else []
  }

  function TextOf(r: Json, k: string): string {
    if r.Obj? && k in r.fields && r.fields[k].Str? then r.fields[k].s else ""
  }

  /** The reference names the Machine: by group, kind and name. */
  predicate NamesMachine(r: Json, m: Meta) {
    GroupOf(TextOf(r, "apiVersion")) == "machine.crit.sh" && TextOf(r, "kind") == "Machine" && TextOf(r, "name") == m.name
  }

  predicate Controls(r: Json) {
    r.Obj? && "controller" in r.fields && r.fields["controller"] == Bool(true)
  }

  predicate ControlledByAnother(f: Fields, m: Meta) {
    exists i | 0 <= i < |OwnerRefs(f)| :: Controls(OwnerRefs(f)[i]) && !NamesMachine(OwnerRefs(f)[i], m)
  }

  /** The reference that makes the Machine the controller. */
  function MachineRef(m: Meta): Json {
    Obj(map["apiVersion" := Str("machine.crit.sh/v1alpha1"), "kind" := Str("Machine"), "name" := Str(m.name),
            "uid" := Str(m.uid), "controller" := Bool(true), "blockOwnerDeletion" := Bool(true)])
  }

  lemma {:induction false} UpToSlash(group: string, rest: string)
    requires '/' !in group && rest != "" && rest[0] == '/'
    ensures UpTo('/', group + rest) == group
  {
    if group == "" {
      assert group + rest == rest;
    } else {
      UpToSlash(group[1..], rest);
      assert (group + rest)[1..] == group[1..] + rest;
    }
  }

  /** The group of an apiVersion is what stands before the slash. */
  lemma GroupBeforeSlash(group: string, version: string)
    requires '/' !in group
    ensures GroupOf(group + "/" + version) == group
    ensures GroupOf(group) == ""
  {
    assert (group + "/" + version)[|group|] == '/';
    assert group + "/" + version == group + ("/" + version);
    UpToSlash(group, "/" + version);
  }

  lemma MachineGroup()
    ensures GroupOf("machine.crit.sh/v1alpha1") == "machine.crit.sh"
  {
    assert "machine.crit.sh/v1alpha1" == "machine.crit.sh" + "/" + "v1alpha1";
    assert '/' !in "machine.crit.sh";
    GroupBeforeSlash("machine.crit.sh", "v1alpha1");
  }

  lemma RefsRead(f: Fields, m: Meta)
    ensures OwnerReferences(f) == OwnerRefs(f) && OwnerReference(m) == MachineRef(m)
  {
    NestedPair(f, "metadata", "ownerReferences");
  }

  /** What tells an object from others in a reference to it. */
  predicate IsReferenceTo(owner: Json, m: Meta) {
    && GroupOf(Text(Member(FieldsOf(owner), "apiVersion"))) == "machine.crit.sh"
    && Text(Member(FieldsOf(owner), "kind")) == "Machine" && Text(Member(FieldsOf(owner), "name")) == m.name
  }

  lemma SameIsNamed(owner: Json, r: Json, m: Meta)
    requires IsReferenceTo(owner, m)
    ensures SameObject(owner, r) <==> NamesMachine(r, m)
    ensures IsController(r) <==> Controls(r)
  {
    TextRead(r, "apiVersion");
    TextRead(r, "kind");
    TextRead(r, "name");
  }

  lemma MachineRefIsReference(m: Meta)
    ensures IsReferenceTo(MachineRef(m), m)
  {
    var f := MachineRef(m).fields;
    assert Member(f, "apiVersion") == Str("machine.crit.sh/v1alpha1");
    assert Member(f, "kind") == Str("Machine") && Member(f, "name") == Str(m.name);
    MachineGroup();
  }

  lemma ControllerRead(f: Fields, m: Meta)
    ensures OwnerReferences(f) == OwnerRefs(f) && OwnerReference(m) == MachineRef(m)
    ensures forall r: Json :: SameObject(MachineRef(m), r) <==> NamesMachine(r, m)
    ensures ForeignController(OwnerReferences(f), OwnerReference(m)) <==> ControlledByAnother(f, m)
  {
    RefsRead(f, m);
    MachineRefIsReference(m);
    forall r: Json
      ensures SameObject(MachineRef(m), r) <==> NamesMachine(r, m)
      ensures IsController(r) <==> Controls(r)
    {
      SameIsNamed(MachineRef(m), r, m);
    }
    ForeignIsAnother(MachineRef(m), OwnerRefs(f), f, m);
  }

  lemma ForeignIsAnother(owner: Json, refs: seq<Json>, f: Fields, m: Meta)
    requires IsReferenceTo(owner, m) && refs == OwnerRefs(f)
    ensures ForeignController(refs, owner) <==> ControlledByAnother(f, m)
  {
    forall r | r in refs
      ensures !SameObject(owner, r) && IsController(r) <==> Controls(r) && !NamesMachine(r, m)
    {
      SameIsNamed(owner, r, m);
    }
    if ControlledByAnother(f, m) {
      var i :| 0 <= i < |refs| && Controls(refs[i]) && !NamesMachine(refs[i], m);
      assert refs[i] in refs;
    }
  }

  lemma TextRead(r: Json, k: string)
    ensures Text(Member(FieldsOf(r), k)) == TextOf(r, k)
  {
  }

  /** `after` is `before` with the Machine's reference in place of one that names it, or at the end. */
  predicate OwnedLike(before: seq<Json>, after: seq<Json>, m: Meta) {
    && |before| <= |after| <= |before| + 1
    && MachineRef(m) in after
    && (forall i | 0 <= i < |before| :: after[i] == before[i] || (NamesMachine(before[i], m) && after[i] == MachineRef(m)))
    && (|after| == |before| + 1 ==> after[|before|] == MachineRef(m) && forall i | 0 <= i < |before| :: !NamesMachine(before[i], m))
  }

  lemma PutIsOwnedLike(f: Fields, m: Meta)
    ensures OwnedLike(OwnerRefs(f), PutOwner(OwnerReferences(f), OwnerReference(m)), m)
    ensures MachineRef(m) !in OwnerRefs(f) ==> PutOwner(OwnerReferences(f), OwnerReference(m)) != OwnerRefs(f)
  {
    ControllerRead(f, m);
    var refs, owner := OwnerRefs(f), MachineRef(m);
    var i := LastSame(refs, owner);
    var after := PutOwner(refs, owner);
    assert after[if i < 0 then |refs| else i] == owner;
  }

  /** An external object that no other object controls becomes the Machine's: its owner references gain the
      Machine's and keep the others, and nothing else of it changes. One that is controlled already stays
      as it is, and the reconcile reports an error. */
  lemma ExternalIsOwnedExactlyWhen(m: MachineValue, env: Env, f: Fields)
    requires m.spec.infrastructureRef.Some? && env.infra == Got(f) && env.infraWrite.None?
    requires "metadata" in f && f["metadata"].Obj?
    ensures var g := ExternalStored(m, env, f);
            && (!ControlledByAnother(f, m.meta) ==>
                  && OwnedLike(OwnerRefs(f), OwnerRefs(g), m.meta)
                  && g == f["metadata" := Obj(f["metadata"].fields["ownerReferences" := Arr(OwnerRefs(g))])])
            && (ControlledByAnother(f, m.meta) ==>
                  g == f && ExternalWrites(m, env) == [] && InfraError(m, env) == Some(Error(None, false)))
  {
    ControllerRead(f, m.meta);
    assert OwnerReference(WithFinalizer(m).meta) == OwnerReference(m.meta);
    if !ControlledByAnother(f, m.meta) {
      var refs := PutOwner(OwnerReferences(f), OwnerReference(m.meta));
      OwnedIsReached(f, refs);
      PutIsOwnedLike(f, m.meta);
      RefsOfOwned(f, refs);
    }
  }

  lemma RefsOfOwned(f: Fields, refs: seq<Json>)
    requires "metadata" in f && f["metadata"].Obj?
    ensures OwnerRefs(WithOwnerReferences(f, refs)) == refs
    ensures WithOwnerReferences(f, refs) == f["metadata" := Obj(f["metadata"].fields["ownerReferences" := Arr(refs)])]
  {
  }

  /** While the Machine's reference is missing, one write is issued, and its refusal is the error. */
  lemma MissingOwnerIsWritten(m: MachineValue, env: Env, f: Fields)
    requires m.spec.infrastructureRef.Some? && env.infra == Got(f) && !ControlledByAnother(f, m.meta)
    requires MachineRef(m.meta) !in OwnerRefs(f)
    ensures |ExternalWrites(m, env)| == 1 && ExternalWrites(m, env)[0].ResourceWrite?
    ensures env.infraWrite.Some? ==> InfraError(m, env) == env.infraWrite && ExternalStored(m, env, f) == f
  {
    ControllerRead(f, m.meta);
    assert OwnerReference(WithFinalizer(m).meta) == OwnerReference(m.meta);
    var refs := PutOwner(OwnerReferences(f), OwnerReference(m.meta));
    PutIsOwnedLike(f, m.meta);
    var owned := WithOwnerReferences(f, refs);
    ReferencesReadBack(f, refs);
    assert OwnerReferences(owned) == refs;
    OwnerDiffers(f, refs);
  }

  lemma OwnerDiffers(f: Fields, refs: seq<Json>)
    requires refs != OwnerReferences(f)
    ensures ResourceDiffers(f, WithOwnerReferences(f, refs)) && !StatusDiffers(f, WithOwnerReferences(f, refs))
  {
    var owned := WithOwnerReferences(f, refs);
    ReferencesReadBack(f, refs);
    if !ResourceDiffers(f, owned) {
      SameMember(f, owned, "metadata");
      SameReferences(f, owned);
    }
  }

  lemma SameMember(a: Fields, b: Fields, k: string)
    requires a - {"status"} == b - {"status"} && k != "status"
    ensures (k in a <==> k in b) && (k in a ==> a[k] == b[k])
  {
    assert k in a <==> k in a - {"status"};
    assert k in b <==> k in b - {"status"};
  }

  lemma SameReferences(a: Fields, b: Fields)
    requires ("metadata" in a <==> "metadata" in b) && ("metadata" in a ==> a["metadata"] == b["metadata"])
    ensures OwnerReferences(a) == OwnerReferences(b)
  {
    NestedPair(a, "metadata", "ownerReferences");
    NestedPair(b, "metadata", "ownerReferences");
  }

  // What is read from the external object

  /** Every call for the external object succeeds, and no other object controls it. */
  predicate Adopted(m: MachineValue, env: Env, f: Fields) {
    && m.spec.infrastructureRef.Some? && env.infra == Got(f) && !ControlledByAnother(f, m.meta)
    && env.infraWrite.None? && env.watch.None?
  }

  function ReadText(f: Fields, outer: string, inner: string): Read<string> {
    if HasText(f, outer, inner) then Found(At(f, outer, inner).s) else if Lacks(f, outer, inner) then Absent else Malformed
  }

  predicate NullOrLacks(f: Fields, outer: string, inner: string) {
    Lacks(f, outer, inner) || (Has(f, outer, inner) && At(f, outer, inner).Null?)
  }

  predicate IsView(v: InfraView, f: Fields) {
    && (v.deleting <==> HasText(f, "metadata", "deletionTimestamp"))
    && v.failureReason == ReadText(f, "status", "failureReason")
    && v.failureMessage == ReadText(f, "status", "failureMessage")
    && v.ready == (if Lacks(f, "status", "ready") then Absent
                   else if Has(f, "status", "ready") && At(f, "status", "ready").Bool? then Found(At(f, "status", "ready").b)
                   else Malformed)
    && v.providerID == (if NullOrLacks(f, "spec", "providerID") then Absent else ReadText(f, "spec", "providerID"))
    && v.failureDomain == (if NullOrLacks(f, "spec", "failureDomain") then Absent else ReadText(f, "spec", "failureDomain"))
    && v.addresses == (if NullOrLacks(f, "status", "addresses") then Absent
                       else if Has(f, "status", "addresses") && At(f, "status", "addresses").Arr?
                       then Found(At(f, "status", "addresses").items)
                       else Malformed)
  }

  lemma OwnedMembers(f: Fields, refs: seq<Json>, outer: string, inner: string)
    requires outer == "status" || outer == "spec"
    ensures var g := WithOwnerReferences(f, refs);
            && (outer in g <==> outer in f) && (outer in f ==> g[outer] == f[outer])
            && (Has(g, outer, inner) <==> Has(f, outer, inner)) && (Lacks(g, outer, inner) <==> Lacks(f, outer, inner))
  {
    assert outer != "metadata";
  }

  lemma OwnedDeleting(f: Fields, refs: seq<Json>)
    ensures HasText(WithOwnerReferences(f, refs), "metadata", "deletionTimestamp") <==> HasText(f, "metadata", "deletionTimestamp")
  {
    assert "deletionTimestamp" != "ownerReferences";
  }

  lemma ViewOfOwned(f: Fields, refs: seq<Json>)
    ensures IsView(View(WithOwnerReferences(f, refs)), f)
  {
    var g := WithOwnerReferences(f, refs);
    OwnedDeleting(f, refs);
    NestedPair(g, "metadata", "deletionTimestamp");
    ViewMember(f, refs, "status", "failureReason");
    ViewMember(f, refs, "status", "failureMessage");
    ViewMember(f, refs, "status", "ready");
    ViewMember(f, refs, "status", "addresses");
    ViewMember(f, refs, "spec", "providerID");
    ViewMember(f, refs, "spec", "failureDomain");
  }

  lemma ViewMember(f: Fields, refs: seq<Json>, outer: string, inner: string)
    requires outer == "status" || outer == "spec"
    ensures Nested(Obj(WithOwnerReferences(f, refs)), [outer, inner])
         == if Has(f, outer, inner) then Found(At(f, outer, inner)) else if Lacks(f, outer, inner) then Absent else Malformed
  {
    NestedPair(WithOwnerReferences(f, refs), outer, inner);
    OwnedMembers(f, refs, outer, inner);
  }

  /** The object that the infrastructure step reads from. */
  lemma AdoptedIsRead(m: MachineValue, env: Env, f: Fields)
    requires Adopted(m, env, f)
    ensures Fetch(WithFinalizer(m).meta, env).Fetched? && IsView(Fetch(WithFinalizer(m).meta, env).view, f)
  {
    ControllerRead(f, m.meta);
    assert OwnerReference(WithFinalizer(m).meta) == OwnerReference(m.meta);
    ViewOfOwned(f, PutOwner(OwnerReferences(f), OwnerReference(m.meta)));
  }

  // The infrastructure step

  /** What the node step and the phase leave of the infrastructure step's result. */
  lemma ReconciledFields(m: MachineValue, env: Env)
    ensures var r, infra := Reconciled(m, env), InfraStep(WithFinalizer(m), env).m;
            && r.meta == WithFinalizer(m).meta && r.spec == infra.spec
            && r.status == infra.status.(nodeRef := r.status.nodeRef, version := r.status.version, phase := r.status.phase)
  {
    var m0 := WithFinalizer(m);
    var infra := InfraStep(m0, env).m;
    InfraProgress(m0, env);
    NodeRefStepKeeps(infra, env);
  }

  /** The finalizer is there, added at the end if it was not; the metadata is otherwise kept. */
  lemma FinalizerIsSet(m: MachineValue, env: Env)
    ensures Reconciled(m, env).meta
         == if "machine.crit.sh" in m.meta.finalizers then m.meta
            else m.meta.(finalizers := m.meta.finalizers + ["machine.crit.sh"])
  {
    ReconciledFields(m, env);
  }

  /** Nothing that comes from the infrastructure changed, the failure fields aside. */
  predicate InfrastructureKept(m: MachineValue, r: MachineValue) {
    r.spec == m.spec && r.status.addresses == m.status.addresses && r.status.infrastructureReady == m.status.infrastructureReady
  }

  predicate FailuresKept(m: MachineValue, r: MachineValue) {
    r.status.failureReason == m.status.failureReason && r.status.failureMessage == m.status.failureMessage
  }

  lemma NoInfrastructure(m: MachineValue, env: Env)
    requires m.spec.infrastructureRef.None?
    ensures InfrastructureKept(m, Reconciled(m, env)) && FailuresKept(m, Reconciled(m, env)) && InfraError(m, env) == None
  {
    ReconciledFields(m, env);
  }

  /** The first call for the external object that fails, and its error. */
  predicate FailsWith(m: Meta, env: Env, e: Error) {
    match env.infra
    case Missing => e == Error(Some(env.wait), true)
    case InfraRefused(refused) => e == refused
    case Got(f) =>
      || (ControlledByAnother(f, m) && e == Error(None, false))
      || (!ControlledByAnother(f, m) && MachineRef(m) !in OwnerRefs(f) && env.infraWrite == Some(e))
      || (!ControlledByAnother(f, m) && env.infraWrite.None? && env.watch == Some(e))
  }

  lemma FailedFetch(m: Meta, env: Env, e: Error)
    requires FailsWith(m, env, e)
    ensures Fetch(m, env) == FetchFailed(e)
  {
    if env.infra.Got? {
      var f := env.infra.fields;
      ControllerRead(f, m);
      if !ControlledByAnother(f, m) {
        PutIsOwnedLike(f, m);
        if MachineRef(m) !in OwnerRefs(f) {
          OwnerDiffers(f, PutOwner(OwnerReferences(f), OwnerReference(m)));
        }
      }
    }
  }

  lemma SameOwner(m: Meta, n: Meta, f: Fields)
    requires n.name == m.name && n.uid == m.uid
    ensures MachineRef(n) == MachineRef(m) && (ControlledByAnother(f, n) <==> ControlledByAnother(f, m))
  {
    assert forall r: Json :: NamesMachine(r, n) <==> NamesMachine(r, m);
  }

  /** A failing call for the external object is the error of the step and leaves everything that comes from
      it; if the Machine was ready and the error says that the object could not be found, the Machine fails
      for it. */
  lemma FailedCallIsReported(m: MachineValue, env: Env, e: Error)
    requires m.spec.infrastructureRef.Some? && FailsWith(m.meta, env, e)
    ensures var r, ref := Reconciled(m, env), m.spec.infrastructureRef.value;
            && InfraError(m, env) == Some(e) && InfrastructureKept(m, r)
            && (if m.status.infrastructureReady && e.couldNotFind
                then r.status.failureReason == Some("InvalidConfiguration")
                     && r.status.failureMessage
                        == Some("Machine infrastructure resource " + (ref.apiVersion + ", Kind=" + ref.kind) + " with name \""
                                + ref.name + "\" has been deleted after being ready")
                else FailuresKept(m, r))
  {
    var m0 := WithFinalizer(m);
    if env.infra.Got? {
      SameOwner(m.meta, m0.meta, env.infra.fields);
    }
    FailedFetch(m0.meta, env, e);
    ReconciledFields(m, env);
  }

  predicate TextOrLacks(f: Fields, outer: string, inner: string) {
    HasText(f, outer, inner) || Lacks(f, outer, inner)
  }

  /** Both failure members are readable. */
  predicate FailuresReadable(f: Fields) {
    TextOrLacks(f, "status", "failureReason") && TextOrLacks(f, "status", "failureMessage")
  }

  /** A failure that the provider reports is the Machine's, with a text around the message; an empty or
      absent member leaves the old field. */
  lemma FailuresAreReported(m: MachineValue, env: Env, f: Fields)
    requires Adopted(m, env, f) && FailuresReadable(f)
    ensures var r, ref := Reconciled(m, env), m.spec.infrastructureRef.value;
            && r.status.failureReason == (if HasNonEmpty(f, "status", "failureReason")
                                          then Some(At(f, "status", "failureReason").s) else m.status.failureReason)
            && r.status.failureMessage
               == (if HasNonEmpty(f, "status", "failureMessage")
                   then Some("Failure detected from referenced resource " + (ref.apiVersion + ", Kind=" + ref.kind)
                             + " with name \"" + ref.name + "\": " + At(f, "status", "failureMessage").s)
                   else m.status.failureMessage)
  {
    AdoptedIsRead(m, env, f);
    ReconciledFields(m, env);
    FollowedFailures(WithFinalizer(m), m.spec.infrastructureRef.value, Fetch(WithFinalizer(m).meta, env).view, env.wait);
  }

  lemma FollowedFailures(m: MachineValue, ref: ObjectReference, v: InfraView, wait: int)
    requires !v.failureReason.Malformed? && !v.failureMessage.Malformed?
    ensures var s := FollowExternal(m, ref, Fetched(v), wait).m.status;
            && s.failureReason == (if NonEmpty(v.failureReason).Some? then NonEmpty(v.failureReason) else m.status.failureReason)
            && s.failureMessage == (if NonEmpty(v.failureMessage).Some?
                                    then Some(FailureText(ref, NonEmpty(v.failureMessage).value)) else m.status.failureMessage)
  {
  }

  /** Such a failure makes the Machine Failed. */
  lemma ReportedFailureFails(m: MachineValue, env: Env, f: Fields)
    requires Adopted(m, env, f) && FailuresReadable(f) && !m.Deleting()
    requires HasNonEmpty(f, "status", "failureReason") || HasNonEmpty(f, "status", "failureMessage")
    ensures Reconciled(m, env).status.phase == Failed
  {
    FailuresAreReported(m, env, f);
    PhaseIs(m, env);
  }

  /** A failure member that is no text leaves both fields, and everything else, and is an error. */
  lemma UnreadableFailureIsError(m: MachineValue, env: Env, f: Fields)
    requires Adopted(m, env, f) && !FailuresReadable(f)
    ensures FailuresKept(m, Reconciled(m, env)) && InfrastructureKept(m, Reconciled(m, env))
    ensures InfraError(m, env) == Some(Error(None, false))
  {
    AdoptedIsRead(m, env, f);
    ReconciledFields(m, env);
  }

  /** Readiness is what the provider says; while the object is being deleted or its readiness is no
      boolean, nothing is copied, and an object that is not ready is waited for. */
  lemma ReadinessIsCopied(m: MachineValue, env: Env, f: Fields)
    requires Adopted(m, env, f) && FailuresReadable(f)
    ensures var r := Reconciled(m, env);
            if HasText(f, "metadata", "deletionTimestamp") then InfrastructureKept(m, r) && InfraError(m, env) == None
            else if Lacks(f, "status", "ready") || (Has(f, "status", "ready") && At(f, "status", "ready") == Bool(false)) then
              && !r.status.infrastructureReady && r.spec == m.spec && r.status.addresses == m.status.addresses
              && InfraError(m, env) == Some(Error(Some(env.wait), false))
            else if Has(f, "status", "ready") && At(f, "status", "ready") == Bool(true) then r.status.infrastructureReady
            else InfrastructureKept(m, r) && InfraError(m, env) == Some(Error(None, false))
  {
    AdoptedIsRead(m, env, f);
    ReconciledFields(m, env);
  }

  /** The text of a member, or what was there before. */
  function TextOrPrior(j: Json, k: string, prior: string): string {
    if j.Obj? && k in j.fields && j.fields[k].Str? then j.fields[k].s else prior
  }

  predicate TextOrNull(j: Json, k: string) {
    j.Obj? && (k in j.fields ==> j.fields[k].Str? || j.fields[k].Null?)
  }

  /** The addresses that the JSON gives, over the old ones. */
  predicate AddressesFrom(items: seq<Json>, before: seq<MachineAddress>, after: seq<MachineAddress>) {
    |after| == |items| && forall i | 0 <= i < |items| ::
      var prior := if i < |before| then before[i] else MachineAddress("", "");
      after[i] == MachineAddress(TextOrPrior(items[i], "type", prior.addressType), TextOrPrior(items[i], "address", prior.address))
  }

  predicate AddressesReadable(f: Fields) {
    NullOrLacks(f, "status", "addresses")
    || (Has(f, "status", "addresses") && At(f, "status", "addresses").Arr?
        && forall i | 0 <= i < |At(f, "status", "addresses").items| ::
             At(f, "status", "addresses").items[i].Null?
             || (TextOrNull(At(f, "status", "addresses").items[i], "type") && TextOrNull(At(f, "status", "addresses").items[i], "address")))
  }

  /** The external object is adopted, readable, ready and not being deleted. */
  predicate AdoptedReady(m: MachineValue, env: Env, f: Fields) {
    && Adopted(m, env, f) && FailuresReadable(f) && !HasText(f, "metadata", "deletionTimestamp")
    && Has(f, "status", "ready") && At(f, "status", "ready") == Bool(true)
  }

  /** From an object that is ready the provider ID and the failure domain are copied if everything is
      readable and there is a provider ID, else neither, with an error. */
  lemma ReadyObjectIsCopied(m: MachineValue, env: Env, f: Fields)
    requires AdoptedReady(m, env, f)
    ensures if Copyable(f)
            then InfraError(m, env) == None
                 && Reconciled(m, env).spec
                    == m.spec.(providerID := Some(At(f, "spec", "providerID").s),
                               failureDomain := if HasText(f, "spec", "failureDomain")
                                                then Some(At(f, "spec", "failureDomain").s) else m.spec.failureDomain)
            else InfraError(m, env) == Some(Error(None, false)) && Reconciled(m, env).spec == m.spec
  {
    var v := ReadyStep(m, env, f);
    CopiedSpecIs(m.spec, v, f);
  }

  /** The addresses are copied as soon as there is a provider ID, each element as far as it is readable. */
  lemma ReadyAddressesAreCopied(m: MachineValue, env: Env, f: Fields)
    requires AdoptedReady(m, env, f)
    ensures if HasNonEmpty(f, "spec", "providerID") && Has(f, "status", "addresses") && At(f, "status", "addresses").Arr?
            then AddressesFrom(At(f, "status", "addresses").items, m.status.addresses, Reconciled(m, env).status.addresses)
            else Reconciled(m, env).status.addresses == m.status.addresses
  {
    var v := ReadyStep(m, env, f);
    if v.addresses.Found? {
      DecodedIsFrom(m.status.addresses, v.addresses.v);
    }
  }

  predicate Copyable(f: Fields) {
    && HasNonEmpty(f, "spec", "providerID") && AddressesReadable(f)
    && (HasText(f, "spec", "failureDomain") || NullOrLacks(f, "spec", "failureDomain"))
  }

  lemma CopiedSpecIs(s: SpecValue, v: InfraView, f: Fields)
    requires IsView(v, f)
    ensures CopyError(v) == if Copyable(f) then None else Some(Error(None, false))
    ensures CopiedSpec(s, v)
         == if !Copyable(f) then s
            else s.(providerID := Some(At(f, "spec", "providerID").s),
                    failureDomain := if HasText(f, "spec", "failureDomain") then Some(At(f, "spec", "failureDomain").s)
                                     else s.failureDomain)
  {
    if v.addresses.Found? {
      ReadableExactlyWhen(f);
    }
  }

  lemma ReadyStep(m: MachineValue, env: Env, f: Fields) returns (v: InfraView)
    requires AdoptedReady(m, env, f)
    ensures IsView(v, f)
    ensures Reconciled(m, env).spec == CopiedSpec(m.spec, v) && InfraError(m, env) == CopyError(v)
    ensures Reconciled(m, env).status.addresses == (if NonEmpty(v.providerID).Some? && v.addresses.Found?
                                                    then DecodedInto(m.status.addresses, v.addresses.v) else m.status.addresses)
  {
    AdoptedIsRead(m, env, f);
    v := Fetch(WithFinalizer(m).meta, env).view;
    ReconciledFields(m, env);
    FollowedReady(WithFinalizer(m), m.spec.infrastructureRef.value, v, env.wait);
  }

  lemma FollowedReady(m: MachineValue, ref: ObjectReference, v: InfraView, wait: int)
    requires !v.failureReason.Malformed? && !v.failureMessage.Malformed? && !v.deleting && v.ready == Found(true)
    ensures var out := FollowExternal(m, ref, Fetched(v), wait);
            && out.m.spec == CopiedSpec(m.spec, v) && out.error == CopyError(v)
            && out.m.status.addresses == (if NonEmpty(v.providerID).Some? && v.addresses.Found?
                                          then DecodedInto(m.status.addresses, v.addresses.v) else m.status.addresses)
  {
  }

  lemma DecodedIsFrom(before: seq<MachineAddress>, items: seq<Json>)
    ensures AddressesFrom(items, before, DecodedInto(before, items))
  {
  }

  lemma ReadableExactlyWhen(f: Fields)
    requires Has(f, "status", "addresses") && At(f, "status", "addresses").Arr?
    ensures AddressesReadable(f) <==> AllDecode(At(f, "status", "addresses").items)
  {
    var items := At(f, "status", "addresses").items;
    forall i | 0 <= i < |items|
      ensures Decodes(items[i]) <==> items[i].Null? || (TextOrNull(items[i], "type") && TextOrNull(items[i], "address"))
    {
    }
    if !AllDecode(items) {
      var j :| j in items && !Decodes(j);
      var i :| 0 <= i < |items| && items[i] == j;
    }
  }

  // The node reference, the phase, the errors

  /** The first node in the list that carries the provider ID. */
  predicate IsFirst(nodes: seq<Node>, i: nat, id: string)
    requires i < |nodes|
  {
    nodes[i].providerID == id && forall j | 0 <= j < i :: nodes[j].providerID != id
  }

  /** A Machine without a node reference gets one if and only if it has a provider ID and a listed node
      carries it: that of the first such node, with its version. Without such a node the reconcile asks for
      a requeue after a second. */
  lemma NodeReferenceExactlyWhen(m: MachineValue, env: Env)
    requires m.status.nodeRef.None?
    ensures var r, id := Reconciled(m, env), Reconciled(m, env).spec.providerID;
            && (r.status.nodeRef.Some? <==>
                  id.Some? && env.nodes.Nodes? && exists i | 0 <= i < |env.nodes.items| :: env.nodes.items[i].providerID == id.value)
            && (id.Some? && env.nodes.Nodes? ==>
                  forall i | 0 <= i < |env.nodes.items| && IsFirst(env.nodes.items, i, id.value) ::
                    var n := env.nodes.items[i];
                    && r.status.nodeRef == Some(ObjectReference(n.kind, n.apiVersion, n.name, n.namespace))
                    && r.status.version == Some(n.version) && NodeError(m, env) == None)
            && (r.status.nodeRef.None? ==>
                  r.status.version == m.status.version
                  && NodeError(m, env) == if id.None? then None
                                          else if env.nodes.NodesRefused? then Some(env.nodes.error)
                                          else Some(Error(Some(1), false)))
  {
    var m0 := WithFinalizer(m);
    var infra := InfraStep(m0, env).m;
    InfraProgress(m0, env);
    KeepsVersion(m0, env);
    ReconciledFields(m, env);
    if infra.spec.providerID.Some? && env.nodes.Nodes? {
      NodeForFirst(env.nodes.items, infra.spec.providerID.value);
      FirstNodeIs(env.nodes.items, infra.spec.providerID.value);
    }
  }

  lemma KeepsVersion(m: MachineValue, env: Env)
    ensures InfraStep(m, env).m.status.version == m.status.version && InfraStep(m, env).m.status.nodeRef == m.status.nodeRef
  {
    if m.spec.infrastructureRef.Some? {
      FollowExternalKeeps(m, m.spec.infrastructureRef.value, Fetch(m.meta, env), env.wait);
    }
  }

  lemma FirstNodeIs(nodes: seq<Node>, id: string)
    ensures forall i | 0 <= i < |nodes| && IsFirst(nodes, i, id) :: NodeFor(nodes, id) == Some(nodes[i])
    ensures NodeFor(nodes, id).Some? <==> exists i | 0 <= i < |nodes| :: nodes[i].providerID == id
  {
    NodeForFirst(nodes, id);
    if NodeFor(nodes, id).None? {
      assert forall i | 0 <= i < |nodes| :: nodes[i] in nodes;
    } else {
      var n := NodeFor(nodes, id).value;
      var k :| 0 <= k < |nodes| && nodes[k] == n && n.providerID == id && forall j | 0 <= j < k :: nodes[j].providerID != id;
      forall i | 0 <= i < |nodes| && IsFirst(nodes, i, id)
        ensures nodes[i] == n
      {
        assert !(i < k) && !(k < i);
      }
    }
  }

  /** A node reference that is set is left alone, without looking at the nodes. */
  lemma NodeReferenceStays(m: MachineValue, env: Env)
    requires m.status.nodeRef.Some?
    ensures Reconciled(m, env).status.nodeRef == m.status.nodeRef && Reconciled(m, env).status.version == m.status.version
    ensures NodeError(m, env) == None
  {
    var m0 := WithFinalizer(m);
    InfraProgress(m0, env);
    KeepsVersion(m0, env);
  }

  /** A failure makes the Machine Failed, else a node reference makes it Running, else it is Pending at
      first. */
  lemma PhaseIs(m: MachineValue, env: Env)
    ensures var r := Reconciled(m, env);
            r.status.phase == if m.meta.deletionTimestamp.Some? then Terminating
                              else if r.status.failureReason.Some? || r.status.failureMessage.Some? then Failed
                              else if r.status.nodeRef.Some? then Running
                              else if m.status.phase == Unset then Pending else m.status.phase
  {
    ReconcileProgress(m, env);
  }

  /** What the reconcile returns of the two inner errors. */
  lemma ReturnedIs(m: MachineValue, env: Env)
    ensures var a, b, r := InfraError(m, env), NodeError(m, env), ReturnedBy(m, env);
            && r.requeueAfter == (if a.Some? && a.value.requeueAfter.Some? then a.value.requeueAfter
                                  else if b.Some? then b.value.requeueAfter else None)
            && r.errors == (if a.Some? && a.value.requeueAfter.None? then [a.value] else [])
                           + (if b.Some? && b.value.requeueAfter.None? then [b.value] else [])
  {
    var errs := [InfraError(m, env), NodeError(m, env)];
    assert errs[1..] == [errs[1]] && errs[1..][1..] == [];
    assert PlainErrors(errs[1..]) == if errs[1].Some? && !AsksRequeue(errs[1]) then [errs[1].value] else [];
    FirstOfTwo(errs[0], errs[1]);
  }

  lemma FirstOfTwo(a: Option<Error>, b: Option<Error>)
    ensures FirstRequeue([a, b]) == if AsksRequeue(a) then a.value.requeueAfter
                                    else if AsksRequeue(b) then b.value.requeueAfter else None
  {
    assert [a, b][..1] == [a] && [a][..0] == [];
  }

  /** A refused patch is reported exactly if a write was due and refused, and there is no other error. */
  lemma PatchErrorExactlyWhen(before: Fields, after: Fields, resourceOk: bool, statusOk: bool, errors: seq<Error>)
    ensures Reported(errors, Failures(before, after, resourceOk, statusOk)).PatchRefused?
            <==> && errors == []
                 && ((before - {"status"} != after - {"status"} && !resourceOk)
                     || (Member(before, "status") != Member(after, "status") && !statusOk))
    ensures errors != [] ==> Reported(errors, Failures(before, after, resourceOk, statusOk)) == Inner(errors)
  {
  }
}

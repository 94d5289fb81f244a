/** What one reconcile of a Machine that is not being deleted does, as a function of the Machine and
    of the answers its API calls get. */
module Reconciling {
  import opened Wrappers
  import opened Json
  import opened MachineApi
  import opened PatchHelper

  /** An error: whether it asks for a requeue, and whether its text contains "could not find". */
  datatype Error = Error(requeueAfter: Option<int>, couldNotFind: bool)

  const PLAIN := Error(None, false)

  datatype Node = Node(kind: string, apiVersion: string, name: string, namespace: string,
                       providerID: string, version: string)

  datatype InfraAnswer = Got(fields: Fields) | Missing | InfraRefused(error: Error)
  datatype NodesAnswer = Nodes(items: seq<Node>) | NodesRefused(error: Error)

  /** The answers of the API calls one reconcile makes. */
  datatype Env = Env(
    wait: int, infra: InfraAnswer, infraWrite: Option<Error>, watch: Option<Error>, nodes: NodesAnswer)

  // Reading an unstructured object: a value, nothing, or a value of the wrong type.

  datatype Read<+T> = Found(v: T) | Absent | Malformed

  function Nested(j: Json, path: seq<string>): Read<Json>
    decreases |path|
  {
    if path == [] then Found(j)
    else if j.Null? then Absent
    else if !j.Obj? then Malformed
    else if path[0] !in j.fields then Absent
    else Nested(j.fields[path[0]], path[1..])
  }

  function NestedString(f: Fields, path: seq<string>): Read<string> {
    match Nested(Obj(f), path)
    case Found(Str(s)) => Found(s)
    case Found(_) => Malformed
    case Absent => Absent
    case Malformed => Malformed
  }

  function NestedBool(f: Fields, path: seq<string>): Read<bool> {
    match Nested(Obj(f), path)
    case Found(Bool(b)) => Found(b)
    case Found(_) => Malformed
    case Absent => Absent
    case Malformed => Malformed
  }

  /** UnstructuredUnmarshalField into a string: null counts as not found. */
  function UnmarshalString(f: Fields, path: seq<string>): Read<string> {
    match Nested(Obj(f), path)
    case Found(Str(s)) => Found(s)
    case Found(Null) => Absent
    case Found(_) => Malformed
    case Absent => Absent
    case Malformed => Malformed
  }

  /** UnstructuredUnmarshalField of a list: the elements are decoded later, into a slice. */
  function UnmarshalItems(f: Fields, path: seq<string>): Read<seq<Json>> {
    match Nested(Obj(f), path)
    case Found(Arr(items)) => Found(items)
    case Found(Null) => Absent
    case Found(_) => Malformed
    case Absent => Absent
    case Malformed => Malformed
  }

  // Decoding into the elements of a slice. The decoder reuses the elements that are there and leaves in
  // them what the JSON does not give; a value of the wrong type is skipped, and reported at the end.

  function TextOr(j: Json, prior: string): string {
    if j.Str? then j.s else prior
  }

  predicate IsText(j: Json) {
    j.Str? || j.Null?
  }

  function DecodedElement(prior: MachineAddress, j: Json): MachineAddress {
    if !j.Obj? then prior
    else MachineAddress(TextOr(Member(j.fields, "type"), prior.addressType), TextOr(Member(j.fields, "address"), prior.address))
  }

  predicate Decodes(j: Json) {
    j.Null? || (j.Obj? && IsText(Member(j.fields, "type")) && IsText(Member(j.fields, "address")))
  }

  function PriorAt(prior: seq<MachineAddress>, i: nat): MachineAddress {
    if i < |prior| then prior[i] else MachineAddress("", "")
  }

  function DecodedInto(prior: seq<MachineAddress>, items: seq<Json>): seq<MachineAddress> {
    seq(|items|, i requires 0 <= i < |items| => DecodedElement(PriorAt(prior, i), items[i]))
  }

  predicate AllDecode(items: seq<Json>) {
    forall j <- items :: Decodes(j)
  }

  /** All that the reconciler reads from an external object. */
  datatype InfraView = InfraView(
    deleting: bool, failureReason: Read<string>, failureMessage: Read<string>, ready: Read<bool>,
    providerID: Read<string>, addresses: Read<seq<Json>>, failureDomain: Read<string>)

  function View(f: Fields): InfraView {
    InfraView(
      NestedString(f, ["metadata", "deletionTimestamp"]).Found?,
      NestedString(f, ["status", "failureReason"]), NestedString(f, ["status", "failureMessage"]),
      NestedBool(f, ["status", "ready"]),
      UnmarshalString(f, ["spec", "providerID"]), UnmarshalItems(f, ["status", "addresses"]),
      UnmarshalString(f, ["spec", "failureDomain"]))
  }

  // Owner references of an external object.

  function GroupOf(apiVersion: string): string {
    if '/' !in apiVersion then "" else UpTo('/', apiVersion)
  }

  function UpTo(c: char, s: string): string {
    if s == [] || s[0] == c then [] else [s[0]] + UpTo(c, s[1..])
  }

  function OwnerReference(m: Meta): Json {
    Obj(map["apiVersion" := Str("machine.crit.sh/v1alpha1"), "kind" := Str("Machine"), "name" := Str(m.name),
            "uid" := Str(m.uid), "controller" := Bool(true), "blockOwnerDeletion" := Bool(true)])
  }

  function Text(j: Json): string {
    if j.Str? then j.s else ""
  }

  /** Two references name the same object: same group, kind and name. */
  predicate SameObject(a: Json, b: Json) {
    var f, g := FieldsOf(a), FieldsOf(b);
    && GroupOf(Text(Member(f, "apiVersion"))) == GroupOf(Text(Member(g, "apiVersion")))
    && Text(Member(f, "kind")) == Text(Member(g, "kind"))
    && Text(Member(f, "name")) == Text(Member(g, "name"))
  }

  predicate IsController(r: Json) {
    Member(FieldsOf(r), "controller") == Bool(true)
  }

  function OwnerReferences(f: Fields): seq<Json> {
    match Nested(Obj(f), ["metadata", "ownerReferences"])
    case Found(Arr(items)) => items
    case _ => []
  }

  /** The last index of a reference to the same object as `owner`, or -1. */
  function LastSame(refs: seq<Json>, owner: Json): (i: int)
    ensures -1 <= i < |refs|
    ensures i >= 0 ==> SameObject(owner, refs[i])
    ensures forall j | i < j < |refs| :: !SameObject(owner, refs[j])
  {
    if refs == [] then -1
    else if SameObject(owner, refs[|refs| - 1]) then |refs| - 1
    else LastSame(refs[..|refs| - 1], owner)
  }

  /** The references with `owner` in place of the last one to the same object, or at the end. */
  function PutOwner(refs: seq<Json>, owner: Json): seq<Json> {
    var i := LastSame(refs, owner);
    if i < 0 then refs + [owner] else refs[i := owner]
  }

  predicate ForeignController(refs: seq<Json>, owner: Json) {
    exists r <- refs :: !SameObject(owner, r) && IsController(r)
  }

  /** SetControllerReference: refused when another object controls this one already. */
  function SetControllerReference(m: Meta, f: Fields): Option<Fields> {
    SetController(OwnerReference(m), f)
  }

  function SetController(owner: Json, f: Fields): Option<Fields> {
    var refs := OwnerReferences(f);
    if ForeignController(refs, owner) then None else Some(WithOwnerReferences(f, PutOwner(refs, owner)))
  }

  // reconcileExternal

  /** How the calls of reconcileExternal end: an early error, or an object to read from. */
  datatype Fetched = FetchFailed(error: Error) | Fetched(view: InfraView)

  /** Get, set the controller reference, patch, watch. */
  function Fetch(m: Meta, env: Env): Fetched {
    match env.infra
    case Missing => FetchFailed(Error(Some(env.wait), true))
    case InfraRefused(e) => FetchFailed(e)
    case Got(f) =>
      match SetControllerReference(m, f)
      case None => FetchFailed(PLAIN)
      case Some(owned) =>
        if ResourceDiffers(f, owned) && env.infraWrite.Some? then FetchFailed(env.infraWrite.value)
        else if env.watch.Some? then FetchFailed(env.watch.value)
        else Fetched(View(owned))
  }

  /** The write reconcileExternal issues to the external object. */
  function OwnerWrites(m: Meta, env: Env): seq<Write> {
    if !env.infra.Got? || SetControllerReference(m, env.infra.fields).None? then []
    else Writes(false, env.infra.fields, SetControllerReference(m, env.infra.fields).value)
  }

  /** The external object as stored after that write; `stored` may differ from what was read. */
  function OwnerStored(m: Meta, env: Env, stored: Fields): Fields {
    if !env.infra.Got? || SetControllerReference(m, env.infra.fields).None? then stored
    else
      var ok := env.infraWrite.None?;
      Patched(false, env.infra.fields, SetControllerReference(m, env.infra.fields).value, stored, ok, ok)
  }

  function ExternalWrites(m: MachineValue, env: Env): seq<Write> {
    if m.spec.infrastructureRef.None? then [] else OwnerWrites(m.meta, env)
  }

  function ExternalStored(m: MachineValue, env: Env, stored: Fields): Fields {
    if m.spec.infrastructureRef.None? then stored else OwnerStored(m.meta, env, stored)
  }

  function ReferenceText(r: ObjectReference): string {
    r.apiVersion + ", Kind=" + r.kind
  }

  function FailureText(r: ObjectReference, message: string): string {
    "Failure detected from referenced resource " + ReferenceText(r) + " with name \"" + r.name + "\": " + message
  }

  function LostText(r: ObjectReference): string {
    "Machine infrastructure resource " + ReferenceText(r) + " with name \"" + r.name
    + "\" has been deleted after being ready"
  }

  function NonEmpty(r: Read<string>): Option<string> {
    match r
    case Found(v) => if v == "" then None else Some(v)
    case _ => None
  }

  /** The failure fields of the external object, copied unless one has the wrong type. */
  function WithFailures(s: StatusValue, ref: ObjectReference, v: InfraView): StatusValue {
    if v.failureReason.Malformed? || v.failureMessage.Malformed? then s
    else
      s.(failureReason := if NonEmpty(v.failureReason).Some? then NonEmpty(v.failureReason) else s.failureReason,
         failureMessage := if NonEmpty(v.failureMessage).Some?
                           then Some(FailureText(ref, NonEmpty(v.failureMessage).value)) else s.failureMessage)
  }

  function ExternalError(fetched: Fetched): Option<Error> {
    match fetched
    case FetchFailed(e) => Some(e)
    case Fetched(v) => if v.failureReason.Malformed? || v.failureMessage.Malformed? then Some(PLAIN) else None
  }

  function ExternalStatus(s: StatusValue, ref: ObjectReference, fetched: Fetched): StatusValue {
    if fetched.Fetched? then WithFailures(s, ref, fetched.view) else s
  }

  // reconcileInfrastructure

  datatype Outcome = Outcome(m: MachineValue, error: Option<Error>)

  /** The status after the external object turned out to be gone. */
  function NoteLost(s: StatusValue, ref: ObjectReference, e: Error): StatusValue {
    if s.infrastructureReady && e.couldNotFind
    then s.(failureReason := Some("InvalidConfiguration"), failureMessage := Some(LostText(ref)))
    else s
  }

  // Copying the fields of a ready object, with its early exits: the addresses are already written, as
  // far as they decode, when they or the failure domain turn out to have the wrong type; the provider
  // ID comes last.

  predicate AddressesFail(v: InfraView) {
    v.addresses.Malformed? || (v.addresses.Found? && !AllDecode(v.addresses.v))
  }

  function CopyError(v: InfraView): Option<Error> {
    if NonEmpty(v.providerID).None? || AddressesFail(v) || v.failureDomain.Malformed? then Some(PLAIN) else None
  }

  function CopiedStatus(s: StatusValue, v: InfraView): StatusValue {
    if NonEmpty(v.providerID).Some? && v.addresses.Found? then s.(addresses := DecodedInto(s.addresses, v.addresses.v)) else s
  }

  function CopiedSpec(s: SpecValue, v: InfraView): SpecValue {
    if CopyError(v).Some? then s
    else s.(failureDomain := if v.failureDomain.Found? then Some(v.failureDomain.v) else s.failureDomain,
            providerID := NonEmpty(v.providerID))
  }

  // What follows when reconcileExternal returned an object.

  predicate CopiesFrom(v: InfraView) {
    !v.deleting && v.ready == Found(true)
  }

  function FollowError(v: InfraView, wait: int): Option<Error> {
    if v.deleting then None
    else if v.ready.Malformed? then Some(PLAIN)
    else if v.ready != Found(true) then Some(Error(Some(wait), false))
    else CopyError(v)
  }

  function FollowedStatus(s: StatusValue, v: InfraView): StatusValue {
    if v.deleting || v.ready.Malformed? then s
    else
      var s1 := s.(infrastructureReady := v.ready == Found(true));
      if s1.infrastructureReady then CopiedStatus(s1, v) else s1
  }

  function FollowedSpec(s: SpecValue, v: InfraView): SpecValue {
    if CopiesFrom(v) then CopiedSpec(s, v) else s
  }

  function FollowExternal(m: MachineValue, ref: ObjectReference, fetched: Fetched, wait: int): Outcome {
    var status := ExternalStatus(m.status, ref, fetched);
    var e := ExternalError(fetched);
    if e.Some? then Outcome(m.(status := NoteLost(status, ref, e.value)), e)
    else Outcome(m.(spec := FollowedSpec(m.spec, fetched.view), status := FollowedStatus(status, fetched.view)),
                 FollowError(fetched.view, wait))
  }

  function InfraStep(m: MachineValue, env: Env): Outcome {
    if m.spec.infrastructureRef.None? then Outcome(m, None)
    else FollowExternal(m, m.spec.infrastructureRef.value, Fetch(m.meta, env), env.wait)
  }

  // reconcileNodeRef and reconcilePhase

  function NodeFor(nodes: seq<Node>, providerID: string): Option<Node> {
    if nodes == [] then None
    else if nodes[0].providerID == providerID then Some(nodes[0])
    else NodeFor(nodes[1..], providerID)
  }

  function RefTo(n: Node): ObjectReference {
    ObjectReference(n.kind, n.apiVersion, n.name, n.namespace)
  }

  function NodeRefStep(m: MachineValue, env: Env): Outcome {
    if m.status.nodeRef.Some? || m.spec.providerID.None? then Outcome(m, None)
    else match env.nodes
         case NodesRefused(e) => Outcome(m, Some(e))
         case Nodes(items) =>
           match NodeFor(items, m.spec.providerID.value)
           case None => Outcome(m, Some(Error(Some(1), false)))
           case Some(n) => Outcome(m.(status := m.status.(nodeRef := Some(RefTo(n)), version := Some(n.version))), None)
  }

  function PhaseOf(m: MachineValue): Phase {
    if m.Deleting() then Terminating
    else if m.status.HasFailure() then Failed
    else if m.status.nodeRef.Some? then Running
    else if m.status.phase == Unset then Pending
    else m.status.phase
  }

  function WithPhase(m: MachineValue): MachineValue {
    m.(status := m.status.(phase := PhaseOf(m)))
  }

  function WithFinalizer(m: MachineValue): MachineValue {
    if MACHINE_FINALIZER in m.meta.finalizers then m
    else m.(meta := m.meta.(finalizers := m.meta.finalizers + [MACHINE_FINALIZER]))
  }

  // Reconcile

  /** The Machine in memory when the deferred patch is computed. */
  function Reconciled(m: MachineValue, env: Env): MachineValue {
    var infra := InfraStep(WithFinalizer(m), env);
    WithPhase(NodeRefStep(infra.m, env).m)
  }

  predicate AsksRequeue(e: Option<Error>) {
    e.Some? && e.value.requeueAfter.Some?
  }

  /** `r` is the requeue time of the first error that asks for one, if any does. */
  predicate IsFirstRequeue(errs: seq<Option<Error>>, r: Option<int>) {
    if r.None? then forall e <- errs :: !AsksRequeue(e)
    else exists i | 0 <= i < |errs| ::
      && AsksRequeue(errs[i]) && errs[i].value.requeueAfter == r
      && forall j | 0 <= j < i :: !AsksRequeue(errs[j])
  }

  function FirstRequeue(errs: seq<Option<Error>>): (r: Option<int>)
    ensures IsFirstRequeue(errs, r)
  {
    if errs == [] then None
    else
      var earlier, last := FirstRequeue(errs[..|errs| - 1]), errs[|errs| - 1];
      if earlier.None? && AsksRequeue(last) then last.value.requeueAfter else earlier
  }

  /** The errors that do not ask for a requeue, in order. */
  function PlainErrors(errs: seq<Option<Error>>): seq<Error> {
    if errs == [] then []
    else if errs[0].Some? && !AsksRequeue(errs[0]) then [errs[0].value] + PlainErrors(errs[1..])
    else PlainErrors(errs[1..])
  }

  /** What the inner reconcilers make Reconcile return. */
  datatype Returned = Returned(requeueAfter: Option<int>, errors: seq<Error>)

  /** The errors of the two inner reconcilers. */
  function InfraError(m: MachineValue, env: Env): Option<Error> {
    InfraStep(WithFinalizer(m), env).error
  }

  function NodeError(m: MachineValue, env: Env): Option<Error> {
    NodeRefStep(InfraStep(WithFinalizer(m), env).m, env).error
  }

  function ReturnedBy(m: MachineValue, env: Env): Returned {
    var errs := [InfraError(m, env), NodeError(m, env)];
    Returned(FirstRequeue(errs), PlainErrors(errs))
  }

  /** The error that Reconcile reports: refused patches only when there is no other. */
  datatype Report = NoError | Inner(errors: seq<Error>) | PatchRefused(failures: nat)

  function Reported(errors: seq<Error>, patchFailures: nat): Report {
    if errors != [] then Inner(errors) else if patchFailures > 0 then PatchRefused(patchFailures) else NoError
  }

  /** The stored Machine when each of the two writes of the patch is accepted or refused. */
  function Halves(before: MachineValue, after: MachineValue, resourceOk: bool, statusOk: bool): MachineValue {
    MachineValue(if resourceOk then after.meta else before.meta,
                 if resourceOk then after.spec else before.spec,
                 if statusOk then after.status else before.status)
  }
}

/** The Machine resource: its value, its JSON form, and the object with pointers that the
    controller changes in place, together with the generated deep copy. */
module MachineApi {
  import opened Wrappers
  import opened Json

  datatype ObjectReference = ObjectReference(kind: string, apiVersion: string, name: string, namespace: string)

  datatype MachineAddress = MachineAddress(addressType: string, address: string)

  datatype Phase = Unset | Pending | Provisioning | Running | Terminating | Unknown | Failed

  const MACHINE_FINALIZER := "machine.crit.sh"
  const CONTROL_PLANE_LABEL := "node-role.kubernetes.io/master"

  datatype Meta = Meta(
    name: string, namespace: string, uid: string, labels: map<string, string>, finalizers: seq<string>,
    creationTimestamp: Option<int>, deletionTimestamp: Option<int>)

  datatype SpecValue = SpecValue(
    configRef: ObjectReference, infrastructureRef: Option<ObjectReference>,
    providerID: Option<string>, failureDomain: Option<string>)

  datatype StatusValue = StatusValue(
    nodeRef: Option<ObjectReference>, lastUpdated: Option<int>, version: Option<string>,
    failureReason: Option<string>, failureMessage: Option<string>,
    phase: Phase, addresses: seq<MachineAddress>, infrastructureReady: bool)
  {
    predicate HasFailure() {
      failureReason.Some? || failureMessage.Some?
    }
  }

  datatype MachineValue = MachineValue(meta: Meta, spec: SpecValue, status: StatusValue) {
    predicate Deleting() {
      meta.deletionTimestamp.Some?
    }

    predicate IsControlPlane() {
      CONTROL_PLANE_LABEL in meta.labels
    }

    predicate RefersTo(node: string) {
      status.nodeRef.Some? && status.nodeRef.value.name == node
    }
  }

  // JSON form. Optional members follow the `omitempty` tags; creationTimestamp is null when unset.

  function PhaseText(p: Phase): string {
    match p
    case Unset => ""
    case Pending => "Pending"
    case Provisioning => "Provisioning"
    case Running => "Running"
    case Terminating => "Terminating"
    case Unknown => "Unknown"
    case Failed => "Failed"
  }

  function OptStr(k: string, o: Option<string>): Fields {
    if o.Some? then map[k := Str(o.value)] else map[]
  }

  function OptNum(k: string, o: Option<int>): Fields {
    if o.Some? then map[k := Num(o.value)] else map[]
  }

  function EncodeRef(r: ObjectReference): Json {
    Obj(map["kind" := Str(r.kind), "apiVersion" := Str(r.apiVersion),
            "name" := Str(r.name), "namespace" := Str(r.namespace)])
  }

  function OptRef(k: string, o: Option<ObjectReference>): Fields {
    if o.Some? then map[k := EncodeRef(o.value)] else map[]
  }

  function EncodeLabels(l: map<string, string>): Json {
    Obj(map k <- l :: Str(l[k]))
  }

  /** The members of all parts; later parts win. */
  function Union(parts: seq<Fields>): Fields {
    if parts == [] then map[] else Union(parts[..|parts| - 1]) + parts[|parts| - 1]
  }

  function MetaMembers(m: Meta): seq<Fields> {
    [map["name" := Str(m.name)], map["namespace" := Str(m.namespace)], map["uid" := Str(m.uid)],
     map["labels" := EncodeLabels(m.labels)],
     map["finalizers" := Arr(seq(|m.finalizers|, i requires 0 <= i < |m.finalizers| => Str(m.finalizers[i])))],
     OptNum("deletionTimestamp", m.deletionTimestamp)]
  }

  function EncodeMeta(m: Meta): Json {
    Obj(Union(MetaMembers(m))["creationTimestamp" :=
          if m.creationTimestamp.Some? then Num(m.creationTimestamp.value) else Null])
  }

  function SpecMembers(s: SpecValue): seq<Fields> {
    [map["configRef" := EncodeRef(s.configRef)], OptRef("infrastructureRef", s.infrastructureRef),
     OptStr("providerID", s.providerID), OptStr("failureDomain", s.failureDomain)]
  }

  function EncodeSpec(s: SpecValue): Json {
    Obj(Union(SpecMembers(s)))
  }

  function EncodeAddress(a: MachineAddress): Json {
    Obj(map["type" := Str(a.addressType), "address" := Str(a.address)])
  }

  function EncodeAddresses(a: seq<MachineAddress>): Fields {
    if a == [] then map[]
    else map["addresses" := Arr(seq(|a|, i requires 0 <= i < |a| => EncodeAddress(a[i])))]
  }

  function StatusMembers(s: StatusValue): seq<Fields> {
    [map["infrastructureReady" := Bool(s.infrastructureReady)], OptRef("nodeRef", s.nodeRef),
     OptNum("lastUpdated", s.lastUpdated), OptStr("version", s.version),
     OptStr("failureReason", s.failureReason), OptStr("failureMessage", s.failureMessage),
     if s.phase == Unset then map[] else map["phase" := Str(PhaseText(s.phase))],
     EncodeAddresses(s.addresses)]
  }

  function EncodeStatus(s: StatusValue): Json {
    Obj(Union(StatusMembers(s)))
  }

  function Encode(m: MachineValue): Fields {
    map["metadata" := EncodeMeta(m.meta), "spec" := EncodeSpec(m.spec), "status" := EncodeStatus(m.status)]
  }

  /** A Go pointer target. */
  class Box<T> {
    var v: T

    constructor (v: T)
      ensures this.v == v
    {
      this.v := v;
    }
  }

  function Deref<T>(b: Box?<T>): Option<T>
    reads b
  {
    if b == null then None else Some(b.v)
  }

  method CopyBox<T>(b: Box?<T>) returns (c: Box?<T>)
    ensures Deref(c) == Deref(b)
    ensures c != null ==> fresh(c)
  {
    if b == null {
      c := null;
    } else {
      c := new Box(b.v);
    }
  }

  function Elements(a: array?<MachineAddress>): seq<MachineAddress>
    reads a
  {
    if a == null then [] else a[..]
  }

  method CopySlice(a: array?<MachineAddress>) returns (c: array?<MachineAddress>)
    ensures Elements(c) == Elements(a)
    ensures c == null <==> a == null
    ensures c != null ==> fresh(c)
  {
    c := null;
    if a != null {
      c := new MachineAddress[a.Length];
      for i := 0 to a.Length
        invariant c != null && fresh(c) && c.Length == a.Length
        invariant c[..i] == a[..i]
      {
        c[i] := a[i];
      }
    }
  }

  /** The MachineSpec struct: a value field and three pointers. */
  class MachineSpec {
    var configRef: ObjectReference
    var infrastructureRef: Box?<ObjectReference>
    var providerID: Box?<string>
    var failureDomain: Box?<string>

    /** What the pointers lead to. */
    ghost function Targets(): set<object?>
      reads this
    {
      {infrastructureRef as object?, providerID, failureDomain}
    }

    function Value(): SpecValue
      reads this, infrastructureRef, providerID, failureDomain
    {
      SpecValue(configRef, Deref(infrastructureRef), Deref(providerID), Deref(failureDomain))
    }

    constructor ()
      ensures infrastructureRef == null && providerID == null && failureDomain == null
    {
      infrastructureRef, providerID, failureDomain := null, null, null;
    }

    /** A new target for every pointer that is set. */
    method DeepCopyInto(out: MachineSpec)
      requires out != this
      modifies out
      ensures out.Value() == Value()
      ensures NewSpecTargets(out)
    {
      out.configRef := configRef;
      out.infrastructureRef := CopyBox(infrastructureRef);
      out.providerID := CopyBox(providerID);
      out.failureDomain := CopyBox(failureDomain);
    }
  }

  /** No pointer of `s` leads to anything that existed before. */
  twostate predicate NewSpecTargets(new s: MachineSpec)
    reads s
  {
    && (s.infrastructureRef != null ==> fresh(s.infrastructureRef))
    && (s.providerID != null ==> fresh(s.providerID))
    && (s.failureDomain != null ==> fresh(s.failureDomain))
  }

  /** The MachineStatus struct: two value fields, five pointers and a slice. */
  class MachineStatus {
    var nodeRef: Box?<ObjectReference>
    var lastUpdated: Box?<int>
    var version: Box?<string>
    var failureReason: Box?<string>
    var failureMessage: Box?<string>
    var phase: Phase
    var addresses: array?<MachineAddress>
    var infrastructureReady: bool

    /** What the pointers and the slice lead to. */
    ghost function Targets(): set<object?>
      reads this
    {
      {nodeRef as object?, lastUpdated, version, failureReason, failureMessage, addresses}
    }

    function Value(): StatusValue
      reads this, nodeRef, lastUpdated, version, failureReason, failureMessage, addresses
    {
      StatusValue(Deref(nodeRef), Deref(lastUpdated), Deref(version), Deref(failureReason), Deref(failureMessage),
                  phase, Elements(addresses), infrastructureReady)
    }

    constructor ()
      ensures nodeRef == null && lastUpdated == null && version == null
      ensures failureReason == null && failureMessage == null && addresses == null
    {
      nodeRef, lastUpdated, version, failureReason, failureMessage := null, null, null, null, null;
      addresses := null;
    }

    /** A new target for every pointer that is set and a new backing array for the slice. */
    method DeepCopyInto(out: MachineStatus)
      requires out != this
      modifies out
      ensures out.Value() == Value()
      ensures NewStatusTargets(out)
      ensures out.addresses == null <==> addresses == null
    {
      CopyNodeFields(out);
      CopyFailureFields(out);
      out.phase, out.infrastructureReady := phase, infrastructureReady;
    }

    method CopyNodeFields(out: MachineStatus)
      requires out != this
      modifies out`nodeRef, out`lastUpdated, out`version
      ensures Deref(out.nodeRef) == Deref(nodeRef) && (out.nodeRef != null ==> fresh(out.nodeRef))
      ensures Deref(out.lastUpdated) == Deref(lastUpdated) && (out.lastUpdated != null ==> fresh(out.lastUpdated))
      ensures Deref(out.version) == Deref(version) && (out.version != null ==> fresh(out.version))
    {
      out.nodeRef := CopyBox(nodeRef);
      out.lastUpdated := CopyBox(lastUpdated);
      out.version := CopyBox(version);
    }

    method CopyFailureFields(out: MachineStatus)
      requires out != this
      modifies out`failureReason, out`failureMessage, out`addresses
      ensures Deref(out.failureReason) == Deref(failureReason) && (out.failureReason != null ==> fresh(out.failureReason))
      ensures Deref(out.failureMessage) == Deref(failureMessage) && (out.failureMessage != null ==> fresh(out.failureMessage))
      ensures Elements(out.addresses) == Elements(addresses) && (out.addresses != null ==> fresh(out.addresses))
      ensures out.addresses == null <==> addresses == null
    {
      out.failureReason := CopyBox(failureReason);
      out.failureMessage := CopyBox(failureMessage);
      out.addresses := CopySlice(addresses);
    }
  }

  /** No pointer of `s`, nor its slice, leads to anything that existed before. */
  twostate predicate NewStatusTargets(new s: MachineStatus)
    reads s
  {
    && (s.nodeRef != null ==> fresh(s.nodeRef))
    && (s.lastUpdated != null ==> fresh(s.lastUpdated))
    && (s.version != null ==> fresh(s.version))
    && (s.failureReason != null ==> fresh(s.failureReason))
    && (s.failureMessage != null ==> fresh(s.failureMessage))
    && (s.addresses != null ==> fresh(s.addresses))
  }

  /** The Machine struct; the two embedded structs are objects it always owns. */
  class Machine {
    var meta: Meta
    const spec: MachineSpec
    const status: MachineStatus

    /** Everything that an in-place change can reach through the Machine. */
    ghost function Reach(): set<object?>
      reads spec, status
    {
      {this, spec, status} + spec.Targets() + status.Targets()
    }

    function Value(): MachineValue
      reads this, spec, spec.infrastructureRef, spec.providerID, spec.failureDomain
      reads status, status.nodeRef, status.lastUpdated, status.version
      reads status.failureReason, status.failureMessage, status.addresses
    {
      MachineValue(meta, spec.Value(), status.Value())
    }

    constructor ()
      ensures fresh(spec) && fresh(status)
    {
      spec := new MachineSpec();
      status := new MachineStatus();
    }

    /** An equal value that shares nothing with the original. */
    method DeepCopy() returns (out: Machine)
      ensures out.Value() == Value()
      ensures fresh(out) && New(out)
    {
      out := new Machine();
      out.meta := meta;
      spec.DeepCopyInto(out.spec);
      status.DeepCopyInto(out.status);
    }
  }

  /** `m` and everything an in-place change can reach through it are new. */
  twostate predicate New(new m: Machine)
    reads m, m.spec, m.status
  {
    fresh(m) && fresh(m.spec) && fresh(m.status) && NewSpecTargets(m.spec) && NewStatusTargets(m.status)
  }

  /** No object of `others` can be reached through `m`. */
  ghost predicate Outside(m: Machine, others: set<object>)
    reads m.spec, m.status
  {
    && m !in others && m.spec !in others && m.status !in others
    && m.spec.infrastructureRef !in others && m.spec.providerID !in others && m.spec.failureDomain !in others
    && m.status.nodeRef !in others && m.status.lastUpdated !in others && m.status.version !in others
    && m.status.failureReason !in others && m.status.failureMessage !in others && m.status.addresses !in others
  }
}

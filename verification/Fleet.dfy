/** Many Machines reconciled in any interleaving: no two of them ever refer to the same node. */
module Fleet {
  import opened Wrappers
  import opened Json
  import opened MachineApi
  import opened PatchHelper
  import opened Reconciling
  import opened Deleting
  import opened Idempotence
  import opened MachineRuns

  /** The stored Machines by their identity. */
  type Machines = map<string, MachineValue>

  datatype FleetStep = Create(key: string, m: MachineValue) | Act(key: string, step: Step)

  function FleetNext(f: Machines, s: FleetStep): Machines {
    match s
    case Create(k, m) => if k in f then f else f[k := m]
    case Act(k, step) =>
      if k !in f then f
      else match Next(Present(f[k]), step)
           case Present(m) => f[k := m]
           case Gone => f - {k}
  }

  function FleetAfter(f: Machines, steps: seq<FleetStep>): Machines
    decreases |steps|
  {
    if steps == [] then f else FleetAfter(FleetNext(f, steps[0]), steps[1..])
  }

  predicate NoneOr(o: Option<string>, v: string) {
    o.None? || o.value == v
  }

  /** Provider IDs are stable: whoever says what the provider ID of Machine `k` is, says `pid(k)`, and
      whoever lists a node called `n` lists it with `nodeId(n)`. */
  predicate Stable(s: FleetStep, pid: string -> string, nodeId: string -> string) {
    match s
    case Create(k, m) => Fresh(m) && NoneOr(m.spec.providerID, pid(k))
    case Act(k, Reconcile(env, _, _)) =>
      && (env.nodes.Nodes? ==> forall n <- env.nodes.items :: n.providerID == nodeId(n.name))
      && (env.infra.Got? ==> NoneOr(NonEmpty(UnmarshalString(env.infra.fields, ["spec", "providerID"])), pid(k)))
    case Act(k, EditSpec(spec)) => NoneOr(spec.providerID, pid(k))
    case _ => true
  }

  predicate Linked(m: MachineValue, id: string, nodeId: string -> string) {
    NoneOr(m.spec.providerID, id) && (m.status.nodeRef.Some? ==> nodeId(m.status.nodeRef.value.name) == id)
  }

  /** Taking ownership of the external object does not change the provider ID it shows. */
  lemma OwnedProviderID(f: Fields, refs: seq<Json>)
    ensures UnmarshalString(WithOwnerReferences(f, refs), ["spec", "providerID"])
            == UnmarshalString(f, ["spec", "providerID"])
  {
    var g := WithOwnerReferences(f, refs);
    assert ("spec" in g) == ("spec" in f) && ("spec" in f ==> g["spec"] == f["spec"]);
    assert Nested(Obj(g), ["spec", "providerID"])
        == if "spec" in g then Nested(g["spec"], ["spec", "providerID"][1..]) else Absent;
  }

  lemma FollowedProviderID(m: MachineValue, ref: ObjectReference, fetched: Fetched, wait: int, id: string)
    requires NoneOr(m.spec.providerID, id)
    requires fetched.Fetched? ==> NoneOr(NonEmpty(fetched.view.providerID), id)
    ensures NoneOr(FollowExternal(m, ref, fetched, wait).m.spec.providerID, id)
  {
  }

  lemma InfraStepLinks(m: MachineValue, env: Env, id: string)
    requires NoneOr(m.spec.providerID, id)
    requires env.infra.Got? ==> NoneOr(NonEmpty(UnmarshalString(env.infra.fields, ["spec", "providerID"])), id)
    ensures NoneOr(InfraStep(m, env).m.spec.providerID, id)
  {
    if m.spec.infrastructureRef.Some? {
      if env.infra.Got? {
        OwnedProviderID(env.infra.fields, PutOwner(OwnerReferences(env.infra.fields), OwnerReference(m.meta)));
      }
      FetchedProviderID(m.meta, env, id);
      FollowedProviderID(m, m.spec.infrastructureRef.value, Fetch(m.meta, env), env.wait, id);
    }
  }

  lemma FetchedProviderID(m: Meta, env: Env, id: string)
    requires env.infra.Got? ==> NoneOr(NonEmpty(UnmarshalString(env.infra.fields, ["spec", "providerID"])), id)
    ensures Fetch(m, env).Fetched? ==> NoneOr(NonEmpty(Fetch(m, env).view.providerID), id)
  {
    if Fetch(m, env).Fetched? {
      var f := env.infra.fields;
      var owned := SetControllerReference(m, f).value;
      OwnedProviderID(f, PutOwner(OwnerReferences(f), OwnerReference(m)));
      assert Fetch(m, env).view.providerID == UnmarshalString(owned, ["spec", "providerID"]);
    }
  }

  lemma ReconcileLinks(m: MachineValue, env: Env, id: string, nodeId: string -> string)
    requires Linked(m, id, nodeId)
    requires env.nodes.Nodes? ==> forall n <- env.nodes.items :: n.providerID == nodeId(n.name)
    requires env.infra.Got? ==> NoneOr(NonEmpty(UnmarshalString(env.infra.fields, ["spec", "providerID"])), id)
    ensures Linked(Reconciled(m, env), id, nodeId)
  {
    var m0 := WithFinalizer(m);
    var infra := InfraStep(m0, env).m;
    InfraStepLinks(m0, env, id);
    InfraProgress(m0, env);
    NodeRefStepKeeps(infra, env);
    var node := NodeRefStep(infra, env).m;
    if infra.status.nodeRef.None? && node.status.nodeRef.Some? {
      NodeForFirst(env.nodes.items, infra.spec.providerID.value);
    }
    assert Linked(node, id, nodeId);
    assert Reconciled(m, env) == WithPhase(node);
  }

  lemma StepLinks(m: MachineValue, k: string, step: Step, pid: string -> string, nodeId: string -> string)
    requires Linked(m, pid(k), nodeId) && Stable(Act(k, step), pid, nodeId)
    ensures Next(Present(m), step).Present? ==> Linked(Next(Present(m), step).m, pid(k), nodeId)
  {
    if step.Reconcile? && !m.Deleting() {
      ReconcileLinks(m, step.env, pid(k), nodeId);
    }
  }

  lemma {:induction false} RunLinks(f: Machines, steps: seq<FleetStep>, pid: string -> string, nodeId: string -> string)
    requires forall k <- f :: Linked(f[k], pid(k), nodeId)
    requires forall s <- steps :: Stable(s, pid, nodeId)
    ensures forall k <- FleetAfter(f, steps) :: Linked(FleetAfter(f, steps)[k], pid(k), nodeId)
    decreases |steps|
  {
    if steps != [] {
      var s := steps[0];
      assert s in steps && Stable(s, pid, nodeId);
      if s.Act? && s.key in f {
        StepLinks(f[s.key], s.key, s.step, pid, nodeId);
      }
      RunLinks(FleetNext(f, s), steps[1..], pid, nodeId);
    }
  }

  /** With provider IDs distinct, node references are injective after every run. */
  lemma NodeRefsInjective(steps: seq<FleetStep>, pid: string -> string, nodeId: string -> string, a: string, b: string)
    requires forall s <- steps :: Stable(s, pid, nodeId)
    requires pid(a) == pid(b) ==> a == b
    ensures var f := FleetAfter(map[], steps);
            a != b && a in f && b in f && f[a].status.nodeRef.Some? && f[b].status.nodeRef.Some?
            ==> f[a].status.nodeRef.value.name != f[b].status.nodeRef.value.name
  {
    RunLinks(map[], steps, pid, nodeId);
  }
}

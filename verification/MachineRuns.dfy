/** Whole runs of one Machine and of a fleet: reconciles with arbitrary answers and refused writes,
    deletions, and edits by users, in any order. Reconciles of one Machine are serialised and read the
    stored object; those of different Machines interleave. */
module MachineRuns {
  import opened Wrappers
  import opened MachineApi
  import opened Reconciling
  import opened Deleting
  import opened Idempotence

  datatype Step =
    | Reconcile(env: Env, resourceOk: bool, statusOk: bool)
    | DeletionReconcile(d: DeleteEnv)
    | MarkDeleted(at: int)
    | EditSpec(spec: SpecValue)
    | EditMeta(labels: map<string, string>, finalizers: seq<string>)

  /** Users cannot write the status; the deletion timestamp is set once. */
  function Next(s: Stored, step: Step): Stored {
    match s
    case Gone => Gone
    case Present(m) =>
      match step
      case Reconcile(env, resourceOk, statusOk) =>
        if m.Deleting() then s else Present(Halves(m, Reconciled(m, env), resourceOk, statusOk))
      case DeletionReconcile(d) => if m.Deleting() then DeleteReconcile(m, d).stored else s
      case MarkDeleted(at) =>
        if m.Deleting() then s else Settle(m.(meta := m.meta.(deletionTimestamp := Some(at))))
      case EditSpec(spec) => Present(m.(spec := spec))
      case EditMeta(labels, finalizers) => Settle(m.(meta := m.meta.(labels := labels, finalizers := finalizers)))
  }

  function After(s: Stored, steps: seq<Step>): Stored
    decreases |steps|
  {
    if steps == [] then s else After(Next(s, steps[0]), steps[1..])
  }

  lemma {:induction false} AfterConcat(s: Stored, a: seq<Step>, b: seq<Step>)
    ensures After(s, a + b) == After(After(s, a), b)
    decreases |a|
  {
    if a == [] {
      assert a + b == b;
    } else {
      assert (a + b)[1..] == a[1..] + b;
      AfterConcat(Next(s, a[0]), a[1..], b);
    }
  }

  // Phases

  function Rank(p: Phase): nat {
    match p
    case Pending => 1
    case Running => 2
    case Failed => 3
    case Terminating => 4
    case _ => 0
  }

  /** The phase says what the rest of the status says. */
  predicate PhaseFits(m: MachineValue) {
    match m.status.phase
    case Unset => m.status.nodeRef.None? && !m.status.HasFailure()
    case Pending => m.status.nodeRef.None? && !m.status.HasFailure()
    case Running => m.status.nodeRef.Some? && !m.status.HasFailure()
    case Failed => m.status.HasFailure()
    case Terminating => m.Deleting()
    case _ => false
  }

  /** `m'` is a later state of the Machine `m`. */
  predicate Progressed(m: MachineValue, m': MachineValue) {
    && Rank(m.status.phase) <= Rank(m'.status.phase)
    && (m.status.failureReason.Some? ==> m'.status.failureReason.Some?)
    && (m.status.failureMessage.Some? ==> m'.status.failureMessage.Some?)
    && (m.status.nodeRef.Some? ==> m'.status.nodeRef == m.status.nodeRef)
    && (m.Deleting() ==> m'.Deleting())
  }

  /** What a reconcile does to failures and to the node reference. */
  lemma ReconcileProgress(m: MachineValue, env: Env)
    ensures var r := Reconciled(m, env);
            && (m.status.failureReason.Some? ==> r.status.failureReason.Some?)
            && (m.status.failureMessage.Some? ==> r.status.failureMessage.Some?)
            && (m.status.nodeRef.Some? ==> r.status.nodeRef == m.status.nodeRef)
            && r.meta.deletionTimestamp == m.meta.deletionTimestamp
            && r.status.phase == PhaseOf(r.(status := r.status.(phase := m.status.phase)))
  {
    var m0 := WithFinalizer(m);
    var infra := InfraStep(m0, env).m;
    InfraProgress(m0, env);
    NodeRefStepKeeps(infra, env);
    var node := NodeRefStep(infra, env).m;
    assert Reconciled(m, env) == WithPhase(node);
    assert node.status.phase == m.status.phase;
  }

  lemma InfraProgress(m: MachineValue, env: Env)
    ensures var r := InfraStep(m, env).m;
            && (m.status.failureReason.Some? ==> r.status.failureReason.Some?)
            && (m.status.failureMessage.Some? ==> r.status.failureMessage.Some?)
            && r.status.nodeRef == m.status.nodeRef && r.status.phase == m.status.phase && r.meta == m.meta
  {
    if m.spec.infrastructureRef.Some? {
      FollowExternalKeeps(m, m.spec.infrastructureRef.value, Fetch(m.meta, env), env.wait);
    }
  }

  lemma ReconcileKeepsFit(m: MachineValue, env: Env)
    requires PhaseFits(m) && !m.Deleting()
    ensures PhaseFits(Reconciled(m, env)) && Progressed(m, Reconciled(m, env))
  {
    ReconcileProgress(m, env);
  }

  lemma StepKeepsFit(s: Stored, step: Step)
    requires s.Present? && PhaseFits(s.m)
    ensures Next(s, step).Present? ==> PhaseFits(Next(s, step).m) && Progressed(s.m, Next(s, step).m)
  {
    if step.Reconcile? && !s.m.Deleting() {
      ReconcileKeepsFit(s.m, step.env);
    }
  }

  lemma {:induction false} RunKeepsFit(s: Stored, steps: seq<Step>)
    requires s.Present? ==> PhaseFits(s.m)
    ensures After(s, steps).Present? ==> s.Present? && PhaseFits(After(s, steps).m) && Progressed(s.m, After(s, steps).m)
    decreases |steps|
  {
    if steps != [] && s.Present? {
      StepKeepsFit(s, steps[0]);
      RunKeepsFit(Next(s, steps[0]), steps[1..]);
    } else if steps != [] {
      RunKeepsFit(Next(s, steps[0]), steps[1..]);
    }
  }

  predicate Fresh(m: MachineValue) {
    m.status == StatusValue(None, None, None, None, None, Unset, [], false)
  }

  /** Over every run from a fresh Machine: at any two moments the phases fit the rest of the status,
      the later phase does not rank below the earlier one, failures stay and so does the node reference. */
  lemma PhaseNeverDrops(m: MachineValue, earlier: seq<Step>, later: seq<Step>)
    requires Fresh(m)
    ensures var s1, s2 := After(Present(m), earlier), After(Present(m), earlier + later);
            s2.Present? ==> s1.Present? && PhaseFits(s1.m) && PhaseFits(s2.m) && Progressed(s1.m, s2.m)
  {
    RunKeepsFit(Present(m), earlier);
    AfterConcat(Present(m), earlier, later);
    RunKeepsFit(After(Present(m), earlier), later);
  }

  /** Infrastructure that disappears after it was ready fails the Machine for good. */
  lemma LostInfrastructureFailsForGood(m: MachineValue, env: Env, resourceOk: bool, later: seq<Step>)
    requires PhaseFits(m) && !m.Deleting()
    requires m.status.infrastructureReady && m.spec.infrastructureRef.Some? && env.infra.Missing?
    ensures Next(Present(m), Reconcile(env, resourceOk, true)).m.status.phase == Failed
    ensures var s := After(Present(m), [Reconcile(env, resourceOk, true)] + later);
            s.Present? ==> s.m.status.HasFailure() && (s.m.status.phase == Failed || s.m.status.phase == Terminating)
  {
    var s1 := Next(Present(m), Reconcile(env, resourceOk, true));
    StepKeepsFit(Present(m), Reconcile(env, resourceOk, true));
    ReconcileProgress(m, env);
    assert Reconciled(m, env).status.failureReason.Some?;
    assert ([Reconcile(env, resourceOk, true)] + later)[1..] == later;
    RunKeepsFit(s1, later);
  }

  // Node references

  function NodeRefOf(s: Stored): Option<ObjectReference> {
    if s.Present? then s.m.status.nodeRef else None
  }

  /** How often a run changes the node reference of a Machine that exists afterwards. */
  function NodeRefWrites(s: Stored, steps: seq<Step>): nat
    decreases |steps|
  {
    if steps == [] then 0
    else
      var s' := Next(s, steps[0]);
      (if s'.Present? && NodeRefOf(s') != NodeRefOf(s) then 1 else 0) + NodeRefWrites(s', steps[1..])
  }

  lemma {:induction false} NodeRefWrittenOnce(s: Stored, steps: seq<Step>)
    ensures NodeRefWrites(s, steps) <= if NodeRefOf(s).Some? then 0 else 1
    decreases |steps|
  {
    if steps != [] {
      var s' := Next(s, steps[0]);
      if s.Present? && steps[0].Reconcile? && !s.m.Deleting() {
        ReconcileProgress(s.m, steps[0].env);
      }
      assert s'.Present? && NodeRefOf(s).Some? ==> NodeRefOf(s') == NodeRefOf(s);
      if s'.Gone? {
        GoneStaysGone(steps[1..]);
      } else {
        NodeRefWrittenOnce(s', steps[1..]);
      }
    }
  }

  lemma {:induction false} GoneStaysGone(steps: seq<Step>)
    ensures NodeRefWrites(Gone, steps) == 0
  {
    if steps != [] {
      GoneStaysGone(steps[1..]);
    }
  }

  /** The node chosen is the first listed one with the provider ID. */
  lemma {:induction false} NodeForFirst(nodes: seq<Node>, providerID: string)
    ensures match NodeFor(nodes, providerID)
            case None => forall n <- nodes :: n.providerID != providerID
            case Some(n) => exists i :: 0 <= i < |nodes| && nodes[i] == n && n.providerID == providerID
                                        && forall j | 0 <= j < i :: nodes[j].providerID != providerID
  {
    if nodes != [] && nodes[0].providerID != providerID {
      NodeForFirst(nodes[1..], providerID);
      match NodeFor(nodes[1..], providerID)
      case None =>
      case Some(n) =>
        var i :| 0 <= i < |nodes[1..]| && nodes[1..][i] == n && n.providerID == providerID
                 && forall j | 0 <= j < i :: nodes[1..][j].providerID != providerID;
        assert nodes[i + 1] == n;
        assert forall j | 0 <= j < i + 1 :: nodes[j].providerID != providerID by {
          assert forall j | 1 <= j < i + 1 :: nodes[j] == nodes[1..][j - 1];
        }
    }
  }

  /** A node reference that a reconcile sets names a listed node with the Machine's provider ID. */
  lemma AssignedNodeHasProviderID(m: MachineValue, env: Env)
    requires m.status.nodeRef.None? && Reconciled(m, env).status.nodeRef.Some?
    ensures env.nodes.Nodes?
    ensures exists n <- env.nodes.items ::
              && Reconciled(m, env).status.nodeRef == Some(RefTo(n))
              && Reconciled(m, env).status.version == Some(n.version)
              && Reconciled(m, env).spec.providerID == Some(n.providerID)
  {
    var m0 := WithFinalizer(m);
    if m.spec.infrastructureRef.Some? {
      FollowExternalKeeps(m0, m.spec.infrastructureRef.value, Fetch(m0.meta, env), env.wait);
    }
    var infra := InfraStep(m0, env).m;
    NodeForFirst(env.nodes.items, infra.spec.providerID.value);
  }
}

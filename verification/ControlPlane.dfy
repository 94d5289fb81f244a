/** The guard that keeps the last control-plane node: what it ensures over any sequence of deletions,
    and what it does not. Deletion reconciles are atomic here: the code takes no lock. */
module ControlPlane {
  import opened Wrappers
  import opened MachineApi
  import opened Reconciling
  import opened Deleting

  /** The stored Machines by identity, and the names of the nodes that exist. */
  datatype Cluster = Cluster(machines: map<string, MachineValue>, nodes: set<string>)

  /** `listed` is what listing the Machines of a namespace returns, in some order: each of them once, with
      its labels. What it shows besides may be older or newer than what is stored. */
  ghost predicate IsListing(listed: seq<MachineValue>, machines: map<string, MachineValue>, namespace: string) {
    exists keys: seq<string> :: ListsKeys(listed, machines, namespace, keys)
  }

  ghost predicate ListsKeys(listed: seq<MachineValue>, machines: map<string, MachineValue>, namespace: string, keys: seq<string>) {
    && |keys| == |listed|
    && (forall i | 0 <= i < |keys| :: keys[i] in machines && listed[i].meta.namespace == machines[keys[i]].meta.namespace == namespace
                                     && listed[i].meta.labels == machines[keys[i]].meta.labels)
    && (forall i, j | 0 <= i < j < |keys| :: keys[i] != keys[j])
    && (forall k <- machines | machines[k].meta.namespace == namespace :: k in keys)
  }

  datatype ClusterStep = Mark(key: string, at: int) | Delete(key: string, d: DeleteEnv)

  /** The nodes a deletion reconcile removes. */
  function RemovedNodes(events: seq<Event>): set<string> {
    set e <- events | e.NodeDeleteIssued? && e.answer == NodeDeleted :: e.node
  }

  function Store(c: Cluster, k: string, s: Stored): map<string, MachineValue> {
    if s.Present? then c.machines[k := s.m] else c.machines - {k}
  }

  function ClusterNext(c: Cluster, s: ClusterStep): Cluster {
    if s.key !in c.machines then c
    else
      var m := c.machines[s.key];
      match s
      case Mark(k, at) =>
        if m.Deleting() then c
        else c.(machines := Store(c, k, Settle(m.(meta := m.meta.(deletionTimestamp := Some(at))))))
      case Delete(k, d) =>
        if !m.Deleting() then c
        else
          var out := DeleteReconcile(m, d);
          Cluster(Store(c, k, out.stored), c.nodes - RemovedNodes(out.events))
  }

  /** An atomic deletion whose finalizer update succeeds: the guard sees the Machines as they are. */
  ghost predicate Atomic(c: Cluster, s: ClusterStep) {
    s.Delete? && s.key in c.machines ==>
      && s.d.finalizerWrite.None?
      && (s.d.machines.Listed? ==> IsListing(s.d.machines.machines, c.machines, c.machines[s.key].meta.namespace))
  }

  /** The listing that shows the phase the reconcile has just written is one of these. */
  lemma OwnPhaseWriteIsListed(listed: seq<MachineValue>, machines: map<string, MachineValue>, k: string, namespace: string)
    requires k in machines && IsListing(listed, machines[k := Terminated(machines[k])], namespace)
    ensures IsListing(listed, machines, namespace)
  {
    var keys: seq<string> :| ListsKeys(listed, machines[k := Terminated(machines[k])], namespace, keys);
    assert ListsKeys(listed, machines, namespace, keys);
  }

  // Counting control-plane Machines

  lemma {:induction false} NoControlPlane(ms: seq<MachineValue>)
    ensures ControlPlane(ms) == [] <==> forall m <- ms :: !m.IsControlPlane()
  {
    if ms != [] {
      NoControlPlane(ms[1..]);
    }
  }

  /** Next to a control-plane Machine, the count differs from one exactly when there is another. */
  lemma {:induction false} AnotherControlPlane(ms: seq<MachineValue>, i: nat)
    requires i < |ms| && ms[i].IsControlPlane()
    ensures |ControlPlane(ms)| != 1 <==> exists j :: 0 <= j < |ms| && j != i && ms[j].IsControlPlane()
    ensures |ControlPlane(ms)| >= 1
  {
    var rest := ms[1..];
    NoControlPlane(rest);
    if i == 0 {
      if exists m <- rest :: m.IsControlPlane() {
        var j :| 0 <= j < |rest| && rest[j].IsControlPlane();
        assert ms[j + 1].IsControlPlane();
      } else {
        assert forall j | 0 < j < |ms| :: ms[j] == rest[j - 1];
      }
    } else {
      AnotherControlPlane(rest, i - 1);
      if ms[0].IsControlPlane() {
      } else if |ControlPlane(rest)| != 1 {
        var j :| 0 <= j < |rest| && j != i - 1 && rest[j].IsControlPlane();
        assert ms[j + 1].IsControlPlane();
      } else {
        assert forall j | 0 < j < |ms| :: ms[j] == rest[j - 1];
      }
    }
  }

  predicate IsMember(m: MachineValue, namespace: string) {
    m.IsControlPlane() && m.meta.namespace == namespace
  }

  /** Another control-plane Machine of `k`'s namespace is stored. */
  predicate HasPeer(machines: map<string, MachineValue>, k: string, namespace: string) {
    exists o <- machines :: o != k && IsMember(machines[o], namespace)
  }

  /** The guard refuses a control-plane Machine exactly when it is the only one of its namespace. */
  lemma GuardSeesOthers(listed: seq<MachineValue>, c: Cluster, k: string, m: MachineValue)
    requires k in c.machines && IsListing(listed, c.machines, c.machines[k].meta.namespace)
    requires c.machines[k].IsControlPlane() && m.IsControlPlane() && m.status.nodeRef.Some?
    ensures GuardRefusal(m, listed).None? <==> HasPeer(c.machines, k, c.machines[k].meta.namespace)
  {
    var keys: seq<string> :| ListsKeys(listed, c.machines, c.machines[k].meta.namespace, keys);
    CountSeesPeers(listed, c.machines, c.machines[k].meta.namespace, keys, k);
  }

  lemma CountSeesPeers(listed: seq<MachineValue>, machines: map<string, MachineValue>, namespace: string,
                       keys: seq<string>, k: string)
    requires ListsKeys(listed, machines, namespace, keys)
    requires k in machines && IsMember(machines[k], namespace)
    ensures |ControlPlane(listed)| != 1 <==> HasPeer(machines, k, namespace)
  {
    var i :| 0 <= i < |keys| && keys[i] == k;
    AnotherControlPlane(listed, i);
    if HasPeer(machines, k, namespace) {
      var o :| o in machines && o != k && IsMember(machines[o], namespace);
      var j :| 0 <= j < |keys| && keys[j] == o;
      assert listed[j].IsControlPlane();
    }
    if j :| 0 <= j < |listed| && j != i && listed[j].IsControlPlane() {
      assert keys[j] != k by {
        assert j < i || i < j;
      }
      assert IsMember(machines[keys[j]], namespace);
    }
  }

  // Safety

  predicate OnlyOurs(m: MachineValue) {
    forall f <- m.meta.finalizers :: f == MACHINE_FINALIZER
  }

  predicate DistinctNodeRefs(c: Cluster) {
    forall a <- c.machines, b <- c.machines | a != b && c.machines[a].status.nodeRef.Some? ::
      !c.machines[b].RefersTo(c.machines[a].status.nodeRef.value.name)
  }

  /** Every control-plane Machine of the namespace has a node, it exists, and it is one of `members`. */
  predicate MembersAlive(c: Cluster, namespace: string, members: set<string>) {
    forall k <- c.machines | IsMember(c.machines[k], namespace) ::
      && c.machines[k].status.nodeRef.Some?
      && c.machines[k].status.nodeRef.value.name in c.nodes * members
  }

  /** Some member node exists and will stay: a Machine of the control plane is left to guard it, or no
      Machine refers to it any more. */
  ghost predicate Guarded(c: Cluster, namespace: string, members: set<string>) {
    || (exists k <- c.machines :: IsMember(c.machines[k], namespace))
    || (exists n <- c.nodes * members :: forall k <- c.machines :: !c.machines[k].RefersTo(n))
  }

  ghost predicate Safe(c: Cluster, namespace: string, members: set<string>) {
    && (forall k <- c.machines :: OnlyOurs(c.machines[k]))
    && DistinctNodeRefs(c) && MembersAlive(c, namespace, members) && Guarded(c, namespace, members)
  }

  lemma {:induction false} WithoutOnly(s: seq<string>, x: string)
    requires forall f <- s :: f == x
    ensures Without(s, x) == []
  {
    if s != [] {
      assert s[0] in s && forall f <- s[1..] :: f in s;
      WithoutOnly(s[1..], x);
    }
  }

  /** What an atomic deletion does to a Machine with no foreign finalizer. */
  lemma DeletionOutcome(m: MachineValue, d: DeleteEnv)
    requires m.Deleting() && OnlyOurs(m) && d.finalizerWrite.None?
    ensures var out := DeleteReconcile(m, d);
            && (out.stored == Gone || out.stored == Present(m) || out.stored == Present(Terminated(m)))
            && RemovedNodes(out.events) <= (if m.status.nodeRef.Some? then {m.status.nodeRef.value.name} else {})
            && (RemovedNodes(out.events) != {} ==>
                  out.stored == Gone && d.machines.Listed? && GuardRefusal(m, d.machines.machines).None?)
  {
    var out := DeleteReconcile(m, d);
    WithoutOnly(m.meta.finalizers, MACHINE_FINALIZER);
    RemovedIsNode(m, d);
    if RemovedNodes(out.events) != {} {
      GoneWithNode(m, d);
    }
  }

  lemma RemovedIsNode(m: MachineValue, d: DeleteEnv)
    ensures RemovedNodes(DeleteReconcile(m, d).events)
         <= (if m.status.nodeRef.Some? then {m.status.nodeRef.value.name} else {})
    ensures RemovedNodes(DeleteReconcile(m, d).events) != {} ==>
              exists e <- DeleteReconcile(m, d).events :: e.NodeDeleteIssued?
  {
    DeletionOrder(m, d);
  }

  lemma GoneWithNode(m: MachineValue, d: DeleteEnv)
    requires m.Deleting() && d.finalizerWrite.None? && Without(m.meta.finalizers, MACHINE_FINALIZER) == []
    requires exists e <- DeleteReconcile(m, d).events :: e.NodeDeleteIssued?
    ensures DeleteReconcile(m, d).stored == Gone && d.machines.Listed? && GuardRefusal(m, d.machines.machines).None?
  {
    NodeDeletedExactlyWhen(m, d);
  }

  lemma StepKeepsSafe(c: Cluster, s: ClusterStep, namespace: string, members: set<string>)
    requires Safe(c, namespace, members) && Atomic(c, s)
    ensures Safe(ClusterNext(c, s), namespace, members)
  {
    if s.key in c.machines {
      var m := c.machines[s.key];
      if s.Mark? && !m.Deleting() {
        ChangeKeepsSafe(c, s.key, Settle(m.(meta := m.meta.(deletionTimestamp := Some(s.at)))), {}, namespace, members);
      } else if s.Delete? && m.Deleting() {
        var out := DeleteReconcile(m, s.d);
        DeletionOutcome(m, s.d);
        if RemovedNodes(out.events) != {} && IsMember(m, namespace) {
          GuardSeesOthers(s.d.machines.machines, c, s.key, m);
        }
        ChangeKeepsSafe(c, s.key, out.stored, RemovedNodes(out.events), namespace, members);
      }
    }
  }

  /** One Machine is kept or goes, taking its node along only if another member is left. */
  lemma ChangeKeepsSafe(c: Cluster, k: string, s: Stored, removed: set<string>, namespace: string, members: set<string>)
    requires Safe(c, namespace, members) && k in c.machines
    requires s.Present? ==> s.m.meta.namespace == c.machines[k].meta.namespace && s.m.meta.labels == c.machines[k].meta.labels
                            && s.m.meta.finalizers == c.machines[k].meta.finalizers
                            && s.m.status.nodeRef == c.machines[k].status.nodeRef
    requires forall n <- removed :: c.machines[k].RefersTo(n)
    requires removed != {} ==> s.Gone?
    requires removed != {} && IsMember(c.machines[k], namespace) ==>
               HasPeer(c.machines, k, namespace)
    ensures Safe(Cluster(Store(c, k, s), c.nodes - removed), namespace, members)
  {
    var c' := Cluster(Store(c, k, s), c.nodes - removed);
    assert forall o <- c'.machines | o != k :: o in c.machines && c'.machines[o] == c.machines[o];
    forall o | o in c'.machines && IsMember(c'.machines[o], namespace)
      ensures c'.machines[o].status.nodeRef.Some? && c'.machines[o].status.nodeRef.value.name in c'.nodes * members
    {
      assert IsMember(c.machines[o], namespace);
      assert o != k ==> !c.machines[k].RefersTo(c.machines[o].status.nodeRef.value.name);
    }
    ChangeKeepsGuarded(c, k, s, removed, namespace, members);
  }

  lemma ChangeKeepsGuarded(c: Cluster, k: string, s: Stored, removed: set<string>, namespace: string, members: set<string>)
    requires Safe(c, namespace, members) && k in c.machines
    requires s.Present? ==> s.m.meta.namespace == c.machines[k].meta.namespace && s.m.meta.labels == c.machines[k].meta.labels
                            && s.m.status.nodeRef == c.machines[k].status.nodeRef
    requires forall n <- removed :: c.machines[k].RefersTo(n)
    requires removed != {} ==> s.Gone?
    requires removed != {} && IsMember(c.machines[k], namespace) ==>
               HasPeer(c.machines, k, namespace)
    ensures Guarded(Cluster(Store(c, k, s), c.nodes - removed), namespace, members)
  {
    var c' := Cluster(Store(c, k, s), c.nodes - removed);
    if HasPeer(c.machines, k, namespace) {
      var o :| o in c.machines && o != k && IsMember(c.machines[o], namespace);
      assert o in c'.machines && IsMember(c'.machines[o], namespace);
    } else if IsMember(c.machines[k], namespace) {
      if s.Present? {
        assert IsMember(c'.machines[k], namespace);
      } else {
        var n := c.machines[k].status.nodeRef.value.name;
        assert n in c'.nodes * members && forall o <- c'.machines :: !c'.machines[o].RefersTo(n);
      }
    } else {
      var n :| n in c.nodes * members && forall o <- c.machines :: !c.machines[o].RefersTo(n);
      assert n !in removed;
      assert n in c'.nodes * members && forall o <- c'.machines :: !c'.machines[o].RefersTo(n);
    }
  }

  ghost predicate AtomicRun(c: Cluster, steps: seq<ClusterStep>)
    decreases |steps|
  {
    steps == [] || (Atomic(c, steps[0]) && AtomicRun(ClusterNext(c, steps[0]), steps[1..]))
  }

  function ClusterAfter(c: Cluster, steps: seq<ClusterStep>): Cluster
    decreases |steps|
  {
    if steps == [] then c else ClusterAfter(ClusterNext(c, steps[0]), steps[1..])
  }

  lemma {:induction false} RunKeepsSafe(c: Cluster, steps: seq<ClusterStep>, namespace: string, members: set<string>)
    requires Safe(c, namespace, members) && AtomicRun(c, steps)
    ensures Safe(ClusterAfter(c, steps), namespace, members)
    decreases |steps|
  {
    if steps != [] {
      StepKeepsSafe(c, steps[0], namespace, members);
      RunKeepsSafe(ClusterNext(c, steps[0]), steps[1..], namespace, members);
    }
  }

  /** The nodes of the namespace's control plane. */
  function MemberNodes(c: Cluster, namespace: string): set<string> {
    set k <- c.machines | IsMember(c.machines[k], namespace) && c.machines[k].status.nodeRef.Some? ::
      c.machines[k].status.nodeRef.value.name
  }

  /** No sequence of deletions, of Machines of any namespace, removes the last of the nodes that the
      namespace's control plane had at the start, provided that each of its Machines had one. */
  lemma ControlPlaneSurvives(c: Cluster, steps: seq<ClusterStep>, namespace: string)
    requires exists k <- c.machines :: IsMember(c.machines[k], namespace)
    requires MembersAlive(c, namespace, MemberNodes(c, namespace)) && DistinctNodeRefs(c)
    requires forall k <- c.machines :: OnlyOurs(c.machines[k])
    requires AtomicRun(c, steps)
    ensures ClusterAfter(c, steps).nodes * MemberNodes(c, namespace) != {}
  {
    var members := MemberNodes(c, namespace);
    RunKeepsSafe(c, steps, namespace, members);
    var c' := ClusterAfter(c, steps);
    if k :| k in c'.machines && IsMember(c'.machines[k], namespace) {
      assert c'.machines[k].status.nodeRef.value.name in c'.nodes * members;
    } else {
      var n :| n in c'.nodes * members && forall k <- c'.machines :: !c'.machines[k].RefersTo(n);
    }
  }

  // What the guard does not see: it counts Machines, not nodes.

  /** Another control-plane Machine of the namespace has a node that exists. */
  predicate HasLivePeer(c: Cluster, k: string, namespace: string) {
    exists o <- c.machines :: o != k && IsMember(c.machines[o], namespace) && c.machines[o].status.nodeRef.Some?
                              && c.machines[o].status.nodeRef.value.name in c.nodes
  }

  lemma LiveNodesWithout(c: Cluster, k: string, namespace: string, node: string)
    requires k in c.machines && c.machines[k].RefersTo(node) && DistinctNodeRefs(c)
    ensures (c.nodes - {node}) * MemberNodes(c, namespace) != {} <==> HasLivePeer(c, k, namespace)
  {
    var rest := (c.nodes - {node}) * MemberNodes(c, namespace);
    if HasLivePeer(c, k, namespace) {
      var o :| o in c.machines && o != k && IsMember(c.machines[o], namespace) && c.machines[o].status.nodeRef.Some?
               && c.machines[o].status.nodeRef.value.name in c.nodes;
      assert c.machines[o].status.nodeRef.value.name in rest;
    }
    if rest != {} {
      var n :| n in rest;
      var o :| o in c.machines && IsMember(c.machines[o], namespace) && c.machines[o].RefersTo(n);
      assert o != k;
    }
  }

  /** On the Machines as they are, the guard keeps exactly the last node of the control plane, if and
      only if the Machine has no peer at all or a peer whose node exists. */
  lemma GuardCountsNodesExactlyWhen(listed: seq<MachineValue>, c: Cluster, k: string)
    requires k in c.machines && IsListing(listed, c.machines, c.machines[k].meta.namespace) && DistinctNodeRefs(c)
    requires c.machines[k].IsControlPlane() && c.machines[k].status.nodeRef.Some?
    ensures var m := c.machines[k];
            var without := (c.nodes - {m.status.nodeRef.value.name}) * MemberNodes(c, m.meta.namespace);
            (GuardRefusal(m, listed).Some? <==> without == {})
            <==> (HasPeer(c.machines, k, m.meta.namespace) ==> HasLivePeer(c, k, m.meta.namespace))
  {
    var m := c.machines[k];
    GuardSeesOthers(listed, c, k, m);
    LiveNodesWithout(c, k, m.meta.namespace, m.status.nodeRef.value.name);
  }

  /** The first attempt to delete the node that is not refused deletes it. */
  predicate NodeDeleteSucceeds(attempts: seq<NodeDelete>) {
    exists i | 0 <= i < |attempts| :: attempts[i] == NodeDeleted && forall j | 0 <= j < i :: attempts[j] == NodeDeleteRefused
  }

  lemma {:induction false} PollDeletesExactlyWhen(node: string, attempts: seq<NodeDelete>)
    ensures NodeDeleteIssued(node, NodeDeleted) in Poll(node, attempts) <==> NodeDeleteSucceeds(attempts)
  {
    if attempts != [] {
      var rest := attempts[1..];
      PollDeletesExactlyWhen(node, rest);
      if attempts[0].NodeDeleteRefused? {
        if NodeDeleteSucceeds(rest) {
          var i :| 0 <= i < |rest| && rest[i] == NodeDeleted && forall j | 0 <= j < i :: rest[j] == NodeDeleteRefused;
          assert attempts[i + 1] == NodeDeleted && forall j | 1 <= j < i + 1 :: attempts[j] == rest[j - 1];
        }
        if NodeDeleteSucceeds(attempts) {
          var i :| 0 <= i < |attempts| && attempts[i] == NodeDeleted && forall j | 0 <= j < i :: attempts[j] == NodeDeleteRefused;
          assert rest[i - 1] == NodeDeleted && forall j | 0 <= j < i - 1 :: rest[j] == attempts[j + 1];
        }
      }
    }
  }

  /** With these answers the reconcile removes the Machine's node, if the guard lets it. */
  predicate RemovesNode(m: MachineValue, d: DeleteEnv) {
    && (m.status.phase == Terminating || d.phaseWrite.None?) && m.status.nodeRef.Some? && d.machines.Listed?
    && DrainError(d).None? && InfraDeleteError(d).None? && NodeDeleteSucceeds(d.attempts)
  }

  /** The nodes that leave: the Machine's, if the poll is reached and deletes it. */
  lemma NodeRemovedExactlyWhen(m: MachineValue, d: DeleteEnv)
    ensures RemovedNodes(DeleteReconcile(m, d).events)
         == if RemovesNode(m, d) && GuardRefusal(m, d.machines.machines).None? then {m.status.nodeRef.value.name} else {}
  {
    var events := DeleteReconcile(m, d).events;
    RemovedIsNode(m, d);
    if exists e <- events :: e.NodeDeleteIssued? {
      NodeDeletedExactlyWhen(m, d);
      DeletedIsPolled(m, d, m.status.nodeRef.value.name);
    } else if RemovesNode(m, d) {
      NodeDeletedExactlyWhen(m, d);
    }
  }

  lemma DeletedIsPolled(m: MachineValue, d: DeleteEnv, node: string)
    requires m.status.nodeRef.Some? && node == m.status.nodeRef.value.name
    requires (m.status.phase == Terminating || d.phaseWrite.None?) && d.machines.Listed?
    requires GuardRefusal(m, d.machines.machines).None? && DrainError(d).None? && InfraDeleteError(d).None?
    ensures node in RemovedNodes(DeleteReconcile(m, d).events) <==> NodeDeleteSucceeds(d.attempts)
  {
    var e, events := NodeDeleteIssued(node, NodeDeleted), DeleteReconcile(m, d).events;
    NodeDeletionShape(Terminated(m), d);
    PollDeletesExactlyWhen(node, d.attempts);
    var steps := DeleteSteps(Terminated(m), d).events;
    InConcat([GuardPassed, Drained(node), InfraEvent(d)], Poll(node, d.attempts), e);
    assert e in events <==> e in steps;
    assert node in RemovedNodes(events) <==> e in events;
  }

  lemma InConcat(a: seq<Event>, b: seq<Event>, e: Event)
    ensures e in a + b <==> e in a || e in b
  {
  }

  /** The guard as the reconcile meets it: with its answers good, the node goes exactly if a peer is stored. */
  lemma NodesAfterDelete(c: Cluster, k: string, d: DeleteEnv)
    requires k in c.machines && c.machines[k].Deleting() && c.machines[k].IsControlPlane()
    requires d.machines.Listed? ==> IsListing(d.machines.machines, c.machines, c.machines[k].meta.namespace)
    ensures var m := c.machines[k];
            ClusterNext(c, Delete(k, d)).nodes
            == c.nodes - if RemovesNode(m, d) && HasPeer(c.machines, k, m.meta.namespace)
                         then {m.status.nodeRef.value.name} else {}
  {
    var m := c.machines[k];
    NodeRemovedExactlyWhen(m, d);
    if RemovesNode(m, d) {
      GuardSeesOthers(d.machines.machines, c, k, m);
    }
  }

  lemma NoneLeftExactlyWhen(c: Cluster, k: string, namespace: string, node: string, removes: bool)
    requires k in c.machines && DistinctNodeRefs(c) && c.nodes * MemberNodes(c, namespace) != {}
    requires removes ==> c.machines[k].RefersTo(node)
    ensures (c.nodes - if removes then {node} else {}) * MemberNodes(c, namespace) == {}
            <==> removes && !HasLivePeer(c, k, namespace)
  {
    if removes {
      LiveNodesWithout(c, k, namespace, node);
    } else {
      assert c.nodes - {} == c.nodes;
    }
  }

  /** One deletion reconcile of a control-plane Machine takes the control plane from some nodes to none
      exactly when a peer is stored, its calls are answered so that it removes the Machine's node, and no
      peer has a node. */
  lemma LastNodeGoesExactlyWhen(c: Cluster, k: string, d: DeleteEnv)
    requires k in c.machines && c.machines[k].Deleting() && c.machines[k].IsControlPlane() && DistinctNodeRefs(c)
    requires d.machines.Listed? ==> IsListing(d.machines.machines, c.machines, c.machines[k].meta.namespace)
    requires c.nodes * MemberNodes(c, c.machines[k].meta.namespace) != {}
    ensures var m, ns := c.machines[k], c.machines[k].meta.namespace;
            ClusterNext(c, Delete(k, d)).nodes * MemberNodes(c, ns) == {}
            <==> HasPeer(c.machines, k, ns) && !HasLivePeer(c, k, ns) && RemovesNode(m, d)
  {
    var m := c.machines[k];
    var ns := m.meta.namespace;
    NodesAfterDelete(c, k, d);
    NoneLeftExactlyWhen(c, k, ns, if m.status.nodeRef.Some? then m.status.nodeRef.value.name else "",
                        RemovesNode(m, d) && HasPeer(c.machines, k, ns));
  }

  function Member(name: string, finalizers: seq<string>): MachineValue {
    var ref := ObjectReference("Node", "v1", name, "");
    MachineValue(
      Meta(name, "ns", name, map[CONTROL_PLANE_LABEL := ""], finalizers, None, Some(0)),
      SpecValue(ref, None, None, None),
      StatusValue(Some(ref), None, None, None, None, Terminating, [], true))
  }

  function AllGoesWell(listed: seq<MachineValue>, finalizerWrite: Option<Error>): DeleteEnv {
    DeleteEnv(None, Listed(listed), None, NodeFound, true, true, InfraGone, InfraDeleteDone, [NodeDeleted], finalizerWrite)
  }

  const B := Member("b", [MACHINE_FINALIZER])

  function BothNodes(a: MachineValue, nodes: set<string>): Cluster {
    Cluster(map["a" := a, "b" := B], nodes)
  }

  /** A Machine whose node went still counts while its finalizer update is refused, or while a foreign
      finalizer keeps it: the other Machine's deletion is then allowed to remove the last node. */
  lemma NodelessMachineStillCounts(foreign: bool)
    ensures var a := Member("a", [MACHINE_FINALIZER] + if foreign then ["other"] else []);
            var a' := if foreign then Member("a", ["other"]) else a;
            var steps := [Delete("a", AllGoesWell([a, B], if foreign then None else Some(PLAIN))),
                          Delete("b", AllGoesWell([a', B], None))];
            ClusterAfter(BothNodes(a, {"a", "b"}), steps) == Cluster(map["a" := a'], {})
  {
    var a := Member("a", [MACHINE_FINALIZER] + if foreign then ["other"] else []);
    var a' := if foreign then Member("a", ["other"]) else a;
    var d1 := AllGoesWell([a, B], if foreign then None else Some(PLAIN));
    if foreign {
      KeptDeletion(a, a');
    } else {
      assert [MACHINE_FINALIZER] + [] == [MACHINE_FINALIZER];
      RefusedDeletion(a);
    }
    SecondDeletion(a');
    TwoSteps(BothNodes(a, {"a", "b"}), Delete("a", d1), Delete("b", AllGoesWell([a', B], None)));
  }

  lemma RefusedDeletion(a: MachineValue)
    requires a == Member("a", [MACHINE_FINALIZER])
    ensures ClusterNext(BothNodes(a, {"a", "b"}), Delete("a", AllGoesWell([a, B], Some(PLAIN)))) == BothNodes(a, {"b"})
  {
    var c := BothNodes(a, {"a", "b"});
    BothAllowed(a, B);
    AllowedStep(c, "a", AllGoesWell([a, B], Some(PLAIN)));
    assert c.machines["a" := a] == c.machines && c.nodes - {"a"} == {"b"};
  }

  lemma KeptDeletion(a: MachineValue, a': MachineValue)
    requires a == Member("a", [MACHINE_FINALIZER] + ["other"]) && a' == Member("a", ["other"])
    ensures ClusterNext(BothNodes(a, {"a", "b"}), Delete("a", AllGoesWell([a, B], None))) == BothNodes(a', {"b"})
  {
    var c := BothNodes(a, {"a", "b"});
    BothAllowed(a, B);
    WithoutFirst(["other"]);
    AllowedStep(c, "a", AllGoesWell([a, B], None));
    assert c.machines["a" := a'] == BothNodes(a', {"b"}).machines && c.nodes - {"a"} == {"b"};
  }

  lemma SecondDeletion(a: MachineValue)
    requires a.IsControlPlane() && a.status.nodeRef.Some?
    ensures ClusterNext(BothNodes(a, {"b"}), Delete("b", AllGoesWell([a, B], None))) == Cluster(map["a" := a], {})
  {
    var c := BothNodes(a, {"b"});
    BothAllowed(a, B);
    WithoutFirst([]);
    assert [MACHINE_FINALIZER] + [] == [MACHINE_FINALIZER];
    AllowedStep(c, "b", AllGoesWell([a, B], None));
    assert c.machines - {"b"} == map["a" := a] && c.nodes - {"b"} == {};
  }

  lemma TwoSteps(c: Cluster, s: ClusterStep, s': ClusterStep)
    ensures ClusterAfter(c, [s, s']) == ClusterNext(ClusterNext(c, s), s')
  {
    var c' := ClusterNext(c, s);
    assert [s, s'][1..] == [s'] && [s'][1..] == [];
    assert ClusterAfter(c', [s']) == ClusterAfter(ClusterNext(c', s'), []);
  }

  lemma WithoutFirst(rest: seq<string>)
    requires rest == [] || rest == ["other"]
    ensures Without([MACHINE_FINALIZER] + rest, MACHINE_FINALIZER) == rest
  {
    assert ([MACHINE_FINALIZER] + rest)[1..] == rest;
    if rest != [] {
      assert rest[0][0] != MACHINE_FINALIZER[0];
      assert rest[1..] == [] && Without(rest[1..], MACHINE_FINALIZER) == [];
    }
  }

  lemma BothAllowed(a: MachineValue, b: MachineValue)
    requires a.IsControlPlane() && b.IsControlPlane() && a.status.nodeRef.Some? && b.status.nodeRef.Some?
    ensures GuardRefusal(a, [a, b]).None? && GuardRefusal(b, [a, b]).None?
  {
    assert [a, b][1..] == [b] && [b][1..] == [];
    assert ControlPlane([b]) == [b];
  }

  /** What a deletion that the guard allows does when every call succeeds. */
  lemma LastAttempt(m: MachineValue, d: DeleteEnv)
    requires m.status.nodeRef.Some? && m.status.phase == Terminating && d.machines.Listed?
    requires GuardRefusal(m, d.machines.machines).None? && d == AllGoesWell(d.machines.machines, d.finalizerWrite)
    ensures var out := DeleteReconcile(m, d);
            && RemovedNodes(out.events) == {m.status.nodeRef.value.name}
            && out.stored == if d.finalizerWrite.Some? then Present(m)
                             else Settle(m.(meta := m.meta.(finalizers := Without(m.meta.finalizers, MACHINE_FINALIZER))))
  {
    var node := m.status.nodeRef.value.name;
    assert Terminated(m) == m;
    NodeDeletionShape(m, d);
    DeletionOrder(m, d);
    assert Poll(node, d.attempts)[0] == NodeDeleteIssued(node, NodeDeleted);
    assert NodeDeleteIssued(node, NodeDeleted) in DeleteReconcile(m, d).events;
  }

  lemma AllowedStep(c: Cluster, k: string, d: DeleteEnv)
    requires k in c.machines && c.machines[k] == Member(k, c.machines[k].meta.finalizers)
    requires d.machines.Listed? && d == AllGoesWell(d.machines.machines, d.finalizerWrite)
    requires GuardRefusal(c.machines[k], d.machines.machines).None?
    ensures var left := Without(c.machines[k].meta.finalizers, MACHINE_FINALIZER);
            ClusterNext(c, Delete(k, d)) == Cluster(
              if d.finalizerWrite.Some? then c.machines[k := c.machines[k]]
              else if left == [] then c.machines - {k} else c.machines[k := Member(k, left)],
              c.nodes - {k})
  {
    LastAttempt(c.machines[k], d);
  }
}

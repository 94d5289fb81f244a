/** What one deletion reconcile of a Machine does: the effects it has, in order, and how it ends. */
module Deleting {
  import opened Wrappers
  import opened Text
  import opened MachineApi
  import opened Reconciling

  datatype Listing = Listed(machines: seq<MachineValue>) | ListRefused(error: Error)
  datatype NodeGet = NodeFound | NodeGone | NodeGetRefused
  datatype InfraGet = InfraFound | InfraGone | InfraGetRefused(error: Error)
  datatype InfraDelete = InfraDeleteDone | InfraDeleteNotFound | InfraDeleteRefused(error: Error)

  /** One attempt to delete a node; NotFound means that the poll recognised the error as such. */
  datatype NodeDelete = NodeDeleted | NodeNotFound | NodeDeleteRefused

  /** The answers of the API calls one deletion reconcile makes. `attempts` are the answers of the
      node deletions the poll has time for; it makes the first one at once. */
  datatype DeleteEnv = DeleteEnv(
    phaseWrite: Option<Error>, machines: Listing,
    drainClient: Option<Error>, nodeGet: NodeGet, cordonOk: bool, drainOk: bool,
    infraGet: InfraGet, infraDelete: InfraDelete,
    attempts: seq<NodeDelete>, finalizerWrite: Option<Error>)

  datatype Event =
    | PhaseWritten
    | GuardPassed | GuardRefused | GuardFailed
    | Drained(node: string) | DrainFailed(node: string)
    | InfraDeleted | InfraFoundGone | InfraFailed
    | NodeDeleteIssued(node: string, answer: NodeDelete)
    | FinalizerRemoved

  datatype Refusal = NilNodeRef | LastControlPlaneNode

  function ControlPlane(machines: seq<MachineValue>): seq<MachineValue> {
    if machines == [] then []
    else (if machines[0].IsControlPlane() then [machines[0]] else []) + ControlPlane(machines[1..])
  }

  /** isDeleteNodeAllowed: why the node must stay, if it must. */
  function GuardRefusal(m: MachineValue, machines: seq<MachineValue>): Option<Refusal> {
    if m.status.nodeRef.None? then Some(NilNodeRef)
    else if |ControlPlane(machines)| == 1 && m.IsControlPlane() then Some(LastControlPlaneNode)
    else None
  }

  /** drainNode: a node that is gone needs no draining; a failed drain asks for a requeue. */
  function DrainError(d: DeleteEnv): Option<Error> {
    if d.drainClient.Some? then d.drainClient
    else match d.nodeGet
         case NodeGone => None
         case NodeGetRefused => Some(PLAIN)
         case NodeFound =>
           if !d.cordonOk then Some(PLAIN) else if !d.drainOk then Some(Error(Some(20), false)) else None
  }

  /** reconcileDeleteExternal: gone already, before or during the delete, is success. */
  function InfraDeleteError(d: DeleteEnv): Option<Error> {
    match d.infraGet
    case InfraGetRefused(e) => Some(e)
    case InfraGone => None
    case InfraFound => if d.infraDelete.InfraDeleteRefused? then Some(d.infraDelete.error) else None
  }

  function InfraEvent(d: DeleteEnv): Event {
    if InfraDeleteError(d).Some? then InfraFailed
    else if d.infraGet.InfraFound? && d.infraDelete.InfraDeleteDone? then InfraDeleted
    else InfraFoundGone
  }

  /** The node deletions the poll issues: up to the first that is not refused, or all. */
  function Poll(node: string, attempts: seq<NodeDelete>): seq<Event> {
    if attempts == [] then []
    else [NodeDeleteIssued(node, attempts[0])]
         + (if attempts[0].NodeDeleteRefused? then Poll(node, attempts[1..]) else [])
  }

  datatype Ended = Ended(events: seq<Event>, error: Option<Error>)

  function Then(events: seq<Event>, next: Ended): Ended {
    Ended(events + next.events, next.error)
  }

  function DeleteInfraAndNode(node: string, deleteNode: bool, d: DeleteEnv): Ended {
    if InfraDeleteError(d).Some? then Ended([InfraFailed], InfraDeleteError(d))
    else Ended([InfraEvent(d)] + (if deleteNode then Poll(node, d.attempts) else []), None)
  }

  /** reconcileDelete: without a node reference nothing is done, the infrastructure included. */
  function DeleteSteps(m: MachineValue, d: DeleteEnv): Ended {
    if m.status.nodeRef.None? then Ended([], None)
    else
      var node := m.status.nodeRef.value.name;
      match d.machines
      case ListRefused(e) => Ended([GuardFailed], Some(e))
      case Listed(machines) =>
        if GuardRefusal(m, machines).Some? then Then([GuardRefused], DeleteInfraAndNode(node, false, d))
        else if DrainError(d).Some? then Ended([GuardPassed, DrainFailed(node)], DrainError(d))
        else Then([GuardPassed, Drained(node)], DeleteInfraAndNode(node, true, d))
  }

  function Without(s: seq<string>, x: string): seq<string> {
    if s == [] then [] else (if s[0] == x then [] else [s[0]]) + Without(s[1..], x)
  }

  function Terminated(m: MachineValue): MachineValue {
    m.(status := m.status.(phase := Terminating))
  }

  /** A stored Machine; the API server removes it when a deletion leaves no finalizer. */
  datatype Stored = Present(m: MachineValue) | Gone

  function Settle(m: MachineValue): Stored {
    if m.Deleting() && m.meta.finalizers == [] then Gone else Present(m)
  }

  datatype Deletion = Deletion(stored: Stored, events: seq<Event>, error: Option<Error>)

  /** The end of a deletion reconcile of `m`, whose phase is Terminating by now. */
  function Conclude(m: MachineValue, steps: Ended, finalizerWrite: Option<Error>): Deletion {
    if steps.error.Some? then Deletion(Present(m), steps.events, steps.error)
    else if finalizerWrite.Some? then Deletion(Present(m), steps.events, finalizerWrite)
    else Deletion(Settle(m.(meta := m.meta.(finalizers := Without(m.meta.finalizers, MACHINE_FINALIZER)))),
                  steps.events + [FinalizerRemoved], None)
  }

  /** Reconcile of a Machine with a deletion timestamp. */
  function DeleteReconcile(m: MachineValue, d: DeleteEnv): Deletion {
    var first := if m.status.phase == Terminating then [] else [PhaseWritten];
    if first != [] && d.phaseWrite.Some? then Deletion(Present(m), [], d.phaseWrite)
    else
      var rest := Conclude(Terminated(m), DeleteSteps(Terminated(m), d), d.finalizerWrite);
      Deletion(rest.stored, first + rest.events, rest.error)
  }

  // Laws

  /** Every listed deletion of a node comes after guard, drain and infrastructure in this order. */
  predicate NodeDeletesInOrder(events: seq<Event>) {
    forall i | 0 <= i < |events| && events[i].NodeDeleteIssued? ::
      && GuardPassed in events[..i] && Drained(events[i].node) in events[..i]
      && (InfraDeleted in events[..i] || InfraFoundGone in events[..i])
      && GuardRefused !in events && InfraFailed !in events && DrainFailed(events[i].node) !in events
  }

  /** The finalizer goes after the infrastructure. */
  predicate FinalizerAfterInfra(events: seq<Event>) {
    forall i | 0 <= i < |events| && events[i].FinalizerRemoved? ::
      InfraDeleted in events[..i] || InfraFoundGone in events[..i]
  }

  lemma {:induction false} PollIsNodeDeletes(node: string, attempts: seq<NodeDelete>)
    ensures forall e <- Poll(node, attempts) :: e.NodeDeleteIssued? && e.node == node
    ensures attempts != [] ==> NodeDeleteIssued(node, attempts[0]) in Poll(node, attempts)
    ensures forall a :: NodeDeleteIssued(node, a) in Poll(node, attempts) ==> a in attempts
  {
    if attempts != [] && attempts[0].NodeDeleteRefused? {
      PollIsNodeDeletes(node, attempts[1..]);
    }
  }

  /** The events of a deletion that got as far as the node: what precedes the poll, the poll, the rest. */
  lemma NodeDeletionShape(m: MachineValue, d: DeleteEnv)
    requires m.status.nodeRef.Some?
    ensures var node := m.status.nodeRef.value.name;
            var steps := DeleteSteps(m, d);
            if d.machines.Listed? && GuardRefusal(m, d.machines.machines).None? && DrainError(d).None?
               && InfraDeleteError(d).None?
            then steps == Ended([GuardPassed, Drained(node), InfraEvent(d)] + Poll(node, d.attempts), None)
            else forall e <- steps.events :: !e.NodeDeleteIssued? && !e.FinalizerRemoved?
  {
    var node := m.status.nodeRef.value.name;
    assert [GuardPassed, Drained(node)] + ([InfraEvent(d)] + Poll(node, d.attempts))
        == [GuardPassed, Drained(node), InfraEvent(d)] + Poll(node, d.attempts);
  }

  /** In one deletion reconcile, whatever its calls answer, the node is deleted only after the guard
      allowed it, the drain succeeded and the infrastructure was deleted or found gone; and with a node
      reference the finalizer goes only after that infrastructure step. */
  lemma DeletionOrder(m: MachineValue, d: DeleteEnv)
    ensures NodeDeletesInOrder(DeleteReconcile(m, d).events)
    ensures m.status.nodeRef.Some? ==> FinalizerAfterInfra(DeleteReconcile(m, d).events)
    ensures forall e <- DeleteReconcile(m, d).events :: e.NodeDeleteIssued? ==>
              m.status.nodeRef.Some? && e.node == m.status.nodeRef.value.name
  {
    if m.status.nodeRef.None? {
    } else if d.machines.Listed? && GuardRefusal(m, d.machines.machines).None? && DrainError(d).None?
       && InfraDeleteError(d).None? {
      if m.status.phase == Terminating || d.phaseWrite.None? {
        FullDeletion(m, d);
      }
    } else {
      NoNodeDelete(m, d);
    }
  }

  lemma FullDeletion(m: MachineValue, d: DeleteEnv)
    requires m.status.nodeRef.Some? && (m.status.phase == Terminating || d.phaseWrite.None?)
    requires d.machines.Listed? && GuardRefusal(m, d.machines.machines).None? && DrainError(d).None?
             && InfraDeleteError(d).None?
    ensures var events := DeleteReconcile(m, d).events;
            && NodeDeletesInOrder(events) && FinalizerAfterInfra(events)
            && forall e <- events :: e.NodeDeleteIssued? ==> e.node == m.status.nodeRef.value.name
  {
    var node := m.status.nodeRef.value.name;
    NodeDeletionShape(Terminated(m), d);
    var first := if m.status.phase != Terminating then [PhaseWritten] else [];
    var last := if d.finalizerWrite.None? then [FinalizerRemoved] else [];
    var middle := [GuardPassed, Drained(node), InfraEvent(d)];
    assert first + (middle + Poll(node, d.attempts)) == first + middle + Poll(node, d.attempts);
    assert DeleteReconcile(m, d).events == first + middle + Poll(node, d.attempts) + last;
    FullDeletionInOrder(DeleteReconcile(m, d).events, first, node, InfraEvent(d), d.attempts, last);
  }

  lemma FullDeletionInOrder(events: seq<Event>, first: seq<Event>, node: string, infra: Event,
                            attempts: seq<NodeDelete>, last: seq<Event>)
    requires first == [] || first == [PhaseWritten]
    requires last == [] || last == [FinalizerRemoved]
    requires infra == InfraDeleted || infra == InfraFoundGone
    requires events == first + [GuardPassed, Drained(node), infra] + Poll(node, attempts) + last
    ensures NodeDeletesInOrder(events) && FinalizerAfterInfra(events)
    ensures forall e <- events :: e.NodeDeleteIssued? ==> e.node == node
  {
    var lead, rest := first + [GuardPassed, Drained(node), infra], Poll(node, attempts) + last;
    PollIsNodeDeletes(node, attempts);
    assert events == lead + rest;
    assert lead[|first|] == GuardPassed && lead[|first| + 1] == Drained(node) && lead[|first| + 2] == infra;
    LeadThenDeletes(lead, rest, node, infra);
  }

  lemma LeadThenDeletes(lead: seq<Event>, rest: seq<Event>, node: string, infra: Event)
    requires infra == InfraDeleted || infra == InfraFoundGone
    requires GuardPassed in lead && Drained(node) in lead && infra in lead
    requires forall e <- lead :: e == PhaseWritten || e == GuardPassed || e == Drained(node) || e == infra
    requires forall e <- rest :: e == FinalizerRemoved || (e.NodeDeleteIssued? && e.node == node)
    ensures NodeDeletesInOrder(lead + rest) && FinalizerAfterInfra(lead + rest)
    ensures forall e <- lead + rest :: e.NodeDeleteIssued? ==> e.node == node
  {
    var events := lead + rest;
    LeadPrecedes(lead, rest);
    assert forall e <- events :: e in lead || e in rest;
    forall i | 0 <= i < |events| && (events[i].NodeDeleteIssued? || events[i].FinalizerRemoved?)
      ensures i >= |lead| && events[i] in rest
    {
      assert forall k | 0 <= k < |lead| :: lead[k] in lead;
      assert events[i] == rest[i - |lead|];
    }
  }

  /** A node-free lead comes before every later event. */
  lemma LeadPrecedes(lead: seq<Event>, rest: seq<Event>)
    ensures forall i, e | |lead| <= i < |lead + rest| && e in lead :: e in (lead + rest)[..i]
  {
    forall i, e | |lead| <= i < |lead + rest| && e in lead
      ensures e in (lead + rest)[..i]
    {
      var k :| 0 <= k < |lead| && lead[k] == e;
      assert (lead + rest)[..i][k] == e;
    }
  }

  /** Otherwise no node is deleted, and the finalizer goes only after the infrastructure step. */
  lemma NoNodeDelete(m: MachineValue, d: DeleteEnv)
    requires m.status.nodeRef.Some?
    requires !(d.machines.Listed? && GuardRefusal(m, d.machines.machines).None? && DrainError(d).None?
               && InfraDeleteError(d).None?)
    ensures forall e <- DeleteReconcile(m, d).events :: !e.NodeDeleteIssued?
    ensures FinalizerAfterInfra(DeleteReconcile(m, d).events)
  {
    var out := DeleteReconcile(m, d);
    var m1 := Terminated(m);
    NodeDeletionShape(m1, d);
    var first := if m.status.phase != Terminating then [PhaseWritten] else [];
    if FinalizerRemoved in out.events {
      assert DeleteSteps(m1, d).events == [GuardRefused, InfraEvent(d)];
      assert out.events == first + [GuardRefused, InfraEvent(d)] + [FinalizerRemoved];
      LeadPrecedes(first + [GuardRefused, InfraEvent(d)], [FinalizerRemoved]);
    }
  }

  /** Exactly when a deletion reconcile issues a node deletion. */
  lemma NodeDeletedExactlyWhen(m: MachineValue, d: DeleteEnv)
    ensures (exists e <- DeleteReconcile(m, d).events :: e.NodeDeleteIssued?)
            <==> && (m.status.phase == Terminating || d.phaseWrite.None?)
                 && m.status.nodeRef.Some?
                 && d.machines.Listed? && GuardRefusal(m, d.machines.machines).None?
                 && DrainError(d).None? && InfraDeleteError(d).None? && d.attempts != []
  {
    var out := DeleteReconcile(m, d);
    var m1 := Terminated(m);
    if m.status.nodeRef.Some? {
      var node := m.status.nodeRef.value.name;
      NodeDeletionShape(m1, d);
      PollIsNodeDeletes(node, d.attempts);
      if (m.status.phase == Terminating || d.phaseWrite.None?) && d.machines.Listed?
         && GuardRefusal(m, d.machines.machines).None? && DrainError(d).None? && InfraDeleteError(d).None?
         && d.attempts != [] {
        assert NodeDeleteIssued(node, d.attempts[0]) in DeleteSteps(m1, d).events;
        assert NodeDeleteIssued(node, d.attempts[0]) in out.events;
      }
    }
  }

  /** Exactly when the finalizer goes. Without a node reference neither node nor infrastructure is
      looked at; a node that refuses to be deleted does not keep the finalizer. */
  lemma FinalizerRemovedExactlyWhen(m: MachineValue, d: DeleteEnv)
    ensures FinalizerRemoved in DeleteReconcile(m, d).events
            <==> && (m.status.phase == Terminating || d.phaseWrite.None?) && d.finalizerWrite.None?
                 && (m.status.nodeRef.None?
                     || (&& d.machines.Listed? && InfraDeleteError(d).None?
                         && (GuardRefusal(m, d.machines.machines).Some? || DrainError(d).None?)))
    ensures m.status.nodeRef.None? ==>
              forall e <- DeleteReconcile(m, d).events :: e == PhaseWritten || e == FinalizerRemoved
  {
    var m1 := Terminated(m);
    if m.status.nodeRef.Some? {
      NodeDeletionShape(m1, d);
      PollIsNodeDeletes(m.status.nodeRef.value.name, d.attempts);
    }
  }

  /** However the poll for the node deletion goes, the Machine ends up the same. */
  lemma PollDoesNotMatter(m: MachineValue, d: DeleteEnv, attempts: seq<NodeDelete>)
    ensures DeleteReconcile(m, d.(attempts := attempts)).stored == DeleteReconcile(m, d).stored
    ensures DeleteReconcile(m, d.(attempts := attempts)).error == DeleteReconcile(m, d).error
  {
  }

  // The outcome, said of the answers

  lemma {:induction false} ControlPlaneMembers(ms: seq<MachineValue>)
    ensures |ControlPlane(ms)| == 0 <==> forall i | 0 <= i < |ms| :: !ms[i].IsControlPlane()
    ensures |ControlPlane(ms)| == 1 <==> exists i | 0 <= i < |ms| :: IsOnlyMember(ms, i)
  {
    if ms != [] {
      var rest := ms[1..];
      ControlPlaneMembers(rest);
      if ms[0].IsControlPlane() {
        if |ControlPlane(rest)| == 0 {
          assert forall j | 1 <= j < |ms| :: ms[j] == rest[j - 1];
          assert IsOnlyMember(ms, 0);
        }
        if i :| 0 <= i < |ms| && IsOnlyMember(ms, i) {
          assert i == 0;
          assert forall j | 0 <= j < |rest| :: rest[j] == ms[j + 1];
        }
      } else {
        if i :| 0 <= i < |rest| && IsOnlyMember(rest, i) {
          assert forall j | 1 <= j < |ms| :: ms[j] == rest[j - 1];
          assert IsOnlyMember(ms, i + 1);
        }
        if i :| 0 <= i < |ms| && IsOnlyMember(ms, i) {
          assert forall j | 0 <= j < |rest| :: rest[j] == ms[j + 1];
          assert IsOnlyMember(rest, i - 1);
        }
      }
    }
  }

  /** The one control-plane Machine in the list. */
  predicate IsOnlyMember(ms: seq<MachineValue>, i: nat)
    requires i < |ms|
  {
    ms[i].IsControlPlane() && forall j | 0 <= j < |ms| && j != i :: !ms[j].IsControlPlane()
  }

  /** The guard refuses a Machine of the control plane when the list holds one such Machine, and no other
      Machine with a node reference. */
  lemma GuardRefusesExactlyWhen(m: MachineValue, machines: seq<MachineValue>)
    requires m.status.nodeRef.Some?
    ensures GuardRefusal(m, machines).Some?
            <==> m.IsControlPlane() && exists i | 0 <= i < |machines| :: IsOnlyMember(machines, i)
  {
    ControlPlaneMembers(machines);
  }

  // The reconcile goes through these stages, each only if no earlier call failed.

  predicate PhaseStored(m: MachineValue, d: DeleteEnv) {
    m.status.phase == Terminating || d.phaseWrite.None?
  }

  predicate GuardAsked(m: MachineValue, d: DeleteEnv) {
    PhaseStored(m, d) && m.status.nodeRef.Some?
  }

  predicate Allowed(m: MachineValue, d: DeleteEnv) {
    GuardAsked(m, d) && d.machines.Listed?
    && !(m.IsControlPlane() && exists i | 0 <= i < |d.machines.machines| :: IsOnlyMember(d.machines.machines, i))
  }

  predicate DrainSucceeds(d: DeleteEnv) {
    d.drainClient.None? && (d.nodeGet.NodeGone? || (d.nodeGet.NodeFound? && d.cordonOk && d.drainOk))
  }

  /** The infrastructure is asked for when the node need not go, or is drained. */
  predicate InfraAsked(m: MachineValue, d: DeleteEnv) {
    GuardAsked(m, d) && d.machines.Listed? && (Allowed(m, d) ==> DrainSucceeds(d))
  }

  predicate InfraSucceeds(d: DeleteEnv) {
    d.infraGet.InfraGone? || (d.infraGet.InfraFound? && !d.infraDelete.InfraDeleteRefused?)
  }

  predicate FinalizerAsked(m: MachineValue, d: DeleteEnv) {
    PhaseStored(m, d) && (m.status.nodeRef.Some? ==> InfraAsked(m, d) && InfraSucceeds(d))
  }

  /** The error of a deletion reconcile is that of the first call that fails, and there is none if and only
      if the finalizer was removed. */
  lemma ErrorExactlyWhen(m: MachineValue, d: DeleteEnv)
    ensures var error := DeleteReconcile(m, d).error;
            && (error.None? <==> FinalizerRemoved in DeleteReconcile(m, d).events)
            && (!PhaseStored(m, d) ==> error == d.phaseWrite)
            && (GuardAsked(m, d) && d.machines.ListRefused? ==> error == Some(d.machines.error))
            && (Allowed(m, d) && d.drainClient.Some? ==> error == d.drainClient)
            && (Allowed(m, d) && d.drainClient.None? && d.nodeGet.NodeGetRefused? ==> error == Some(Error(None, false)))
            && (Allowed(m, d) && d.drainClient.None? && d.nodeGet.NodeFound? && !d.cordonOk ==> error == Some(Error(None, false)))
            && (Allowed(m, d) && d.drainClient.None? && d.nodeGet.NodeFound? && d.cordonOk && !d.drainOk ==>
                  error == Some(Error(Some(20), false)))
            && (InfraAsked(m, d) && d.infraGet.InfraGetRefused? ==> error == Some(d.infraGet.error))
            && (InfraAsked(m, d) && d.infraGet.InfraFound? && d.infraDelete.InfraDeleteRefused? ==>
                  error == Some(d.infraDelete.error))
            && (FinalizerAsked(m, d) ==> error == d.finalizerWrite)
  {
    FinalizerRemovedExactlyWhen(m, d);
    if m.status.nodeRef.Some? && d.machines.Listed? {
      GuardRefusesExactlyWhen(m, d.machines.machines);
    }
  }

  lemma {:induction false} WithoutHolds(s: seq<string>, x: string)
    ensures forall f :: f in Without(s, x) <==> f in s && f != x
  {
    if s != [] {
      WithoutHolds(s[1..], x);
    }
  }

  /** The other finalizers keep their order. */
  lemma {:induction false} WithoutKeepsOrder(a: seq<string>, b: seq<string>, x: string)
    ensures Without(a + b, x) == Without(a, x) + Without(b, x)
  {
    if a != [] {
      WithoutKeepsOrder(a[1..], b, x);
      assert (a + b)[0] == a[0] && (a + b)[1..] == a[1..] + b;
      Assoc(if a[0] == x then [] else [a[0]], Without(a[1..], x), Without(b, x));
    } else {
      assert a + b == b;
    }
  }

  lemma {:induction false} WithoutKeepsOthers(s: seq<string>, x: string)
    requires x !in s
    ensures Without(s, x) == s
  {
    if s != [] {
      WithoutKeepsOthers(s[1..], x);
      assert [s[0]] + s[1..] == s;
    }
  }

  /** The poll tries again exactly while it is refused and has time. */
  lemma {:induction false} PollStopsExactlyWhen(node: string, attempts: seq<NodeDelete>)
    ensures |Poll(node, attempts)| <= |attempts|
    ensures forall i | 0 <= i < |Poll(node, attempts)| :: Poll(node, attempts)[i] == NodeDeleteIssued(node, attempts[i])
    ensures forall i | 0 <= i < |Poll(node, attempts)| - 1 :: attempts[i].NodeDeleteRefused?
    ensures |Poll(node, attempts)| < |attempts| ==>
              |Poll(node, attempts)| > 0 && !attempts[|Poll(node, attempts)| - 1].NodeDeleteRefused?
  {
    if attempts != [] {
      PollStopsExactlyWhen(node, attempts[1..]);
      var all, rest := Poll(node, attempts), Poll(node, attempts[1..]);
      assert attempts[0].NodeDeleteRefused? ==> forall i | 0 < i < |all| :: all[i] == rest[i - 1];
    }
  }

  /** What is stored afterwards: the Machine as it was if the phase could not be written, else Terminating;
      its finalizer goes with the last call, and the Machine with its last finalizer. */
  lemma StoredExactlyWhen(m: MachineValue, d: DeleteEnv)
    requires m.Deleting()
    ensures var out := DeleteReconcile(m, d);
            var phased := m.(status := m.status.(phase := Terminating));
            && (!PhaseStored(m, d) ==> out.stored == Present(m))
            && (PhaseStored(m, d) && !(FinalizerAsked(m, d) && d.finalizerWrite.None?) ==> out.stored == Present(phased))
            && (FinalizerAsked(m, d) && d.finalizerWrite.None? ==>
                  (out.stored.Gone? <==> forall f <- m.meta.finalizers :: f == "machine.crit.sh")
                  && (out.stored.Present? ==>
                        out.stored.m == phased.(meta := phased.meta.(finalizers := out.stored.m.meta.finalizers))
                        && forall f :: f in out.stored.m.meta.finalizers <==> f in m.meta.finalizers && f != "machine.crit.sh"))
  {
    var left := Without(m.meta.finalizers, MACHINE_FINALIZER);
    WithoutHolds(m.meta.finalizers, MACHINE_FINALIZER);
    assert left == [] <==> forall f <- m.meta.finalizers :: f == MACHINE_FINALIZER by {
      if left != [] {
        assert left[0] in left;
      }
    }
    ErrorExactlyWhen(m, d);
    if m.status.nodeRef.Some? && d.machines.Listed? {
      GuardRefusesExactlyWhen(m, d.machines.machines);
    }
  }

  lemma StepEffect(m: MachineValue, d: DeleteEnv, e: Event)
    requires e != PhaseWritten && e != FinalizerRemoved
    ensures e in DeleteReconcile(m, d).events <==> PhaseStored(m, d) && e in DeleteSteps(Terminated(m), d).events
  {
  }

  /** The effects of the steps: all of the events but the poll's. */
  lemma StepsEffects(m: MachineValue, d: DeleteEnv, e: Event)
    requires m.status.nodeRef.Some? && !e.NodeDeleteIssued?
    ensures e in DeleteSteps(m, d).events
            <==> if d.machines.ListRefused? then e == GuardFailed
                 else if GuardRefusal(m, d.machines.machines).Some? then e == GuardRefused || e == InfraEvent(d)
                 else if DrainError(d).Some? then e == GuardPassed || e == DrainFailed(m.status.nodeRef.value.name)
                 else e == GuardPassed || e == Drained(m.status.nodeRef.value.name) || e == InfraEvent(d)
  {
    PollIsNodeDeletes(m.status.nodeRef.value.name, d.attempts);
  }

  /** Which effects a deletion reconcile has, the node deletions aside. */
  lemma EffectsExactlyWhen(m: MachineValue, d: DeleteEnv)
    ensures var events := DeleteReconcile(m, d).events;
            && (PhaseWritten in events <==> m.status.phase != Terminating && d.phaseWrite.None?)
            && (m.status.nodeRef.Some? ==>
                  (Drained(m.status.nodeRef.value.name) in events <==> Allowed(m, d) && DrainSucceeds(d)))
            && (InfraDeleted in events <==> InfraAsked(m, d) && d.infraGet.InfraFound? && d.infraDelete.InfraDeleteDone?)
            && (InfraFoundGone in events <==>
                  InfraAsked(m, d) && (d.infraGet.InfraGone? || (d.infraGet.InfraFound? && d.infraDelete.InfraDeleteNotFound?)))
            && (GuardRefused in events <==> GuardAsked(m, d) && d.machines.Listed? && !Allowed(m, d))
  {
    PhaseEffect(m, d);
    StepEffect(m, d, InfraDeleted);
    StepEffect(m, d, InfraFoundGone);
    StepEffect(m, d, GuardRefused);
    if m.status.nodeRef.Some? {
      StepEffect(m, d, Drained(m.status.nodeRef.value.name));
      NodeEffects(m, d);
    }
  }

  lemma PhaseEffect(m: MachineValue, d: DeleteEnv)
    ensures PhaseWritten in DeleteReconcile(m, d).events <==> m.status.phase != Terminating && d.phaseWrite.None?
  {
    if m.status.nodeRef.Some? {
      StepsEffects(Terminated(m), d, PhaseWritten);
    }
  }

  lemma NodeEffects(m: MachineValue, d: DeleteEnv)
    requires m.status.nodeRef.Some?
    ensures var events := DeleteSteps(Terminated(m), d).events;
            PhaseStored(m, d) ==>
              && (Drained(m.status.nodeRef.value.name) in events <==> Allowed(m, d) && DrainSucceeds(d))
              && (InfraDeleted in events <==> InfraAsked(m, d) && d.infraGet.InfraFound? && d.infraDelete.InfraDeleteDone?)
              && (InfraFoundGone in events <==>
                    InfraAsked(m, d) && (d.infraGet.InfraGone? || (d.infraGet.InfraFound? && d.infraDelete.InfraDeleteNotFound?)))
              && (GuardRefused in events <==> GuardAsked(m, d) && d.machines.Listed? && !Allowed(m, d))
  {
    var m1 := Terminated(m);
    StepsEffects(m1, d, Drained(m.status.nodeRef.value.name));
    StepsEffects(m1, d, InfraDeleted);
    StepsEffects(m1, d, InfraFoundGone);
    StepsEffects(m1, d, GuardRefused);
    if d.machines.Listed? {
      GuardRefusesExactlyWhen(m, d.machines.machines);
    }
  }
}

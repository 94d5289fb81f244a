/** The deletion side of the Machine reconciler as it runs, its effects written to a journal. */
module DeletionReconciler {
  import opened Wrappers
  import opened Text
  import opened MachineApi
  import opened Reconciling
  import opened Deleting

  /** The effects of the API calls, in the order in which they happened. */
  class Journal {
    var events: seq<Event>

    method Add(e: Event)
      modifies this
      ensures events == old(events) + [e]
    {
      events := events + [e];
    }
  }

  /** The Machine in the API server. */
  class ApiMachine {
    var stored: Stored

    method UpdateStatus(v: MachineValue, ok: bool)
      requires stored.Present?
      modifies this
      ensures stored == if ok then Present(old(stored).m.(status := v.status)) else old(stored)
    {
      if ok {
        stored := Present(stored.m.(status := v.status));
      }
    }

    /** Writes all but the status; a deleted object without finalizers goes away. */
    method Update(v: MachineValue, ok: bool)
      requires stored.Present?
      modifies this
      ensures stored == if ok then Settle(v.(status := old(stored).m.status)) else old(stored)
    {
      if ok {
        stored := Settle(v.(status := stored.m.status));
      }
    }
  }

  datatype Guard = Allowed | Refused(refusal: Refusal) | CheckFailed(error: Error)

  /** Lists the namespace's machines and collects those of the control plane. */
  method IsDeleteNodeAllowed(m: Machine, d: DeleteEnv) returns (g: Guard)
    ensures g == if m.Value().status.nodeRef.None? then Refused(NilNodeRef)
                 else if d.machines.ListRefused? then CheckFailed(d.machines.error)
                 else match GuardRefusal(m.Value(), d.machines.machines)
                      case None => Allowed
                      case Some(r) => Refused(r)
  {
    if m.status.nodeRef == null {
      return Refused(NilNodeRef);
    }
    if d.machines.ListRefused? {
      return CheckFailed(d.machines.error);
    }
    var items := d.machines.machines;
    var machines: seq<MachineValue> := [];
    assert items[0..] == items;
    for i := 0 to |items|
      invariant machines + ControlPlane(items[i..]) == ControlPlane(items)
    {
      if items[i].IsControlPlane() {
        machines := machines + [items[i]];
      }
    }
    if |machines| == 1 && m.Value().IsControlPlane() {
      return Refused(LastControlPlaneNode);
    }
    return Allowed;
  }

  /** Without an error the node is drained or gone; only a drain that failed on a cordoned node asks for a
      requeue of its own. */
  method DrainNode(node: string, d: DeleteEnv, journal: Journal) returns (err: Option<Error>)
    modifies journal
    ensures err.None? <==> d.drainClient.None? && (d.nodeGet.NodeGone? || (d.nodeGet.NodeFound? && d.cordonOk && d.drainOk))
    ensures d.drainClient.Some? ==> err == d.drainClient
    ensures d.drainClient.None? && err.Some? ==>
              err.value == if d.nodeGet.NodeFound? && d.cordonOk then Error(Some(20), false) else PLAIN
    ensures journal.events == old(journal.events) + [if err.None? then Drained(node) else DrainFailed(node)]
  {
    if d.drainClient.Some? {
      err := d.drainClient;
    } else if d.nodeGet.NodeGone? {
      err := None;
    } else if d.nodeGet.NodeGetRefused? || !d.cordonOk {
      err := Some(PLAIN);
    } else if !d.drainOk {
      err := Some(Error(Some(20), false));
    } else {
      err := None;
    }
    journal.Add(if err.None? then Drained(node) else DrainFailed(node));
  }

  /** Success means that the infrastructure was deleted or was gone already, before or during the delete. */
  method ReconcileDeleteExternal(d: DeleteEnv, journal: Journal) returns (err: Option<Error>)
    modifies journal
    ensures err.None? <==> d.infraGet.InfraGone? || (d.infraGet.InfraFound? && !d.infraDelete.InfraDeleteRefused?)
    ensures d.infraGet.InfraGetRefused? ==> err == Some(d.infraGet.error)
    ensures d.infraGet.InfraFound? && err.Some? ==> err == Some(d.infraDelete.error)
    ensures exists e :: journal.events == old(journal.events) + [e]
              && (e == InfraFailed <==> err.Some?)
              && (e == InfraDeleted <==> d.infraGet.InfraFound? && d.infraDelete.InfraDeleteDone?)
              && (e == InfraFailed || e == InfraDeleted || e == InfraFoundGone)
  {
    if d.infraGet.InfraGetRefused? {
      journal.Add(InfraFailed);
      return Some(d.infraGet.error);
    }
    if d.infraGet.InfraFound? && d.infraDelete.InfraDeleteRefused? {
      journal.Add(InfraFailed);
      return Some(d.infraDelete.error);
    }
    journal.Add(if d.infraGet.InfraFound? && d.infraDelete.InfraDeleteDone? then InfraDeleted else InfraFoundGone);
    return None;
  }

  /** Tries to delete the node until an attempt is not refused or time is up, and moves on. */
  method PollDeleteNode(node: string, attempts: seq<NodeDelete>, journal: Journal)
    modifies journal
    ensures journal.events == old(journal.events) + Poll(node, attempts)
  {
    var i, done := 0, false;
    assert attempts[0..] == attempts;
    while i < |attempts| && !done
      invariant 0 <= i <= |attempts|
      invariant journal.events + (if done then [] else Poll(node, attempts[i..]))
             == old(journal.events) + Poll(node, attempts)
    {
      ghost var before := journal.events;
      journal.Add(NodeDeleteIssued(node, attempts[i]));
      assert attempts[i..][1..] == attempts[i + 1..];
      ghost var rest := if attempts[i].NodeDeleteRefused? then Poll(node, attempts[i + 1..]) else [];
      Assoc(before, [NodeDeleteIssued(node, attempts[i])], rest);
      done := !attempts[i].NodeDeleteRefused?;
      i := i + 1;
    }
  }

  method ReconcileDelete(m: Machine, d: DeleteEnv, journal: Journal) returns (err: Option<Error>)
    modifies journal
    ensures err == DeleteSteps(m.Value(), d).error
    ensures journal.events == old(journal.events) + DeleteSteps(m.Value(), d).events
  {
    if m.status.nodeRef == null {
      return None;
    }
    var node := m.status.nodeRef.v.name;
    var guard := IsDeleteNodeAllowed(m, d);
    if guard.CheckFailed? {
      journal.Add(GuardFailed);
      return Some(guard.error);
    }
    journal.Add(if guard.Allowed? then GuardPassed else GuardRefused);
    if guard.Allowed? {
      var drainErr := DrainNode(node, d, journal);
      if drainErr.Some? {
        return drainErr;
      }
    }
    ghost var lead := if guard.Allowed? then [GuardPassed, Drained(node)] else [GuardRefused];
    assert journal.events == old(journal.events) + lead;
    err := FinishNode(node, guard.Allowed?, d, journal);
    Assoc(old(journal.events), lead, DeleteInfraAndNode(node, guard.Allowed?, d).events);
  }

  /** The infrastructure goes first, then the node if it may. */
  method FinishNode(node: string, deleteNode: bool, d: DeleteEnv, journal: Journal) returns (err: Option<Error>)
    modifies journal
    ensures err == DeleteInfraAndNode(node, deleteNode, d).error
    ensures journal.events == old(journal.events) + DeleteInfraAndNode(node, deleteNode, d).events
  {
    err := ReconcileDeleteExternal(d, journal);
    if err.None? && deleteNode {
      PollDeleteNode(node, d.attempts, journal);
    }
  }

  /** Phase Terminating, written unless it is stored already. */
  method WritePhase(m: Machine, api: ApiMachine, d: DeleteEnv, journal: Journal) returns (err: Option<Error>)
    requires api.stored == Present(m.Value())
    modifies m.status`phase, api, journal
    ensures m.Value() == Terminated(old(m.Value()))
    ensures err == if old(m.status.phase) != Terminating then d.phaseWrite else None
    ensures api.stored == Present(if err.Some? then old(m.Value()) else m.Value())
    ensures journal.events ==
            old(journal.events) + (if old(m.status.phase) != Terminating && err.None? then [PhaseWritten] else [])
  {
    if m.status.phase == Terminating {
      return None;
    }
    m.status.phase := Terminating;
    api.UpdateStatus(m.Value(), d.phaseWrite.None?);
    if d.phaseWrite.None? {
      journal.Add(PhaseWritten);
    }
    return d.phaseWrite;
  }

  method WriteFinalizers(m: Machine, api: ApiMachine, d: DeleteEnv, journal: Journal) returns (err: Option<Error>)
    requires api.stored == Present(m.Value())
    modifies m`meta, api, journal
    ensures err == d.finalizerWrite
    ensures var v := old(m.Value());
            api.stored == if err.Some? then Present(v)
                          else Settle(v.(meta := v.meta.(finalizers := Without(v.meta.finalizers, MACHINE_FINALIZER))))
    ensures journal.events == old(journal.events) + (if err.None? then [FinalizerRemoved] else [])
  {
    m.meta := m.meta.(finalizers := Without(m.meta.finalizers, MACHINE_FINALIZER));
    api.Update(m.Value(), d.finalizerWrite.None?);
    if d.finalizerWrite.None? {
      journal.Add(FinalizerRemoved);
    }
    return d.finalizerWrite;
  }

  /** Reconcile of a Machine with a deletion timestamp; `m` is the Machine just read. */
  method ReconcileDeletion(m: Machine, api: ApiMachine, d: DeleteEnv, journal: Journal) returns (err: Option<Error>)
    requires m.Value().Deleting() && api.stored == Present(m.Value())
    modifies m`meta, m.status`phase, api, journal
    ensures var out := DeleteReconcile(old(m.Value()), d);
            && api.stored == out.stored && err == out.error
            && journal.events == old(journal.events) + out.events
  {
    err := WritePhase(m, api, d, journal);
    if err.None? {
      err := FinishDeletion(m, api, d, journal);
    }
  }

  method FinishDeletion(m: Machine, api: ApiMachine, d: DeleteEnv, journal: Journal) returns (err: Option<Error>)
    requires api.stored == Present(m.Value())
    modifies m`meta, api, journal
    ensures var out := Conclude(old(m.Value()), DeleteSteps(old(m.Value()), d), d.finalizerWrite);
            && api.stored == out.stored && err == out.error
            && journal.events == old(journal.events) + out.events
  {
    err := ReconcileDelete(m, d, journal);
    if err.Some? {
      return;
    }
    err := WriteFinalizers(m, api, d, journal);
  }
}

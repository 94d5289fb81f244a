/** The controller that approves the certificate signing requests of nodes. */
module CsrApprover {
  import opened Wrappers
  import opened MachineApi
  import opened CsrApproval

  method IsUsageAllowed(usage: string) returns (allowed: bool)
    ensures allowed <==> usage in ALLOWED_USAGES
  {
    for i := 0 to |ALLOWED_USAGES|
      invariant usage !in ALLOWED_USAGES[..i]
    {
      if usage == ALLOWED_USAGES[i] {
        return true;
      }
      assert ALLOWED_USAGES[..i + 1] == ALLOWED_USAGES[..i] + [ALLOWED_USAGES[i]];
    }
    assert ALLOWED_USAGES[..|ALLOWED_USAGES|] == ALLOWED_USAGES;
    allowed := false;
  }

  method CheckUsages(usages: seq<string>) returns (ok: bool)
    ensures ok <==> forall u <- usages :: u in ALLOWED_USAGES
  {
    for i := 0 to |usages|
      invariant forall j | 0 <= j < i :: usages[j] in ALLOWED_USAGES
    {
      ok := IsUsageAllowed(usages[i]);
      if !ok {
        return;
      }
    }
    ok := true;
  }

  method GetMachine(machines: seq<MachineValue>, nodeName: string) returns (m: Option<MachineValue>)
    ensures m == MachineFor(machines, nodeName)
  {
    for i := 0 to |machines|
      invariant MachineFor(machines, nodeName) == MachineFor(machines[i..], nodeName)
    {
      assert machines[i..][0] == machines[i] && machines[i..][1..] == machines[i + 1..];
      if machines[i].status.nodeRef.None? {
        continue;
      }
      if nodeName == machines[i].status.nodeRef.value.name {
        if !machines[i].status.infrastructureReady {
          return None;
        }
        return Some(machines[i]);
      }
    }
    m := None;
  }

  method CollectAddresses(m: MachineValue) returns (addresses: set<string>)
    requires m.status.nodeRef.Some?
    ensures addresses == AllowedNames(m)
  {
    var list := m.status.addresses;
    addresses := {m.status.nodeRef.value.name};
    for i := 0 to |list|
      invariant addresses == {m.status.nodeRef.value.name} + set j | 0 <= j < i :: list[j].address
    {
      addresses := addresses + {list[i].address};
    }
  }

  method CheckNames(names: seq<string>, addresses: set<string>) returns (ok: bool)
    ensures ok <==> forall n <- names :: n in addresses
  {
    for i := 0 to |names|
      invariant forall j | 0 <= j < i :: names[j] in addresses
    {
      if names[i] !in addresses {
        return false;
      }
    }
    ok := true;
  }

  method CopyExtra(extra: map<string, seq<string>>) returns (copy: map<string, seq<string>>)
    ensures copy == extra
  {
    copy := map[];
    var left := extra.Keys;
    while left != {}
      invariant left <= extra.Keys
      invariant copy == map k | k in extra && k !in left :: extra[k]
    {
      var k :| k in left;
      copy := copy[k := extra[k]];
      left := left - {k};
    }
  }

  method ValidateCSR(spec: CsrSpec, env: Env) returns (error: Option<CsrError>)
    ensures error == ValidationError(spec, env)
  {
    var nodeName := TrimPrefix(spec.username, NODE_PREFIX);
    if |nodeName| == 0 {
      return None;
    }
    if !(NODES in spec.groups && AUTHENTICATED in spec.groups) {
      return None;
    }
    if !env.nodeExists {
      return Some(Plain);
    }
    var usagesOk := CheckUsages(spec.usages);
    if !usagesOk {
      return Some(Plain);
    }
    if env.machines.ListRefused? {
      return Some(Requeue);
    }
    var m := GetMachine(env.machines.machines, nodeName);
    if m.None? {
      return Some(Requeue);
    }
    error := ValidateRequest(spec, m.value, env);
  }

  method ValidateRequest(spec: CsrSpec, m: MachineValue, env: Env) returns (error: Option<CsrError>)
    requires m.status.nodeRef.Some?
    ensures error == if spec.request.NoPem? then None
                     else if !NamesAllowed(spec, m) || !env.clientOk || env.review(ReviewOf(spec)) != Allowed then Some(Plain)
                     else None
  {
    var addresses := CollectAddresses(m);
    match spec.request
    case NoPem => return None;
    case Unparsable => return Some(Plain);
    case Names(dns, ips) =>
      var dnsOk := CheckNames(dns, addresses);
      if !dnsOk {
        return Some(Plain);
      }
      var ipsOk := CheckNames(ips, addresses);
      if !ipsOk {
        return Some(Plain);
      }
      var extra := CopyExtra(spec.extra);
      if !env.clientOk {
        return Some(Plain);
      }
      var answer := env.review(Review(spec.username, spec.uid, spec.groups, extra));
      error := if answer == Allowed then None else Some(Plain);
  }

  /** The request in memory; its specification does not change. */
  class Csr {
    const spec: CsrSpec
    var conditions: seq<Condition>

    constructor (spec: CsrSpec, conditions: seq<Condition>)
      ensures this.spec == spec && this.conditions == conditions
    {
      this.spec, this.conditions := spec, conditions;
    }

    method Handled() returns (handled: bool)
      ensures handled == IsHandled(conditions)
    {
      for i := 0 to |conditions|
        invariant forall j | 0 <= j < i :: conditions[j].conditionType != Approved && conditions[j].conditionType != Denied
      {
        if conditions[i].conditionType == Approved || conditions[i].conditionType == Denied {
          return true;
        }
      }
      handled := false;
    }
  }

  /** The stored request. */
  class Api {
    const spec: CsrSpec
    var conditions: seq<Condition>

    constructor (spec: CsrSpec)
      ensures this.spec == spec && conditions == []
    {
      this.spec, conditions := spec, [];
    }

    method UpdateApproval(csr: Csr, ok: bool)
      modifies this
      ensures conditions == if ok then csr.conditions else old(conditions)
    {
      if ok {
        conditions := csr.conditions;
      }
    }
  }

  method Reconcile(api: Api, env: Env) returns (requeueAfter: Option<nat>, failed: bool)
    modifies api
    ensures api.conditions == Reconciled(api.spec, old(api.conditions), env)
    ensures failed <==> env.get == CsrGetRefused
                        || (env.get == CsrFound && NODE_PREFIX <= api.spec.username && !IsHandled(old(api.conditions))
                            && ValidationError(api.spec, env).None? && (!env.clientOk || !env.updateOk))
    ensures requeueAfter == if env.get == CsrFound && NODE_PREFIX <= api.spec.username && !IsHandled(old(api.conditions))
                               && ValidationError(api.spec, env) == Some(Requeue) then Some(5) else None
  {
    requeueAfter, failed := None, false;
    if env.get != CsrFound {
      return None, env.get == CsrGetRefused;
    }
    var csr := new Csr(api.spec, api.conditions);
    if !(NODE_PREFIX <= csr.spec.username) {
      return;
    }
    var handled := csr.Handled();
    if handled {
      return;
    }
    var error := ValidateCSR(csr.spec, env);
    if error.Some? {
      if error.value == Requeue {
        requeueAfter := Some(5);
      }
      return;
    }
    csr.conditions := csr.conditions + [APPROVAL];
    if !env.clientOk {
      return None, true;
    }
    api.UpdateApproval(csr, env.updateOk);
    failed := !env.updateOk;
  }
}

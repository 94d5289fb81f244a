/** When a certificate signing request of a node is approved, and what an approval says. */
module CsrApproval {
  import opened Wrappers
  import opened MachineApi
  import Fleet

  /** The request bytes: no PEM block, a block that is no certificate request, or its names. */
  datatype Request = NoPem | Unparsable | Names(dns: seq<string>, ips: seq<string>)

  datatype CsrSpec = CsrSpec(
    username: string, uid: string, groups: seq<string>, usages: seq<string>,
    extra: map<string, seq<string>>, request: Request)

  datatype ConditionType = Approved | Denied | OtherType(name: string)
  datatype Condition = Condition(conditionType: ConditionType, reason: string)

  /** A SubjectAccessReview for creating certificate signing requests. */
  datatype Review = Review(user: string, uid: string, groups: seq<string>, extra: map<string, seq<string>>)
  datatype ReviewAnswer = Allowed | NotAllowed | ReviewRefused

  datatype Listing = Listed(machines: seq<MachineValue>) | ListRefused

  /** The answers of the API calls. */
  datatype Env = Env(
    get: CsrGet, nodeExists: bool, machines: Listing, clientOk: bool, review: Review -> ReviewAnswer, updateOk: bool)
  datatype CsrGet = CsrFound | CsrNotFound | CsrGetRefused

  const NODE_PREFIX := "system:node:"
  const NODES := "system:nodes"
  const AUTHENTICATED := "system:authenticated"
  const ALLOWED_USAGES := ["digital signature", "key encipherment", "server auth"]

  function TrimPrefix(s: string, prefix: string): string {
    if prefix <= s then s[|prefix|..] else s
  }

  function NodeName(spec: CsrSpec): string {
    TrimPrefix(spec.username, NODE_PREFIX)
  }

  predicate HasGroups(spec: CsrSpec) {
    NODES in spec.groups && AUTHENTICATED in spec.groups
  }

  predicate UsagesAllowed(spec: CsrSpec) {
    forall u <- spec.usages :: u in ALLOWED_USAGES
  }

  /** getMachine: the first Machine of the node decides, ready or not. */
  function MachineFor(machines: seq<MachineValue>, nodeName: string): (m: Option<MachineValue>)
    ensures m.Some? ==> m.value in machines && m.value.RefersTo(nodeName) && m.value.status.infrastructureReady
  {
    if machines == [] then None
    else if !machines[0].RefersTo(nodeName) then MachineFor(machines[1..], nodeName)
    else if machines[0].status.infrastructureReady then Some(machines[0])
    else None
  }

  /** The names that a certificate for this Machine may carry. */
  function AllowedNames(m: MachineValue): set<string> {
    (if m.status.nodeRef.Some? then {m.status.nodeRef.value.name} else {})
    + set i | 0 <= i < |m.status.addresses| :: m.status.addresses[i].address
  }

  predicate NamesAllowed(spec: CsrSpec, m: MachineValue) {
    spec.request.Names? && (forall n <- spec.request.dns :: n in AllowedNames(m))
                        && (forall n <- spec.request.ips :: n in AllowedNames(m))
  }

  function ReviewOf(spec: CsrSpec): Review {
    Review(spec.username, spec.uid, spec.groups, spec.extra)
  }

  datatype CsrError = Plain | Requeue

  function ChosenMachine(spec: CsrSpec, env: Env): Option<MachineValue> {
    if env.machines.Listed? then MachineFor(env.machines.machines, NodeName(spec)) else None
  }

  /** validateCSR, in the order of its checks. */
  function ValidationError(spec: CsrSpec, env: Env): Option<CsrError> {
    if NodeName(spec) == "" || !HasGroups(spec) then None
    else if !env.nodeExists || !UsagesAllowed(spec) then Some(Plain)
    else if ChosenMachine(spec, env).None? then Some(Requeue)
    else if spec.request.NoPem? then None
    else if !NamesAllowed(spec, ChosenMachine(spec, env).value) then Some(Plain)
    else if !env.clientOk || env.review(ReviewOf(spec)) != Allowed then Some(Plain)
    else None
  }

  predicate IsHandled(conditions: seq<Condition>) {
    exists c <- conditions :: c.conditionType == Approved || c.conditionType == Denied
  }

  const APPROVAL := Condition(Approved, "approved by machine-api controller")

  /** Whether the reconcile issues the approval. */
  predicate Approves(spec: CsrSpec, conditions: seq<Condition>, env: Env) {
    && env.get == CsrFound && NODE_PREFIX <= spec.username && !IsHandled(conditions)
    && ValidationError(spec, env).None? && env.clientOk
  }

  function Reconciled(spec: CsrSpec, conditions: seq<Condition>, env: Env): seq<Condition> {
    if Approves(spec, conditions, env) && env.updateOk then conditions + [APPROVAL] else conditions
  }

  // Soundness

  /** Everything that the approval is meant to have checked. */
  predicate Checked(spec: CsrSpec, env: Env) {
    && HasGroups(spec) && env.nodeExists && UsagesAllowed(spec)
    && env.machines.Listed?
    && (exists m <- env.machines.machines ::
          m.RefersTo(NodeName(spec)) && m.status.infrastructureReady && NamesAllowed(spec, m))
    && env.review(ReviewOf(spec)) == Allowed
  }

  /** The guards of the three early returns that count as success. */
  predicate ReturnsEarly(spec: CsrSpec) {
    NodeName(spec) == "" || !HasGroups(spec) || spec.request.NoPem?
  }

  /** An approval has checked everything exactly when no early return was taken. */
  lemma ApprovedIsCheckedExactlyWhen(spec: CsrSpec, conditions: seq<Condition>, env: Env)
    requires Approves(spec, conditions, env)
    ensures Checked(spec, env) && NodeName(spec) != "" <==> !ReturnsEarly(spec)
  {
    if !ReturnsEarly(spec) {
      var m := ChosenMachine(spec, env).value;
      assert m in env.machines.machines && NamesAllowed(spec, m);
    }
  }

  /** A request without groups, of a node nobody knows, is approved. */
  lemma GrouplessIsApproved(review: Review -> ReviewAnswer)
    ensures var spec := CsrSpec("system:node:n", "", [], ["client auth"], map[], NoPem);
            var env := Env(CsrFound, false, Listed([]), true, review, true);
            Reconciled(spec, [], env) == [APPROVAL] && !HasGroups(spec) && !UsagesAllowed(spec) && !Checked(spec, env)
  {
    var spec := CsrSpec("system:node:n", "", [], ["client auth"], map[], NoPem);
    assert NODE_PREFIX <= spec.username;
    assert "client auth" in spec.usages && "client auth"[0] == 'c';
    assert ALLOWED_USAGES[0][0] == 'd' && ALLOWED_USAGES[1][0] == 'k' && ALLOWED_USAGES[2][0] == 's';
  }

  // Approval, said of the request and the answers

  /** The request of a node, found and not handled yet, whose update can be made. */
  predicate Approvable(spec: CsrSpec, conditions: seq<Condition>, env: Env) {
    && env.get == CsrFound && "system:node:" <= spec.username
    && (forall i | 0 <= i < |conditions| :: conditions[i].conditionType != Approved && conditions[i].conditionType != Denied)
    && env.clientOk && env.updateOk
  }

  /** What follows the prefix in the user name. */
  function NodeOf(spec: CsrSpec): string
    requires "system:node:" <= spec.username
  {
    spec.username[|"system:node:"|..]
  }

  predicate BothGroups(spec: CsrSpec) {
    "system:nodes" in spec.groups && "system:authenticated" in spec.groups
  }

  predicate ServingUsages(spec: CsrSpec) {
    forall i | 0 <= i < |spec.usages| ::
      spec.usages[i] == "digital signature" || spec.usages[i] == "key encipherment" || spec.usages[i] == "server auth"
  }

  /** The first Machine in the list with this node, if its infrastructure is ready. */
  predicate FirstReady(machines: seq<MachineValue>, i: nat, node: string)
    requires i < |machines|
  {
    && machines[i].RefersTo(node) && machines[i].status.infrastructureReady
    && forall j | 0 <= j < i :: !machines[j].RefersTo(node)
  }

  predicate IsNameOf(name: string, m: MachineValue, node: string) {
    name == node || exists i | 0 <= i < |m.status.addresses| :: m.status.addresses[i].address == name
  }

  predicate AllNamesOf(spec: CsrSpec, m: MachineValue, node: string) {
    && spec.request.Names?
    && (forall i | 0 <= i < |spec.request.dns| :: IsNameOf(spec.request.dns[i], m, node))
    && (forall i | 0 <= i < |spec.request.ips| :: IsNameOf(spec.request.ips[i], m, node))
  }

  /** The checks before the names: groups, node, usages, Machine. */
  predicate MachineChosen(spec: CsrSpec, env: Env, i: nat) {
    && "system:node:" <= spec.username && BothGroups(spec) && env.nodeExists && ServingUsages(spec)
    && env.machines.Listed? && i < |env.machines.machines| && FirstReady(env.machines.machines, i, NodeOf(spec))
  }

  predicate PassesAllChecks(spec: CsrSpec, env: Env) {
    && (exists i | 0 <= i < NumMachines(env) :: MachineChosen(spec, env, i) && AllNamesOf(spec, env.machines.machines[i], NodeOf(spec)))
    && env.review(Review(spec.username, spec.uid, spec.groups, spec.extra)) == Allowed
  }

  function NumMachines(env: Env): nat {
    if env.machines.Listed? then |env.machines.machines| else 0
  }

  /** An early return that counts as success: no node name, a missing group, or no request in the end. */
  predicate SucceedsEarly(spec: CsrSpec, env: Env)
    requires "system:node:" <= spec.username
  {
    || NodeOf(spec) == "" || !BothGroups(spec)
    || (spec.request.NoPem? && exists i | 0 <= i < NumMachines(env) :: MachineChosen(spec, env, i))
  }

  lemma {:induction false} MachineForExactlyWhen(machines: seq<MachineValue>, node: string)
    ensures forall i | 0 <= i < |machines| && FirstReady(machines, i, node) :: MachineFor(machines, node) == Some(machines[i])
    ensures MachineFor(machines, node).Some? <==> exists i | 0 <= i < |machines| :: FirstReady(machines, i, node)
  {
    if machines != [] {
      var rest := machines[1..];
      MachineForExactlyWhen(rest, node);
      if machines[0].RefersTo(node) {
        assert forall i | 0 <= i < |machines| && FirstReady(machines, i, node) :: i == 0;
        assert FirstReady(machines, 0, node) <==> machines[0].status.infrastructureReady;
      } else {
        forall i | 0 < i < |machines|
          ensures FirstReady(machines, i, node) <==> FirstReady(rest, i - 1, node)
        {
          assert machines[i] == rest[i - 1];
          assert forall j | 0 <= j < i - 1 :: rest[j] == machines[j + 1];
        }
        if i :| 0 <= i < |rest| && FirstReady(rest, i, node) {
          assert FirstReady(machines, i + 1, node);
        }
      }
    }
  }

  lemma NamesExactlyWhen(spec: CsrSpec, m: MachineValue, node: string)
    requires m.RefersTo(node)
    ensures NamesAllowed(spec, m) <==> AllNamesOf(spec, m, node)
  {
    assert forall name :: name in AllowedNames(m) <==> IsNameOf(name, m, node);
    if spec.request.Names? {
      assert (forall n <- spec.request.dns :: n in AllowedNames(m))
             <==> forall i | 0 <= i < |spec.request.dns| :: spec.request.dns[i] in AllowedNames(m);
      assert (forall n <- spec.request.ips :: n in AllowedNames(m))
             <==> forall i | 0 <= i < |spec.request.ips| :: spec.request.ips[i] in AllowedNames(m);
    }
  }

  lemma UsagesExactlyWhen(spec: CsrSpec)
    ensures UsagesAllowed(spec) <==> ServingUsages(spec)
  {
    assert forall u :: u in ALLOWED_USAGES <==> u == "digital signature" || u == "key encipherment" || u == "server auth";
    assert UsagesAllowed(spec) <==> forall i | 0 <= i < |spec.usages| :: spec.usages[i] in ALLOWED_USAGES;
  }

  /** When the validation finds nothing, and when it asks for another try. */
  lemma ValidExactlyWhen(spec: CsrSpec, env: Env)
    requires "system:node:" <= spec.username
    ensures env.clientOk ==>
              (ValidationError(spec, env).None? <==> SucceedsEarly(spec, env) || PassesAllChecks(spec, env))
    ensures ValidationError(spec, env) == Some(Requeue)
            <==> NodeOf(spec) != "" && BothGroups(spec) && env.nodeExists && ServingUsages(spec)
                 && forall i | 0 <= i < NumMachines(env) :: !MachineChosen(spec, env, i)
  {
    UsagesExactlyWhen(spec);
    ChosenExactlyWhen(spec, env);
    if i :| 0 <= i < NumMachines(env) && MachineChosen(spec, env, i) {
      NamesExactlyWhen(spec, env.machines.machines[i], NodeOf(spec));
    }
  }

  /** Past the checks before it, the choice of the Machine is that of the first one with the node. */
  lemma ChosenExactlyWhen(spec: CsrSpec, env: Env)
    requires "system:node:" <= spec.username
    ensures forall i | 0 <= i < NumMachines(env) && MachineChosen(spec, env, i) ::
              ChosenMachine(spec, env) == Some(env.machines.machines[i])
              && forall j | 0 <= j < NumMachines(env) && MachineChosen(spec, env, j) :: j == i
    ensures BothGroups(spec) && env.nodeExists && ServingUsages(spec) ==>
              (ChosenMachine(spec, env).Some? <==> exists i | 0 <= i < NumMachines(env) :: MachineChosen(spec, env, i))
  {
    assert NodeName(spec) == NodeOf(spec);
    if env.machines.Listed? {
      var machines := env.machines.machines;
      MachineForExactlyWhen(machines, NodeOf(spec));
      forall i, j | 0 <= i < |machines| && FirstReady(machines, i, NodeOf(spec)) && 0 <= j < |machines| && FirstReady(machines, j, NodeOf(spec))
        ensures i == j
      {
        assert !(i < j) && !(j < i);
      }
      if BothGroups(spec) && env.nodeExists && ServingUsages(spec) {
        assert forall i | 0 <= i < |machines| :: MachineChosen(spec, env, i) <==> FirstReady(machines, i, NodeOf(spec));
      }
    }
  }

  /** A request is approved, by one condition of type Approved after the old ones, if and only if it is an
      open node request that passes every check or takes an early return; else its conditions stay. */
  lemma ApprovedExactlyWhen(spec: CsrSpec, conditions: seq<Condition>, env: Env)
    ensures Reconciled(spec, conditions, env)
         == if Approvable(spec, conditions, env) && (SucceedsEarly(spec, env) || PassesAllChecks(spec, env))
            then conditions + [Condition(Approved, "approved by machine-api controller")] else conditions
  {
    HandledExactlyWhen(conditions);
    if "system:node:" <= spec.username {
      ValidExactlyWhen(spec, env);
    }
  }

  lemma HandledExactlyWhen(conditions: seq<Condition>)
    ensures IsHandled(conditions)
            <==> exists i | 0 <= i < |conditions| :: conditions[i].conditionType == Approved || conditions[i].conditionType == Denied
  {
    if IsHandled(conditions) {
      var c :| c in conditions && (c.conditionType == Approved || c.conditionType == Denied);
      var i :| 0 <= i < |conditions| && conditions[i] == c;
    }
  }

  // The choice of the Machine

  /** No two different Machines refer to the same node. */
  predicate NodeRefsDistinct(machines: seq<MachineValue>) {
    forall a <- machines, b <- machines | a.status.nodeRef.Some? && b.RefersTo(a.status.nodeRef.value.name) :: a == b
  }

  lemma {:induction false} TheMachineOf(machines: seq<MachineValue>, m: MachineValue, nodeName: string)
    requires NodeRefsDistinct(machines) && m in machines && m.RefersTo(nodeName)
    ensures MachineFor(machines, nodeName) == if m.status.infrastructureReady then Some(m) else None
  {
    if machines[0].RefersTo(nodeName) {
      assert machines[0] in machines;
    } else {
      assert forall a <- machines[1..] :: a in machines;
      TheMachineOf(machines[1..], m, nodeName);
    }
  }

  lemma {:induction false} NoMachineOf(machines: seq<MachineValue>, nodeName: string)
    requires forall m <- machines :: !m.RefersTo(nodeName)
    ensures MachineFor(machines, nodeName) == None
  {
    if machines != [] {
      assert machines[0] in machines && forall a <- machines[1..] :: a in machines;
      NoMachineOf(machines[1..], nodeName);
    }
  }

  /** With distinct node references the Machine found does not depend on the order of the list. */
  lemma MachineChoiceIgnoresOrder(a: seq<MachineValue>, b: seq<MachineValue>, nodeName: string)
    requires multiset(a) == multiset(b) && NodeRefsDistinct(a)
    ensures MachineFor(a, nodeName) == MachineFor(b, nodeName)
  {
    assert forall m :: m in a <==> m in multiset(a);
    assert forall m :: m in b <==> m in multiset(b);
    if m :| m in a && m.RefersTo(nodeName) {
      TheMachineOf(a, m, nodeName);
      TheMachineOf(b, m, nodeName);
    } else {
      NoMachineOf(a, nodeName);
      NoMachineOf(b, nodeName);
    }
  }

  /** The Machines that any run of the Machine controller leaves have distinct node references, provider
      IDs being stable and distinct: whoever lists them in another order chooses the same. */
  lemma ReachableChoiceIgnoresOrder(steps: seq<Fleet.FleetStep>, pid: string -> string, nodeId: string -> string,
                                    a: seq<MachineValue>, b: seq<MachineValue>, nodeName: string)
    requires forall s <- steps :: Fleet.Stable(s, pid, nodeId)
    requires forall k, l: string :: pid(k) == pid(l) ==> k == l
    requires (forall m <- a :: m in Fleet.FleetAfter(map[], steps).Values) && multiset(a) == multiset(b)
    ensures MachineFor(a, nodeName) == MachineFor(b, nodeName)
  {
    var f := Fleet.FleetAfter(map[], steps);
    forall m, n | m in a && n in a && m.status.nodeRef.Some? && n.RefersTo(m.status.nodeRef.value.name)
      ensures m == n
    {
      var k :| k in f && f[k] == m;
      var l :| l in f && f[l] == n;
      Fleet.NodeRefsInjective(steps, pid, nodeId, k, l);
    }
    MachineChoiceIgnoresOrder(a, b, nodeName);
  }

  // Runs

  /** Reconciles, and conditions that others add. */
  datatype Step = Act(env: Env) | OthersAdd(c: Condition)

  function Apply(spec: CsrSpec, conditions: seq<Condition>, s: Step): seq<Condition> {
    match s
    case Act(env) => Reconciled(spec, conditions, env)
    case OthersAdd(c) => conditions + [c]
  }

  function After(spec: CsrSpec, conditions: seq<Condition>, steps: seq<Step>): seq<Condition>
    decreases |steps|
  {
    if steps == [] then conditions else After(spec, Apply(spec, conditions, steps[0]), steps[1..])
  }

  /** The conditions that the controller's own steps add. */
  function Added(spec: CsrSpec, conditions: seq<Condition>, steps: seq<Step>): nat
    decreases |steps|
  {
    if steps == [] then 0
    else
      var next := Apply(spec, conditions, steps[0]);
      (if steps[0].Act? then |next| - |conditions| else 0) + Added(spec, next, steps[1..])
  }

  /** In every run conditions only grow, a handled request stays handled, and the controller adds at
      most one condition: none if the request was handled already. */
  lemma {:induction false} HandledGainsNothing(spec: CsrSpec, conditions: seq<Condition>, steps: seq<Step>)
    ensures conditions <= After(spec, conditions, steps)
    ensures IsHandled(conditions) ==> IsHandled(After(spec, conditions, steps))
    ensures Added(spec, conditions, steps) <= if IsHandled(conditions) then 0 else 1
    decreases |steps|
  {
    if steps != [] {
      var next := Apply(spec, conditions, steps[0]);
      HandledGainsNothing(spec, next, steps[1..]);
      HandledStays(conditions, next);
      if next == conditions + [APPROVAL] {
        assert APPROVAL in next;
      }
    }
  }

  lemma HandledStays(conditions: seq<Condition>, more: seq<Condition>)
    requires conditions <= more
    ensures IsHandled(conditions) ==> IsHandled(more)
  {
    assert forall c <- conditions :: c in more;
  }
}

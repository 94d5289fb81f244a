/** The Config controller: it renders the bootstrap data into a new Secret once, and marks the Config
    ready. The API server and the answers of its calls are parameters. */
module ConfigReconciler {
  import opened Wrappers
  import opened Quoting
  import opened CloudInit
  import opened Multipart
  import opened BootstrapConfig

  datatype Status = Status(ready: bool, dataSecretName: Option<string>)

  datatype Secret = Secret(name: string, cloudConfig: string)

  datatype ConfigGet = ConfigFound | ConfigNotFound | ConfigGetRefused

  /** The answers of the other calls: getting the Config, the generated name, and the writes. */
  datatype Calls = Calls(
    get: ConfigGet, render: Env, secretName: string, ownerSet: bool, secretCreated: bool, statusUpdated: bool)

  /** The stored Config, and all that was written so far. */
  datatype World = World(spec: Spec, status: Status, created: seq<Secret>, updates: seq<bool>)

  class Api {
    var spec: Spec
    var status: Status
    var created: seq<Secret>
    var updates: seq<bool>

    ghost function Contents(): World
      reads this
    {
      World(spec, status, created, updates)
    }

    method Create(s: Secret, ok: bool)
      modifies this
      ensures Contents() == old(Contents()).(created := old(created) + if ok then [s] else [])
    {
      if ok {
        created := created + [s];
      }
    }

    method UpdateStatus(s: Status, ok: bool)
      modifies this
      ensures Contents() == old(Contents()).(updates := old(updates) + [ok], status := if ok then s else old(status))
    {
      updates := updates + [ok];
      if ok {
        status := s;
      }
    }
  }

  /** The Config object in memory. */
  class Config {
    const spec: Spec
    var status: Status

    constructor (spec: Spec, status: Status)
      ensures this.spec == spec && this.status == status
    {
      this.spec, this.status := spec, status;
    }
  }

  // One reconcile as a function of the order in which the map of Secrets is iterated

  predicate Fails(w: World, c: Calls) {
    c.get.ConfigGetRefused? || c.render.marshalled.None? || !AllFetched(w.spec.secrets, c.render.secrets) || !c.ownerSet
  }

  function Next(w: World, c: Calls, order: seq<string>): World {
    if c.get != ConfigFound || w.status.ready || Fails(w, c) then w
    else Committed(w, c, Rendered(w.spec, c.render, order))
  }

  /** The Secret is created, then the status updated. */
  function Committed(w: World, c: Calls, data: string): World {
    if !c.secretCreated then w
    else
      w.(created := w.created + [Secret(c.secretName, data)],
         updates := w.updates + [c.statusUpdated],
         status := if c.statusUpdated then Status(true, Some(c.secretName)) else w.status)
  }

  /** Whether the reconcile returns an error. */
  predicate Returns(w: World, c: Calls) {
    c.get == ConfigGetRefused
    || (c.get == ConfigFound && !w.status.ready && (Fails(w, c) || !c.secretCreated || !c.statusUpdated))
  }

  /** Up to the first write every call succeeds. */
  predicate Renders(w: World, c: Calls) {
    && c.get == ConfigFound && !w.status.ready && c.render.marshalled.Some? && c.ownerSet
    && forall i | 0 <= i < |w.spec.secrets| :: c.render.secrets(w.spec.secrets[i].dataSecretName).HasData?
  }

  /** A Config that is not ready gets its Secret and becomes ready exactly when every call succeeds; a call
      that fails is an error, and leaves what the earlier ones did. */
  lemma OutcomeExactlyWhen(w: World, c: Calls, order: seq<string>)
    ensures Renders(w, c) && c.secretCreated ==>
              Next(w, c, order) == World(w.spec, if c.statusUpdated then Status(true, Some(c.secretName)) else w.status,
                                         w.created + [Secret(c.secretName, Rendered(w.spec, c.render, order))],
                                         w.updates + [c.statusUpdated])
    ensures !(Renders(w, c) && c.secretCreated) ==> Next(w, c, order) == w
    ensures Returns(w, c) <==>
              c.get == ConfigGetRefused
              || (c.get == ConfigFound && !w.status.ready && !(Renders(w, c) && c.secretCreated && c.statusUpdated))
  {
    FetchedExactlyWhen(w.spec.secrets, c.render.secrets);
  }

  lemma FetchedExactlyWhen(secrets: seq<SecretFile>, answers: string -> SecretAnswer)
    ensures AllFetched(secrets, answers) <==> forall i | 0 <= i < |secrets| :: answers(secrets[i].dataSecretName).HasData?
  {
    if AllFetched(secrets, answers) {
      assert forall i | 0 <= i < |secrets| :: secrets[i].dataSecretName in Names(secrets);
    } else {
      var n :| n in Names(secrets) && !answers(n).HasData?;
      var i :| 0 <= i < |secrets| && secrets[i].dataSecretName == n;
    }
  }

  // The loops

  /** What the map of Secrets holds. */
  predicate IsGrouping(groups: map<string, seq<SecretFile>>, secrets: seq<SecretFile>) {
    groups.Keys == Names(secrets) && forall n <- groups :: groups[n] == Of(secrets, n)
  }

  lemma {:induction false} OfOneMore(secrets: seq<SecretFile>, s: SecretFile, name: string)
    ensures Of(secrets + [s], name) == Of(secrets, name) + if s.dataSecretName == name then [s] else []
  {
    if secrets == [] {
      assert secrets + [s] == [s];
    } else {
      OfOneMore(secrets[1..], s, name);
      assert (secrets + [s])[0] == secrets[0] && (secrets + [s])[1..] == secrets[1..] + [s];
    }
  }

  lemma {:induction false} OfNoName(secrets: seq<SecretFile>, name: string)
    requires name !in Names(secrets)
    ensures Of(secrets, name) == []
  {
    if secrets != [] {
      assert secrets[0].dataSecretName in Names(secrets);
      assert Names(secrets[1..]) <= Names(secrets);
      OfNoName(secrets[1..], name);
    }
  }

  lemma NamesOfOneMore(secrets: seq<SecretFile>, s: SecretFile)
    ensures Names(secrets + [s]) == Names(secrets) + {s.dataSecretName}
  {
    assert forall x :: x in secrets + [s] <==> x in secrets || x == s;
  }

  method GroupSecrets(secrets: seq<SecretFile>) returns (groups: map<string, seq<SecretFile>>)
    ensures IsGrouping(groups, secrets)
  {
    groups := map[];
    for i := 0 to |secrets|
      invariant IsGrouping(groups, secrets[..i])
    {
      var s := secrets[i];
      forall n {
        OfOneMore(secrets[..i], s, n);
      }
      NamesOfOneMore(secrets[..i], s);
      if s.dataSecretName !in groups {
        OfNoName(secrets[..i], s.dataSecretName);
      }
      assert secrets[..i + 1] == secrets[..i] + [s];
      groups := groups[s.dataSecretName := (if s.dataSecretName in groups then groups[s.dataSecretName] else []) + [s]];
    }
    assert secrets[..|secrets|] == secrets;
  }

  method AppendSelected(files: seq<File>, entries: seq<SecretFile>, data: map<string, string>) returns (out: seq<File>)
    ensures out == files + Selected(entries, data)
  {
    out := files;
    for i := 0 to |entries|
      invariant out == files + Selected(entries[..i], data)
    {
      var s := entries[i];
      SelectedOfTwo(entries[..i], [s], data);
      assert entries[..i + 1] == entries[..i] + [s];
      if s.secretKeyName in data {
        out := out + [FileOf(s, data[s.secretKeyName])];
      }
    }
    assert entries[..|entries|] == entries;
  }

  /** Appends the files of the Secrets in whatever order the map is iterated; stops at the first Secret
      that cannot be read. */
  method AppendSecrets(files: seq<File>, secrets: seq<SecretFile>, answers: string -> SecretAnswer)
    returns (ok: bool, out: seq<File>, ghost order: seq<string>)
    ensures ok == AllFetched(secrets, answers)
    ensures ok ==> IsOrder(order, Names(secrets)) && out == files + Grouped(secrets, answers, order)
  {
    var groups := GroupSecrets(secrets);
    var left := groups.Keys;
    out, order := files, [];
    while left != {}
      invariant left <= groups.Keys
      invariant IsOrder(order, Names(secrets) - left)
      invariant forall n <- order :: answers(n).HasData?
      invariant out == files + Grouped(secrets, answers, order)
    {
      var k :| k in left;
      match answers(k)
      case GetRefused(_) =>
        return false, out, order;
      case HasData(data) =>
        out := AppendSelected(out, groups[k], data);
        GroupedOfTwo(secrets, answers, order, [k]);
        order := order + [k];
        left := left - {k};
    }
    ok := true;
  }

  // Reconcile

  method Render(spec: Spec, env: Env) returns (ok: bool, data: string, ghost order: seq<string>)
    ensures ok == (env.marshalled.Some? && AllFetched(spec.secrets, env.secrets))
    ensures ok ==> IsOrder(order, Names(spec.secrets)) && data == Rendered(spec, env, order)
  {
    data, order := "", [];
    if env.marshalled.None? {
      return false, data, order;
    }
    var files := spec.files + [ConfigYaml(env.marshalled.value)];
    var all;
    ok, all, order := AppendSecrets(files, spec.secrets, env.secrets);
    if ok {
      var config := CloudInit.Config(all, spec.preCommands, spec.postCommands, spec.verbose, spec.otherKeys);
      data := CreateMessage(env.boundary, Write(env.isPrint, config));
    }
  }

  method Reconcile(api: Api, c: Calls) returns (failed: bool, ghost order: seq<string>)
    modifies api
    ensures api.Contents() == Next(old(api.Contents()), c, order)
    ensures failed == Returns(old(api.Contents()), c)
    ensures api.Contents() != old(api.Contents()) ==> IsOrder(order, Names(api.spec.secrets))
  {
    order := [];
    if c.get != ConfigFound {
      return c.get == ConfigGetRefused, order;
    }
    var cfg := new Config(api.spec, api.status);
    if cfg.status.ready {
      return false, order;
    }
    var ok, data, keys := Render(cfg.spec, c.render);
    if !ok {
      return true, order;
    }
    order := keys;
    if !c.ownerSet {
      return true, order;
    }
    failed := Commit(api, cfg, c, data);
  }

  method Commit(api: Api, cfg: Config, c: Calls, data: string) returns (failed: bool)
    modifies api, cfg
    ensures api.Contents() == Committed(old(api.Contents()), c, data)
    ensures failed == (!c.secretCreated || !c.statusUpdated)
  {
    api.Create(Secret(c.secretName, data), c.secretCreated);
    if !c.secretCreated {
      return true;
    }
    cfg.status := Status(true, Some(c.secretName));
    api.UpdateStatus(cfg.status, c.statusUpdated);
    failed := !c.statusUpdated;
  }

  // Runs

  /** Users edit the specification; the status is the controller's. */
  datatype Step = Act(calls: Calls, order: seq<string>) | EditSpec(spec: Spec)

  function Apply(w: World, s: Step): World {
    match s
    case Act(calls, order) => Next(w, calls, order)
    case EditSpec(spec) => w.(spec := spec)
  }

  function After(w: World, steps: seq<Step>): World
    decreases |steps|
  {
    if steps == [] then w else After(Apply(w, steps[0]), steps[1..])
  }

  function Count(updates: seq<bool>, ok: bool): nat {
    if updates == [] then 0 else Count(updates[..|updates| - 1], ok) + if updates[|updates| - 1] == ok then 1 else 0
  }

  /** Secrets created are successful plus failed status updates, at most one of them successful, and it
      is the one that made the Config ready, with the last Secret as its data. */
  predicate Accounted(w: World) {
    && |w.created| == Count(w.updates, true) + Count(w.updates, false)
    && Count(w.updates, true) == (if w.status.ready then 1 else 0)
    && (w.status.ready ==> w.created != [] && w.status.dataSecretName == Some(w.created[|w.created| - 1].name))
    && (!w.status.ready ==> w.status.dataSecretName.None?)
  }

  function Fresh(spec: Spec): World {
    World(spec, Status(false, None), [], [])
  }

  lemma StepAccounted(w: World, s: Step)
    requires Accounted(w)
    ensures Accounted(Apply(w, s))
    ensures w.status.ready ==> Apply(w, s) == w.(spec := Apply(w, s).spec)
  {
    if s.Act? {
      var updates := w.updates + [s.calls.statusUpdated];
      assert updates[..|updates| - 1] == w.updates;
    }
  }

  lemma {:induction false} RunAccounted(w: World, steps: seq<Step>)
    requires Accounted(w)
    ensures Accounted(After(w, steps))
    ensures w.status.ready ==> After(w, steps) == w.(spec := After(w, steps).spec)
    decreases |steps|
  {
    if steps != [] {
      StepAccounted(w, steps[0]);
      RunAccounted(Apply(w, steps[0]), steps[1..]);
    }
  }

  lemma {:induction false} AfterConcat(w: World, a: seq<Step>, b: seq<Step>)
    ensures After(w, a + b) == After(After(w, a), b)
    decreases |a|
  {
    if a == [] {
      assert a + b == b;
    } else {
      assert (a + b)[0] == a[0] && (a + b)[1..] == a[1..] + b;
      AfterConcat(Apply(w, a[0]), a[1..], b);
    }
  }

  /** A reconcile iterates the Secrets of the specification it finds, in some order. */
  ghost predicate IsStep(w: World, s: Step) {
    s.Act? ==> IsOrder(s.order, Names(w.spec.secrets))
  }

  ghost predicate IsRun(w: World, steps: seq<Step>)
    decreases |steps|
  {
    steps == [] || (IsStep(w, steps[0]) && IsRun(Apply(w, steps[0]), steps[1..]))
  }

  /** The step that makes the Config ready creates, as the last Secret ever, one with the name that the
      status keeps and with the bytes rendered from the specification stored at that moment. */
  ghost predicate MadeReady(before: World, s: Step, after: World) {
    && !before.status.ready && s.Act? && IsStep(before, s) && s.calls.render.marshalled.Some? && AllFetched(before.spec.secrets, s.calls.render.secrets)
    && after.status == Status(true, Some(s.calls.secretName))
    && after.created == before.created + [Secret(s.calls.secretName, Rendered(before.spec, s.calls.render, s.order))]
  }

  /** Over every run of a fresh Config, writes failing at will: the accounts hold, Ready and the name of
      the data Secret stay once set, and no Secret is created after that. */
  lemma ReadyForGood(spec: Spec, earlier: seq<Step>, later: seq<Step>)
    ensures var w1, w2 := After(Fresh(spec), earlier), After(Fresh(spec), earlier + later);
            && Accounted(w2)
            && (w1.status.dataSecretName.Some? ==> w2.status.dataSecretName == w1.status.dataSecretName)
            && (w1.status.ready ==> w2.status == w1.status && w2.created == w1.created && w2.updates == w1.updates)
  {
    RunAccounted(Fresh(spec), earlier);
    AfterConcat(Fresh(spec), earlier, later);
    RunAccounted(After(Fresh(spec), earlier), later);
  }

  /** Step `k` makes the Config ready; status and Secrets are then as at the end of the run. */
  ghost predicate TurnsReady(w: World, steps: seq<Step>, k: nat)
    requires k < |steps|
  {
    var before, after := After(w, steps[..k]), After(w, steps[..k + 1]);
    && MadeReady(before, steps[k], after)
    && After(w, steps).status == after.status && After(w, steps).created == after.created
  }

  lemma TurnsLater(w: World, steps: seq<Step>, k: nat)
    requires k + 1 < |steps|
    ensures TurnsReady(w, steps, k + 1) == TurnsReady(Apply(w, steps[0]), steps[1..], k)
  {
    var rest := steps[1..];
    assert steps[..k + 1][0] == steps[0] && steps[..k + 1][1..] == rest[..k];
    assert steps[..k + 2][0] == steps[0] && steps[..k + 2][1..] == rest[..k + 1];
  }

  lemma StepMakesReady(w: World, s: Step)
    requires IsStep(w, s) && !w.status.ready && Apply(w, s).status.ready
    ensures MadeReady(w, s, Apply(w, s))
  {
  }

  lemma TurnsNow(w: World, steps: seq<Step>)
    requires steps != [] && IsRun(w, steps) && Accounted(w) && !w.status.ready && Apply(w, steps[0]).status.ready
    ensures TurnsReady(w, steps, 0)
  {
    StepMakesReady(w, steps[0]);
    StepAccounted(w, steps[0]);
    var w1 := Apply(w, steps[0]);
    RunAccounted(w1, steps[1..]);
    assert steps[..1][1..] == [];
    assert After(w, steps[..1]) == After(w1, []);
  }

  /** Whoever finds the Config ready finds the rendered bytes in the Secret it names. */
  lemma {:induction false} ReadyMeansRendered(w: World, steps: seq<Step>)
    requires IsRun(w, steps) && Accounted(w) && !w.status.ready && After(w, steps).status.ready
    ensures exists k | 0 <= k < |steps| :: TurnsReady(w, steps, k)
    decreases |steps|
  {
    StepAccounted(w, steps[0]);
    if Apply(w, steps[0]).status.ready {
      TurnsNow(w, steps);
    } else {
      ReadyMeansRendered(Apply(w, steps[0]), steps[1..]);
      var k :| 0 <= k < |steps[1..]| && TurnsReady(Apply(w, steps[0]), steps[1..], k);
      TurnsLater(w, steps, k);
    }
  }

  /** Reading the Secret of a Config that became ready gives back the Config's files, config.yaml, the
      files of exactly the secret entries whose key exists, with the data under that key, and the commands
      in order, provided that no file breaks out of its attributes and the boundary is not in the text. */
  lemma ReadySecretHoldsAllFiles(before: World, s: Step, after: World)
    requires MadeReady(before, s, after)
    requires IsBoundary(s.calls.render.boundary) && ControlsEscaped(s.calls.render.isPrint) && OtherKeys(before.spec.otherKeys)
    requires forall f <- before.spec.files :: Clean(f)
    requires forall f: File :: IsEntryFile(f, before.spec.secrets, s.calls.render.secrets) ==> Clean(f)
    requires !Occurs(Delimiter(s.calls.render.boundary),
                     Write(s.calls.render.isPrint, CloudConfig(before.spec, s.calls.render, s.order)))
    ensures var spec, env := before.spec, s.calls.render;
            var message := ReadMessage(after.created[|after.created| - 1].cloudConfig);
            && message.Some?
            && exists fromSecrets: seq<File> ::
                 && HoldsEntries(fromSecrets, spec.secrets, env.secrets)
                 && multiset(fromSecrets) == multiset(SelectedEach(spec.secrets, env.secrets))
                 && ReadDocument(message.value).Parsed?
                 && ReadDocument(message.value).value
                    == (spec.files + [File("/var/lib/crit/config.yaml", "root:root", "0640", "base64", env.marshalled.value)]
                        + fromSecrets,
                        spec.preCommands
                        + ["crit up --config /var/lib/crit/config.yaml " + if spec.verbose then "true" else "false"]
                        + spec.postCommands)
  {
    var spec, env := before.spec, s.calls.render;
    EveryOrderHoldsEntries(spec.secrets, env.secrets, s.order);
    EveryOrderKeepsAllFiles(spec.secrets, env.secrets, s.order);
    FilesAreClean(spec, env, s.order);
    BootstrapDataReadsBack(spec, env, s.order);
  }

  lemma FilesAreClean(spec: Spec, env: Env, order: seq<string>)
    requires env.marshalled.Some? && IsOrder(order, Names(spec.secrets))
    requires forall f <- spec.files :: Clean(f)
    requires forall f: File :: IsEntryFile(f, spec.secrets, env.secrets) ==> Clean(f)
    ensures forall f <- Files(spec, env, order) :: Clean(f)
  {
    EveryOrderHoldsEntries(spec.secrets, env.secrets, order);
    ConfigYamlIsClean(env.marshalled.value);
  }

  lemma ConfigYamlIsClean(base64: string)
    ensures Clean(ConfigYaml(base64))
  {
  }
}

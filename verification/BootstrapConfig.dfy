/** The bootstrap data of a Config: which files it holds, how it is rendered, and what reading it
    gives back. */
module BootstrapConfig {
  import opened Wrappers
  import opened Text
  import opened Quoting
  import opened CloudInit
  import opened Multipart

  datatype SecretFile = SecretFile(
    path: string, owner: string, permissions: string, encoding: string, dataSecretName: string, secretKeyName: string)

  datatype Spec = Spec(
    config: string, files: seq<File>, secrets: seq<SecretFile>, preCommands: seq<string>, postCommands: seq<string>,
    verbose: bool, otherKeys: string)

  datatype SecretAnswer = HasData(data: map<string, string>) | GetRefused(error: string)

  /** The answers of the calls that one rendering makes: the marshalled configuration in base64, unless
      it is invalid; the Secrets; and the boundary that multipart generates. */
  datatype Env = Env(
    marshalled: Option<string>, secrets: string -> SecretAnswer, boundary: string, isPrint: char -> bool)

  function ConfigYaml(base64: string): File {
    File("/var/lib/crit/config.yaml", "root:root", "0640", "base64", base64)
  }

  // Secret files

  /** The entries that name this Secret, in order. */
  function Of(secrets: seq<SecretFile>, name: string): seq<SecretFile> {
    if secrets == [] then []
    else if secrets[0].dataSecretName == name then [secrets[0]] + Of(secrets[1..], name)
    else Of(secrets[1..], name)
  }

  function Others(secrets: seq<SecretFile>, name: string): seq<SecretFile> {
    if secrets == [] then []
    else if secrets[0].dataSecretName != name then [secrets[0]] + Others(secrets[1..], name)
    else Others(secrets[1..], name)
  }

  function Names(secrets: seq<SecretFile>): set<string> {
    set s <- secrets :: s.dataSecretName
  }

  function FileOf(s: SecretFile, content: string): File {
    File(s.path, s.owner, s.permissions, s.encoding, content)
  }

  /** The files of the entries whose key exists. */
  function Selected(secrets: seq<SecretFile>, data: map<string, string>): seq<File> {
    if secrets == [] then []
    else if secrets[0].secretKeyName in data
    then [FileOf(secrets[0], data[secrets[0].secretKeyName])] + Selected(secrets[1..], data)
    else Selected(secrets[1..], data)
  }

  /** Each entry's file from its own Secret, in the order of the entries. */
  function SelectedEach(secrets: seq<SecretFile>, answers: string -> SecretAnswer): seq<File> {
    if secrets == [] then []
    else
      var a := answers(secrets[0].dataSecretName);
      (if a.HasData? then Selected([secrets[0]], a.data) else []) + SelectedEach(secrets[1..], answers)
  }

  function OneSecret(secrets: seq<SecretFile>, answers: string -> SecretAnswer, name: string): seq<File> {
    if answers(name).HasData? then Selected(Of(secrets, name), answers(name).data) else []
  }

  /** The files secret by secret, in the order in which the map is iterated. */
  function Grouped(secrets: seq<SecretFile>, answers: string -> SecretAnswer, order: seq<string>): seq<File> {
    if order == [] then [] else OneSecret(secrets, answers, order[0]) + Grouped(secrets, answers, order[1..])
  }

  predicate Distinct(order: seq<string>) {
    forall i, j | 0 <= i < j < |order| :: order[i] != order[j]
  }

  /** An order of the keys of the map. */
  ghost predicate IsOrder(order: seq<string>, names: set<string>) {
    Distinct(order) && (forall n :: n in order <==> n in names)
  }

  predicate AllFetched(secrets: seq<SecretFile>, answers: string -> SecretAnswer) {
    forall n <- Names(secrets) :: answers(n).HasData?
  }

  // Rendering

  function Files(spec: Spec, env: Env, order: seq<string>): seq<File>
    requires env.marshalled.Some?
  {
    spec.files + [ConfigYaml(env.marshalled.value)] + Grouped(spec.secrets, env.secrets, order)
  }

  function CloudConfig(spec: Spec, env: Env, order: seq<string>): Config
    requires env.marshalled.Some?
  {
    Config(Files(spec, env, order), spec.preCommands, spec.postCommands, spec.verbose, spec.otherKeys)
  }

  function Rendered(spec: Spec, env: Env, order: seq<string>): string
    requires env.marshalled.Some?
  {
    Message(env.boundary, Write(env.isPrint, CloudConfig(spec, env, order)))
  }

  // Conservation of files

  lemma {:induction false} SelectedOfTwo(a: seq<SecretFile>, b: seq<SecretFile>, data: map<string, string>)
    ensures Selected(a + b, data) == Selected(a, data) + Selected(b, data)
  {
    if a == [] {
      assert a + b == b;
    } else {
      SelectedOfTwo(a[1..], b, data);
      assert (a + b)[0] == a[0] && (a + b)[1..] == a[1..] + b;
      if a[0].secretKeyName in data {
        Assoc([FileOf(a[0], data[a[0].secretKeyName])], Selected(a[1..], data), Selected(b, data));
      }
    }
  }

  /** The entries of one Secret and the others make up all. */
  lemma {:induction false} Partition(secrets: seq<SecretFile>, answers: string -> SecretAnswer, name: string)
    ensures multiset(SelectedEach(secrets, answers))
         == multiset(OneSecret(secrets, answers, name)) + multiset(SelectedEach(Others(secrets, name), answers))
  {
    if secrets != [] {
      Partition(secrets[1..], answers, name);
      var s, rest := secrets[0], secrets[1..];
      var a := answers(s.dataSecretName);
      var first := if a.HasData? then Selected([s], a.data) else [];
      assert SelectedEach(secrets, answers) == first + SelectedEach(rest, answers);
      if s.dataSecretName == name {
        assert Of(secrets, name) == [s] + Of(rest, name);
        assert Others(secrets, name) == Others(rest, name);
        if a.HasData? {
          SelectedOfTwo([s], Of(rest, name), a.data);
        }
        assert OneSecret(secrets, answers, name) == first + OneSecret(rest, answers, name);
      } else {
        assert Of(secrets, name) == Of(rest, name);
        assert Others(secrets, name) == [s] + Others(rest, name);
        assert ([s] + Others(rest, name))[1..] == Others(rest, name);
        assert SelectedEach(Others(secrets, name), answers) == first + SelectedEach(Others(rest, name), answers);
      }
    }
  }

  lemma {:induction false} OthersKeepTheRest(secrets: seq<SecretFile>, name: string, other: string)
    requires name != other
    ensures Of(Others(secrets, name), other) == Of(secrets, other)
  {
    if secrets != [] {
      OthersKeepTheRest(secrets[1..], name, other);
      var rest := Others(secrets[1..], name);
      if secrets[0].dataSecretName != name {
        assert ([secrets[0]] + rest)[1..] == rest;
      }
    }
  }

  lemma {:induction false} NamesOfOthers(secrets: seq<SecretFile>, name: string)
    ensures Names(Others(secrets, name)) == Names(secrets) - {name}
    ensures forall s <- Others(secrets, name) :: s in secrets
  {
    if secrets != [] {
      NamesOfOthers(secrets[1..], name);
      assert Names(secrets) == {secrets[0].dataSecretName} + Names(secrets[1..]) by {
        assert forall s <- secrets :: s == secrets[0] || s in secrets[1..];
      }
      var rest := Others(secrets[1..], name);
      if secrets[0].dataSecretName != name {
        assert Names([secrets[0]] + rest) == {secrets[0].dataSecretName} + Names(rest) by {
          assert forall s <- [secrets[0]] + rest :: s == secrets[0] || s in rest;
        }
      }
    }
  }

  lemma {:induction false} GroupedOfOthers(secrets: seq<SecretFile>, answers: string -> SecretAnswer, order: seq<string>, name: string)
    requires name !in order
    ensures Grouped(Others(secrets, name), answers, order) == Grouped(secrets, answers, order)
  {
    if order != [] {
      assert order[0] in order && forall n <- order[1..] :: n in order;
      OthersKeepTheRest(secrets, name, order[0]);
      GroupedOfOthers(secrets, answers, order[1..], name);
    }
  }

  /** For every iteration order, the files taken from Secrets are a permutation of the files of exactly
      the entries whose key exists. */
  lemma {:induction false} EveryOrderKeepsAllFiles(secrets: seq<SecretFile>, answers: string -> SecretAnswer, order: seq<string>)
    requires IsOrder(order, Names(secrets))
    ensures multiset(Grouped(secrets, answers, order)) == multiset(SelectedEach(secrets, answers))
    decreases |order|
  {
    if order == [] {
      if secrets != [] {
        SomeName(secrets, order);
      }
    } else {
      var name, rest := order[0], Others(secrets, order[0]);
      Partition(secrets, answers, name);
      NamesOfOthers(secrets, name);
      OrderOfRest(order, Names(secrets));
      EveryOrderKeepsAllFiles(rest, answers, order[1..]);
      GroupedOfOthers(secrets, answers, order[1..], name);
    }
  }

  lemma SomeName(secrets: seq<SecretFile>, order: seq<string>)
    requires IsOrder(order, Names(secrets)) && secrets != []
    ensures order != []
  {
    assert secrets[0].dataSecretName in Names(secrets);
  }

  lemma OrderOfRest(order: seq<string>, names: set<string>)
    requires order != [] && IsOrder(order, names)
    ensures IsOrder(order[1..], names - {order[0]}) && order[0] !in order[1..]
  {
    var rest := order[1..];
    assert forall j | 0 <= j < |rest| :: rest[j] == order[j + 1];
    forall n
      ensures n in rest <==> n in names - {order[0]}
    {
      if n in names - {order[0]} {
        var i :| 0 <= i < |order| && order[i] == n;
        assert rest[i - 1] == n;
      }
    }
  }

  lemma {:induction false} GroupedOfTwo(secrets: seq<SecretFile>, answers: string -> SecretAnswer, a: seq<string>, b: seq<string>)
    ensures Grouped(secrets, answers, a + b) == Grouped(secrets, answers, a) + Grouped(secrets, answers, b)
  {
    if a == [] {
      assert a + b == b;
    } else {
      GroupedOfTwo(secrets, answers, a[1..], b);
      assert (a + b)[0] == a[0] && (a + b)[1..] == a[1..] + b;
      Assoc(OneSecret(secrets, answers, a[0]), Grouped(secrets, answers, a[1..]), Grouped(secrets, answers, b));
    }
  }

  /** The files of one Secret stand together, in the order of its entries. */
  lemma OrderWithinSecret(secrets: seq<SecretFile>, answers: string -> SecretAnswer, order: seq<string>, i: nat)
    requires i < |order|
    ensures Grouped(secrets, answers, order)
         == Grouped(secrets, answers, order[..i]) + OneSecret(secrets, answers, order[i]) + Grouped(secrets, answers, order[i + 1..])
  {
    assert order == order[..i] + order[i..] && order[i..][0] == order[i] && order[i..][1..] == order[i + 1..];
    GroupedOfTwo(secrets, answers, order[..i], order[i..]);
    Assoc(Grouped(secrets, answers, order[..i]), OneSecret(secrets, answers, order[i]), Grouped(secrets, answers, order[i + 1..]));
  }

  // What the files hold

  /** The entry's Secret was read and holds its key. */
  predicate Available(s: SecretFile, answers: string -> SecretAnswer) {
    answers(s.dataSecretName).HasData? && s.secretKeyName in answers(s.dataSecretName).data
  }

  /** The file of an entry: its attributes, and the data under its key. */
  function EntryFile(s: SecretFile, answers: string -> SecretAnswer): File
    requires Available(s, answers)
  {
    File(s.path, s.owner, s.permissions, s.encoding, answers(s.dataSecretName).data[s.secretKeyName])
  }

  function NumAvailable(secrets: seq<SecretFile>, answers: string -> SecretAnswer): nat {
    if secrets == [] then 0 else (if Available(secrets[0], answers) then 1 else 0) + NumAvailable(secrets[1..], answers)
  }

  lemma {:induction false} SelectedEachHolds(secrets: seq<SecretFile>, answers: string -> SecretAnswer)
    ensures forall f: File :: f in SelectedEach(secrets, answers) <==> IsEntryFile(f, secrets, answers)
    ensures |SelectedEach(secrets, answers)| == NumAvailable(secrets, answers)
  {
    if secrets != [] {
      var s, rest := secrets[0], secrets[1..];
      SelectedEachHolds(rest, answers);
      var first := if Available(s, answers) then [EntryFile(s, answers)] else [];
      FirstSelected(s, rest, answers);
      forall f: File
        ensures f in SelectedEach(secrets, answers) <==> IsEntryFile(f, secrets, answers)
      {
        assert f in first + SelectedEach(rest, answers) <==> f in first || f in SelectedEach(rest, answers);
        if i :| 0 <= i < |secrets| && Available(secrets[i], answers) && f == EntryFile(secrets[i], answers) {
          assert i > 0 ==> secrets[i] == rest[i - 1];
        }
        if i :| 0 <= i < |rest| && Available(rest[i], answers) && f == EntryFile(rest[i], answers) {
          assert secrets[i + 1] == rest[i];
        }
      }
    }
  }

  lemma FirstSelected(s: SecretFile, rest: seq<SecretFile>, answers: string -> SecretAnswer)
    ensures SelectedEach([s] + rest, answers)
         == (if Available(s, answers) then [EntryFile(s, answers)] else []) + SelectedEach(rest, answers)
  {
    assert ([s] + rest)[0] == s && ([s] + rest)[1..] == rest;
    var a := answers(s.dataSecretName);
    if a.HasData? {
      assert [s][1..] == [] && Selected([s][1..], a.data) == [];
    }
  }

  lemma FirstOfSecret(s: SecretFile, rest: seq<SecretFile>, answers: string -> SecretAnswer, name: string)
    ensures OneSecret([s] + rest, answers, name)
         == (if s.dataSecretName == name && Available(s, answers) then [EntryFile(s, answers)] else [])
            + OneSecret(rest, answers, name)
  {
    assert ([s] + rest)[0] == s && ([s] + rest)[1..] == rest;
    if s.dataSecretName == name {
      assert ([s] + Of(rest, name))[1..] == Of(rest, name);
    }
  }

  /** In `files` the file `a` stands somewhere before `b`. */
  predicate StandsBefore(files: seq<File>, a: File, b: File) {
    exists p, q | 0 <= p < q < |files| :: files[p] == a && files[q] == b
  }

  /** The files of one Secret's entries, entry by entry. */
  lemma {:induction false} SelectedInOrder(secrets: seq<SecretFile>, answers: string -> SecretAnswer, name: string, i: nat, j: nat)
    requires i < j < |secrets| && secrets[i].dataSecretName == secrets[j].dataSecretName == name
    requires Available(secrets[i], answers) && Available(secrets[j], answers)
    ensures StandsBefore(OneSecret(secrets, answers, name), EntryFile(secrets[i], answers), EntryFile(secrets[j], answers))
  {
    var s, rest := secrets[0], secrets[1..];
    var all, tail := OneSecret(secrets, answers, name), OneSecret(rest, answers, name);
    assert secrets == [s] + rest;
    FirstOfSecret(s, rest, answers, name);
    var first := if s.dataSecretName == name && Available(s, answers) then [EntryFile(s, answers)] else [];
    if i > 0 {
      SelectedInOrder(rest, answers, name, i - 1, j - 1);
      LaterInOrder(first, tail, EntryFile(secrets[i], answers), EntryFile(secrets[j], answers));
    } else {
      SelectedIn(rest, answers, name, j - 1);
      var q :| 0 <= q < |tail| && tail[q] == EntryFile(secrets[j], answers);
      assert all[0] == first[0] && all[q + 1] == tail[q];
    }
  }

  lemma LaterInOrder(first: seq<File>, tail: seq<File>, a: File, b: File)
    requires StandsBefore(tail, a, b)
    ensures StandsBefore(first + tail, a, b)
  {
    var p, q :| 0 <= p < q < |tail| && tail[p] == a && tail[q] == b;
    var all := first + tail;
    assert all[|first| + p] == a && all[|first| + q] == b;
  }

  lemma StillInOrder(files: seq<File>, more: seq<File>, a: File, b: File)
    requires StandsBefore(files, a, b)
    ensures StandsBefore(files + more, a, b)
  {
    var p, q :| 0 <= p < q < |files| && files[p] == a && files[q] == b;
    var all := files + more;
    assert all[p] == a && all[q] == b;
  }

  lemma {:induction false} SelectedIn(secrets: seq<SecretFile>, answers: string -> SecretAnswer, name: string, j: nat)
    requires j < |secrets| && secrets[j].dataSecretName == name && Available(secrets[j], answers)
    ensures EntryFile(secrets[j], answers) in OneSecret(secrets, answers, name)
  {
    var s, rest := secrets[0], secrets[1..];
    assert secrets == [s] + rest;
    FirstOfSecret(s, rest, answers, name);
    if j > 0 {
      SelectedIn(rest, answers, name, j - 1);
    }
  }

  /** `f` is the file of an available entry. */
  predicate IsEntryFile(f: File, secrets: seq<SecretFile>, answers: string -> SecretAnswer) {
    exists i | 0 <= i < |secrets| :: Available(secrets[i], answers) && f == EntryFile(secrets[i], answers)
  }

  /** Of two available entries of one Secret the earlier one's file stands first. */
  predicate KeepsOrder(files: seq<File>, secrets: seq<SecretFile>, answers: string -> SecretAnswer) {
    forall i, j | 0 <= i < j < |secrets| && secrets[i].dataSecretName == secrets[j].dataSecretName
                  && Available(secrets[i], answers) && Available(secrets[j], answers) ::
      StandsBefore(files, EntryFile(secrets[i], answers), EntryFile(secrets[j], answers))
  }

  /** `files` are the files of exactly the available entries, as many as there are such entries, those of
      one Secret in the order of the entries. */
  ghost predicate HoldsEntries(files: seq<File>, secrets: seq<SecretFile>, answers: string -> SecretAnswer) {
    && (forall f: File :: f in files <==> IsEntryFile(f, secrets, answers))
    && |files| == NumAvailable(secrets, answers)
    && KeepsOrder(files, secrets, answers)
  }

  /** So it is for every iteration order. */
  lemma EveryOrderHoldsEntries(secrets: seq<SecretFile>, answers: string -> SecretAnswer, order: seq<string>)
    requires IsOrder(order, Names(secrets))
    ensures HoldsEntries(Grouped(secrets, answers, order), secrets, answers)
  {
    var files := Grouped(secrets, answers, order);
    EveryOrderKeepsAllFiles(secrets, answers, order);
    SelectedEachHolds(secrets, answers);
    SameElements(files, SelectedEach(secrets, answers));
    EveryOrderKeepsOrder(secrets, answers, order);
  }

  lemma EveryOrderKeepsOrder(secrets: seq<SecretFile>, answers: string -> SecretAnswer, order: seq<string>)
    requires IsOrder(order, Names(secrets))
    ensures KeepsOrder(Grouped(secrets, answers, order), secrets, answers)
  {
    forall i, j | 0 <= i < j < |secrets| && secrets[i].dataSecretName == secrets[j].dataSecretName
                  && Available(secrets[i], answers) && Available(secrets[j], answers)
      ensures StandsBefore(Grouped(secrets, answers, order), EntryFile(secrets[i], answers), EntryFile(secrets[j], answers))
    {
      GroupedInOrder(secrets, answers, order, i, j);
    }
  }

  lemma SameElements(a: seq<File>, b: seq<File>)
    requires multiset(a) == multiset(b)
    ensures |a| == |b| && forall f: File :: f in a <==> f in b
  {
    assert |a| == |multiset(a)| && |b| == |multiset(b)|;
    forall f: File
      ensures f in a <==> f in b
    {
      assert f in a <==> f in multiset(a);
      assert f in b <==> f in multiset(b);
    }
  }

  lemma GroupedInOrder(secrets: seq<SecretFile>, answers: string -> SecretAnswer, order: seq<string>, i: nat, j: nat)
    requires IsOrder(order, Names(secrets))
    requires i < j < |secrets| && secrets[i].dataSecretName == secrets[j].dataSecretName
    requires Available(secrets[i], answers) && Available(secrets[j], answers)
    ensures StandsBefore(Grouped(secrets, answers, order), EntryFile(secrets[i], answers), EntryFile(secrets[j], answers))
  {
    var name := secrets[i].dataSecretName;
    assert name in Names(secrets);
    var k :| 0 <= k < |order| && order[k] == name;
    OrderWithinSecret(secrets, answers, order, k);
    SelectedInOrder(secrets, answers, name, i, j);
    var before, own := Grouped(secrets, answers, order[..k]), OneSecret(secrets, answers, name);
    LaterInOrder(before, own, EntryFile(secrets[i], answers), EntryFile(secrets[j], answers));
    StillInOrder(before + own, Grouped(secrets, answers, order[k + 1..]), EntryFile(secrets[i], answers), EntryFile(secrets[j], answers));
  }

  // The whole pipeline

  lemma DataStartsWithComment(isPrint: char -> bool, c: Config)
    ensures Write(isPrint, c) != "" && Write(isPrint, c)[0] == '#'
  {
  }

  /** At the start of the cloud-config there is no delimiter. */
  lemma NoDelimiterAtStart(boundary: string, data: string)
    requires data != "" && data[0] == '#'
    ensures Occurs(Delimiter(boundary), "\r\n" + data) <==> Occurs(Delimiter(boundary), data)
  {
    var d, text := Delimiter(boundary), "\r\n" + data;
    assert d[0] == '\r' && d[2] == '-';
    if Occurs(d, text) {
      var i :| 0 <= i <= |text| - |d| && text[i..][..|d|] == d;
      assert text[i..][..|d|][0] == text[i] && text[i..][..|d|][2] == text[i + 2];
      assert i >= 2;
      assert text[i..] == data[i - 2..];
    }
    if Occurs(d, data) {
      var i :| 0 <= i <= |data| - |d| && data[i..][..|d|] == d;
      assert text[i + 2..] == data[i..];
    }
  }

  /** The rendered bytes, read as a message and then as a cloud-config, give back the files and the
      commands of the Config exactly when the boundary's delimiter does not occur in the cloud-config
      and, in that case, every file is clean. */
  lemma BootstrapDataReadsBack(spec: Spec, env: Env, order: seq<string>)
    requires env.marshalled.Some? && IsBoundary(env.boundary) && ControlsEscaped(env.isPrint) && OtherKeys(spec.otherKeys)
    ensures var data := Write(env.isPrint, CloudConfig(spec, env, order));
            var read := ReadMessage(Rendered(spec, env, order));
            && (read == Some(data) <==> !Occurs(Delimiter(env.boundary), data))
            && (read == Some(data) ==>
                  ((ReadDocument(read.value).Parsed?
                    && ReadDocument(read.value).value == (Files(spec, env, order),
                                                          spec.preCommands + [CritUp(spec.verbose)] + spec.postCommands))
                   <==> forall f <- Files(spec, env, order) :: Clean(f)))
  {
    var c := CloudConfig(spec, env, order);
    var data := Write(env.isPrint, c);
    DataStartsWithComment(env.isPrint, c);
    NoDelimiterAtStart(env.boundary, data);
    MessageReadsBackExactlyWhen(env.boundary, data);
    DocumentReadsBackExactlyWhen(env.isPrint, c);
  }
}

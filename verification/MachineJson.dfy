/** Patching a Machine: what the two writes do to the stored JSON, said of Machine values. */
module MachineJson {
  import opened Wrappers
  import opened Json
  import opened MachineApi
  import opened PatchHelper
  import opened PatchLaws
  import opened Reconciling

  lemma {:induction false} UnionNullFree(parts: seq<Fields>)
    requires forall p <- parts :: NullFree(Obj(p))
    ensures NullFree(Obj(Union(parts)))
  {
    if parts != [] {
      var front, last := parts[..|parts| - 1], parts[|parts| - 1];
      UnionNullFree(front);
      forall k | k in Union(parts)
        ensures NullFree(Union(parts)[k])
      {
        assert if k in last then NullFree(Obj(last)) else NullFree(Obj(Union(front)));
      }
    }
  }

  lemma RefIsNullFree(k: string, o: Option<ObjectReference>)
    ensures NullFree(Obj(OptRef(k, o)))
  {
    if o.Some? {
      assert NullFree(EncodeRef(o.value));
    }
  }

  lemma SpecIsNullFree(s: SpecValue)
    ensures NullFree(EncodeSpec(s))
  {
    assert NullFree(EncodeRef(s.configRef));
    RefIsNullFree("infrastructureRef", s.infrastructureRef);
    assert forall p <- SpecMembers(s) :: NullFree(Obj(p));
    UnionNullFree(SpecMembers(s));
  }

  lemma StatusIsNullFree(s: StatusValue)
    ensures NullFree(EncodeStatus(s))
  {
    RefIsNullFree("nodeRef", s.nodeRef);
    assert forall p <- StatusMembers(s) :: NullFree(Obj(p));
    UnionNullFree(StatusMembers(s));
  }

  /** Null-free JSON introduces no null. */
  lemma {:induction false} NullFreeIsKept(a: Json, b: Json)
    requires b.Obj? && NullFree(b)
    ensures NullsKept(FieldsOf(a), b.fields)
    decreases b
  {
    forall k | k in b.fields && k in FieldsOf(a) && FieldsOf(a)[k].Obj? && b.fields[k].Obj?
      ensures NullsKept(FieldsOf(a)[k].fields, b.fields[k].fields)
    {
      assert NullFree(b.fields[k]);
      NullFreeIsKept(FieldsOf(a)[k], b.fields[k]);
    }
  }

  /** The only null in the JSON of a Machine is an unset creation time, which no reconcile changes. */
  lemma MetaNullsKept(a: Meta, b: Meta)
    requires a.creationTimestamp == b.creationTimestamp
    ensures NullsKept(EncodeMeta(a).fields, EncodeMeta(b).fields)
  {
    var f, g := EncodeMeta(a).fields, EncodeMeta(b).fields;
    var rest := Union(MetaMembers(b));
    assert NullFree(EncodeLabels(b.labels));
    assert forall p <- MetaMembers(b) :: NullFree(Obj(p));
    UnionNullFree(MetaMembers(b));
    forall k | k in g && k != "creationTimestamp"
      ensures if k in f && f[k].Obj? && g[k].Obj? then NullsKept(f[k].fields, g[k].fields) else NullFree(g[k])
    {
      assert g[k] == rest[k] && NullFree(rest[k]);
      if k in f && f[k].Obj? && g[k].Obj? {
        NullFreeIsKept(f[k], g[k]);
      }
    }
  }

  /** The stored Machine after Patch is the old one with the accepted halves of the new one. */
  lemma MachinePatched(before: MachineValue, after: MachineValue, resourceOk: bool, statusOk: bool)
    requires before.meta.creationTimestamp == after.meta.creationTimestamp
    ensures Patched(true, Encode(before), Encode(after), Encode(before), resourceOk, statusOk)
            == Encode(Halves(before, after, resourceOk, statusOk))
  {
    var b, a := Encode(before), Encode(after);
    MetaNullsKept(before.meta, after.meta);
    SpecIsNullFree(after.spec);
    StatusIsNullFree(after.status);
    NullFreeIsKept(EncodeSpec(before.spec), EncodeSpec(after.spec));
    NullFreeIsKept(EncodeStatus(before.status), EncodeStatus(after.status));
    assert NullsKept(b, a);
    TypedPatchReachesAfter(b, a);
    FailedWriteLeavesItsHalf(b, a);
    HalvesEncoded(before, after, resourceOk, statusOk);
  }

  lemma HalvesEncoded(before: MachineValue, after: MachineValue, resourceOk: bool, statusOk: bool)
    ensures Encode(Halves(before, after, resourceOk, statusOk))
            == if resourceOk && statusOk then Encode(after)
               else if resourceOk then WithStatusOf(Encode(after), Encode(before))
               else if statusOk then WithStatusOf(Encode(before), Encode(after))
               else Encode(before)
  {
  }

  // A Machine can be read from its JSON.

  /** The member `k` of the union is that of the one part that can hold it. */
  lemma {:induction false} UnionMember(parts: seq<Fields>, i: nat, k: string)
    requires i < |parts| && forall j | 0 <= j < |parts| && j != i :: k !in parts[j]
    ensures k in Union(parts) <==> k in parts[i]
    ensures k in parts[i] ==> Union(parts)[k] == parts[i][k]
  {
    var front := parts[..|parts| - 1];
    if i == |parts| - 1 {
      NotInUnion(front, k);
    } else {
      UnionMember(front, i, k);
    }
  }

  lemma {:induction false} NotInUnion(parts: seq<Fields>, k: string)
    requires forall j | 0 <= j < |parts| :: k !in parts[j]
    ensures k !in Union(parts)
  {
    if parts != [] {
      NotInUnion(parts[..|parts| - 1], k);
    }
  }

  /** Each part holds its own key or nothing. */
  predicate Keyed(parts: seq<Fields>, keys: seq<string>) {
    |parts| == |keys| && forall i | 0 <= i < |keys| :: parts[i].Keys <= {keys[i]}
  }

  predicate Distinct(keys: seq<string>) {
    forall i, j | 0 <= i < j < |keys| :: keys[i] != keys[j]
  }

  lemma UnionInjective(f: seq<Fields>, g: seq<Fields>, keys: seq<string>)
    requires Keyed(f, keys) && Keyed(g, keys) && Distinct(keys) && Union(f) == Union(g)
    ensures f == g
  {
    forall i | 0 <= i < |keys|
      ensures f[i] == g[i]
    {
      forall j | 0 <= j < |keys| && j != i
        ensures keys[i] !in f[j] && keys[i] !in g[j]
      {
        assert i < j || j < i;
      }
      UnionMember(f, i, keys[i]);
      UnionMember(g, i, keys[i]);
    }
  }

  const SPEC_KEYS := ["configRef", "infrastructureRef", "providerID", "failureDomain"]
  const STATUS_KEYS := ["infrastructureReady", "nodeRef", "lastUpdated", "version", "failureReason", "failureMessage", "phase", "addresses"]
  const META_KEYS := ["name", "namespace", "uid", "labels", "finalizers", "deletionTimestamp", "creationTimestamp"]

  lemma KeysDistinct()
    ensures Distinct(SPEC_KEYS) && Distinct(STATUS_KEYS) && Distinct(META_KEYS)
  {
    assert STATUS_KEYS[1][0] == 'n' && STATUS_KEYS[3][0] == 'v';
    assert META_KEYS[5][0] == 'd' && META_KEYS[6][0] == 'c';
  }

  lemma SpecInjective(a: SpecValue, b: SpecValue)
    requires EncodeSpec(a) == EncodeSpec(b)
    ensures a == b
  {
    var f, g := SpecMembers(a), SpecMembers(b);
    KeysDistinct();
    UnionInjective(f, g, SPEC_KEYS);
    assert f[0]["configRef"] == g[0]["configRef"];
    RefInjective(a.configRef, b.configRef);
    assert f[1] == g[1] && f[2] == g[2] && f[3] == g[3];
    OptRefInjective("infrastructureRef", a.infrastructureRef, b.infrastructureRef);
    OptStrInjective("providerID", a.providerID, b.providerID);
    OptStrInjective("failureDomain", a.failureDomain, b.failureDomain);
  }

  lemma StatusInjective(a: StatusValue, b: StatusValue)
    requires EncodeStatus(a) == EncodeStatus(b)
    ensures a == b
  {
    KeysDistinct();
    StatusKeyed(a);
    StatusKeyed(b);
    UnionInjective(StatusMembers(a), StatusMembers(b), STATUS_KEYS);
    StatusByParts(a, b);
  }

  lemma StatusKeyed(s: StatusValue)
    ensures Keyed(StatusMembers(s), STATUS_KEYS)
  {
  }

  lemma StatusByParts(a: StatusValue, b: StatusValue)
    requires StatusMembers(a) == StatusMembers(b)
    ensures a == b
  {
    assert StatusMembers(a)[0]["infrastructureReady"] == StatusMembers(b)[0]["infrastructureReady"];
    StatusReferences(a, b);
    StatusTexts(a, b);
    assert StatusMembers(a)[6] == StatusMembers(b)[6] && StatusMembers(a)[7] == StatusMembers(b)[7];
    PhaseInjective(a.phase, b.phase);
    AddressesInjective(a.addresses, b.addresses);
  }

  lemma StatusReferences(a: StatusValue, b: StatusValue)
    requires StatusMembers(a) == StatusMembers(b)
    ensures a.nodeRef == b.nodeRef && a.lastUpdated == b.lastUpdated
  {
    assert StatusMembers(a)[1] == StatusMembers(b)[1] && StatusMembers(a)[2] == StatusMembers(b)[2];
    OptRefInjective("nodeRef", a.nodeRef, b.nodeRef);
    OptNumInjective("lastUpdated", a.lastUpdated, b.lastUpdated);
  }

  lemma StatusTexts(a: StatusValue, b: StatusValue)
    requires StatusMembers(a) == StatusMembers(b)
    ensures a.version == b.version && a.failureReason == b.failureReason && a.failureMessage == b.failureMessage
  {
    assert StatusMembers(a)[3] == StatusMembers(b)[3] && StatusMembers(a)[4] == StatusMembers(b)[4];
    assert StatusMembers(a)[5] == StatusMembers(b)[5];
    OptStrInjective("version", a.version, b.version);
    OptStrInjective("failureReason", a.failureReason, b.failureReason);
    OptStrInjective("failureMessage", a.failureMessage, b.failureMessage);
  }

  lemma PhaseInjective(a: Phase, b: Phase)
    requires (if a == Unset then map[] else map["phase" := Str(PhaseText(a))])
          == (if b == Unset then map[] else map["phase" := Str(PhaseText(b))])
    ensures a == b
  {
    var f := if a == Unset then map[] else map["phase" := Str(PhaseText(a))];
    var g := if b == Unset then map[] else map["phase" := Str(PhaseText(b))];
    assert "phase" in f <==> a != Unset;
    assert "phase" in g <==> b != Unset;
    if a != Unset {
      assert f["phase"] == g["phase"];
      assert PhaseText(a) == PhaseText(b);
      PhaseTextInjective(a, b);
    }
  }

  lemma PhaseTextInjective(a: Phase, b: Phase)
    requires PhaseText(a) == PhaseText(b)
    ensures a == b
  {
    assert PhaseText(Pending)[0] == 'P' && PhaseText(Running)[0] == 'R' && PhaseText(Unknown)[0] == 'U';
    assert |PhaseText(a)| == |PhaseText(b)|;
  }

  lemma AddressesInjective(a: seq<MachineAddress>, b: seq<MachineAddress>)
    requires EncodeAddresses(a) == EncodeAddresses(b)
    ensures a == b
  {
    assert "addresses" in EncodeAddresses(a) <==> a != [];
    assert "addresses" in EncodeAddresses(b) <==> b != [];
    if a != [] {
      assert EncodeAddresses(a)["addresses"] == EncodeAddresses(b)["addresses"];
      var x, y := EncodeAddresses(a)["addresses"].items, EncodeAddresses(b)["addresses"].items;
      forall i | 0 <= i < |a|
        ensures a[i] == b[i]
      {
        assert x[i] == EncodeAddress(a[i]) && y[i] == EncodeAddress(b[i]);
        assert x[i].fields["type"] == y[i].fields["type"] && x[i].fields["address"] == y[i].fields["address"];
      }
    }
  }

  /** The parts of the metadata, the creation time last. */
  function MetaParts(m: Meta): seq<Fields> {
    MetaMembers(m) + [map["creationTimestamp" := if m.creationTimestamp.Some? then Num(m.creationTimestamp.value) else Null]]
  }

  lemma MetaInjective(a: Meta, b: Meta)
    requires EncodeMeta(a) == EncodeMeta(b)
    ensures a == b
  {
    KeysDistinct();
    MetaIsUnion(a);
    MetaIsUnion(b);
    MetaKeyed(a);
    MetaKeyed(b);
    UnionInjective(MetaParts(a), MetaParts(b), META_KEYS);
    assert MetaParts(a)[..6] == MetaMembers(a) && MetaParts(b)[..6] == MetaMembers(b);
    MetaNames(a, b);
    LabelsInjective(a, b);
    FinalizersInjective(a, b);
    MetaTimes(a, b);
  }

  lemma MetaKeyed(m: Meta)
    ensures Keyed(MetaParts(m), META_KEYS)
  {
  }

  lemma MetaNames(a: Meta, b: Meta)
    requires MetaMembers(a) == MetaMembers(b)
    ensures a.name == b.name && a.namespace == b.namespace && a.uid == b.uid
  {
    var f, g := MetaMembers(a), MetaMembers(b);
    assert f[0]["name"] == g[0]["name"] && f[1]["namespace"] == g[1]["namespace"] && f[2]["uid"] == g[2]["uid"];
  }

  lemma MetaTimes(a: Meta, b: Meta)
    requires MetaParts(a) == MetaParts(b)
    ensures a.deletionTimestamp == b.deletionTimestamp && a.creationTimestamp == b.creationTimestamp
  {
    var f, g := MetaParts(a), MetaParts(b);
    assert f[5] == g[5];
    OptNumInjective("deletionTimestamp", a.deletionTimestamp, b.deletionTimestamp);
    assert f[6]["creationTimestamp"] == g[6]["creationTimestamp"];
  }

  lemma MetaIsUnion(m: Meta)
    ensures EncodeMeta(m) == Obj(Union(MetaParts(m)))
  {
    var parts := MetaParts(m);
    assert parts[..|parts| - 1] == MetaMembers(m);
  }

  lemma LabelsInjective(a: Meta, b: Meta)
    requires MetaMembers(a) == MetaMembers(b)
    ensures a.labels == b.labels
  {
    assert MetaMembers(a)[3]["labels"] == MetaMembers(b)[3]["labels"];
    var f, g := EncodeLabels(a.labels).fields, EncodeLabels(b.labels).fields;
    assert forall k :: k in f <==> k in a.labels;
    assert forall k :: k in g <==> k in b.labels;
    assert forall k <- a.labels :: f[k] == Str(a.labels[k]) && g[k] == Str(b.labels[k]);
  }

  lemma FinalizersInjective(a: Meta, b: Meta)
    requires MetaMembers(a) == MetaMembers(b)
    ensures a.finalizers == b.finalizers
  {
    assert MetaMembers(a)[4]["finalizers"] == MetaMembers(b)[4]["finalizers"];
    var x, y := MetaMembers(a)[4]["finalizers"].items, MetaMembers(b)[4]["finalizers"].items;
    assert |x| == |a.finalizers| && |y| == |b.finalizers|;
    assert forall i | 0 <= i < |x| :: x[i] == Str(a.finalizers[i]) && y[i] == Str(b.finalizers[i]);
  }

  /** Different Machines have different JSON: what the next reconcile reads is what was written. */
  lemma EncodeInjective(a: MachineValue, b: MachineValue)
    requires Encode(a) == Encode(b)
    ensures a == b
  {
    var f, g := Encode(a), Encode(b);
    assert f["metadata"] == g["metadata"] && f["spec"] == g["spec"] && f["status"] == g["status"];
    MetaInjective(a.meta, b.meta);
    SpecInjective(a.spec, b.spec);
    StatusInjective(a.status, b.status);
  }

  /** The member of a part in the union of all. */
  lemma MemberOf(parts: seq<Fields>, keys: seq<string>, i: nat)
    requires Keyed(parts, keys) && Distinct(keys) && i < |keys|
    ensures Member(Union(parts), keys[i]) == Member(parts[i], keys[i])
  {
    forall j | 0 <= j < |keys| && j != i
      ensures keys[i] !in parts[j]
    {
      assert i < j || j < i;
    }
    UnionMember(parts, i, keys[i]);
  }

  function TextOrNone(o: Option<string>): Json {
    if o.Some? then Str(o.value) else Null
  }

  /** The members of the specification under their names. */
  lemma SpecMembersNamed(s: SpecValue)
    ensures var f := EncodeSpec(s).fields;
            && Member(f, "configRef") == EncodeRef(s.configRef)
            && Member(f, "infrastructureRef") == (if s.infrastructureRef.Some? then EncodeRef(s.infrastructureRef.value) else Null)
            && Member(f, "providerID") == TextOrNone(s.providerID)
            && Member(f, "failureDomain") == TextOrNone(s.failureDomain)
  {
    KeysDistinct();
    MemberOf(SpecMembers(s), SPEC_KEYS, 0);
    MemberOf(SpecMembers(s), SPEC_KEYS, 1);
    MemberOf(SpecMembers(s), SPEC_KEYS, 2);
    MemberOf(SpecMembers(s), SPEC_KEYS, 3);
  }

  /** The members of the status under their names; what is unset or empty is left out. */
  lemma StatusMembersNamed(s: StatusValue)
    ensures var f := EncodeStatus(s).fields;
            && Member(f, "infrastructureReady") == Bool(s.infrastructureReady)
            && Member(f, "nodeRef") == (if s.nodeRef.Some? then EncodeRef(s.nodeRef.value) else Null)
            && Member(f, "version") == TextOrNone(s.version)
            && Member(f, "failureReason") == TextOrNone(s.failureReason)
            && Member(f, "failureMessage") == TextOrNone(s.failureMessage)
            && Member(f, "phase") == (if s.phase == Unset then Null else Str(PhaseText(s.phase)))
  {
    KeysDistinct();
    StatusKeyed(s);
    var parts := StatusMembers(s);
    MemberOf(parts, STATUS_KEYS, 0);
    MemberOf(parts, STATUS_KEYS, 1);
    MemberOf(parts, STATUS_KEYS, 3);
    MemberOf(parts, STATUS_KEYS, 4);
    MemberOf(parts, STATUS_KEYS, 5);
    MemberOf(parts, STATUS_KEYS, 6);
  }

  /** Whoever reads a Machine from what a patch left reads the old Machine with the accepted halves of the
      new one. */
  lemma NextReadsWhatWasWritten(before: MachineValue, after: MachineValue, read: MachineValue,
                                resourceOk: bool, statusOk: bool)
    requires before.meta.creationTimestamp == after.meta.creationTimestamp
    requires Encode(read) == Patched(true, Encode(before), Encode(after), Encode(before), resourceOk, statusOk)
    ensures read == Halves(before, after, resourceOk, statusOk)
  {
    MachinePatched(before, after, resourceOk, statusOk);
    EncodeInjective(read, Halves(before, after, resourceOk, statusOk));
  }

  lemma RefInjective(a: ObjectReference, b: ObjectReference)
    requires EncodeRef(a) == EncodeRef(b)
    ensures a == b
  {
    var f, g := EncodeRef(a).fields, EncodeRef(b).fields;
    assert f["kind"] == g["kind"] && f["apiVersion"] == g["apiVersion"];
    assert f["name"] == g["name"] && f["namespace"] == g["namespace"];
  }

  lemma OptRefInjective(k: string, a: Option<ObjectReference>, b: Option<ObjectReference>)
    requires OptRef(k, a) == OptRef(k, b)
    ensures a == b
  {
    assert k in OptRef(k, a) <==> a.Some?;
    assert k in OptRef(k, b) <==> b.Some?;
    if a.Some? {
      assert OptRef(k, a)[k] == OptRef(k, b)[k];
      RefInjective(a.value, b.value);
    }
  }

  lemma OptStrInjective(k: string, a: Option<string>, b: Option<string>)
    requires OptStr(k, a) == OptStr(k, b)
    ensures a == b
  {
    assert k in OptStr(k, a) <==> a.Some?;
    assert k in OptStr(k, b) <==> b.Some?;
    if a.Some? {
      assert OptStr(k, a)[k] == OptStr(k, b)[k];
    }
  }

  lemma OptNumInjective(k: string, a: Option<int>, b: Option<int>)
    requires OptNum(k, a) == OptNum(k, b)
    ensures a == b
  {
    assert k in OptNum(k, a) <==> a.Some?;
    assert k in OptNum(k, b) <==> b.Some?;
    if a.Some? {
      assert OptNum(k, a)[k] == OptNum(k, b)[k];
    }
  }
}

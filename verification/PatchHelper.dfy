/** The patch helper: a snapshot of an object, in-place changes by its caller, then one write to
    the resource endpoint and one to the status endpoint. */
module PatchHelper {
  import opened Json
  import opened MachineApi

  /** A map nested in a Go map[string]interface{}. */
  class JsonObject {
    var fields: Fields

    constructor (fields: Fields)
      ensures this.fields == fields
    {
      this.fields := fields;
    }
  }

  /** `j` with its metadata.ownerReferences set. */
  function WithOwnerReferences(j: Fields, refs: seq<Json>): Fields {
    j["metadata" := Obj(FieldsOf(Member(j, "metadata"))["ownerReferences" := Arr(refs)])]
  }

  /** A Go map[string]interface{}: a reference whose contents change in place. The metadata, if it is a
      map, is an object of its own, since the controllers write into it; `fields` holds the rest. */
  class JsonMap {
    var fields: Fields
    var metadata: JsonObject?

    function Contents(): Fields
      reads this, metadata
    {
      if metadata == null then fields else fields["metadata" := Obj(metadata.fields)]
    }

    constructor (contents: Fields)
      ensures Contents() == contents
      ensures metadata != null ==> fresh(metadata)
    {
      if "metadata" in contents && contents["metadata"].Obj? {
        var nested := new JsonObject(contents["metadata"].fields);
        metadata := nested;
      } else {
        metadata := null;
      }
      fields := contents;
    }

    /** SetOwnerReferences: the list is set in the nested metadata, which is made if there is none. */
    method SetOwnerReferences(refs: seq<Json>)
      modifies this, metadata
      ensures Contents() == WithOwnerReferences(old(Contents()), refs)
      ensures metadata == old(metadata) || fresh(metadata)
    {
      if metadata == null {
        var nested := new JsonObject(FieldsOf(Member(fields, "metadata")));
        metadata := nested;
      }
      metadata.fields := metadata.fields["ownerReferences" := Arr(refs)];
    }

    method RemoveStatus()
      modifies this`fields
      ensures Contents() == old(Contents()) - {"status"}
    {
      fields := fields - {"status"};
    }
  }

  /** What the controllers hand to the helper. */
  datatype Resource = Typed(machine: Machine) | Unstructured(content: JsonMap)

  ghost function Roots(r: Resource): set<object>
  {
    match r
    case Typed(m) => {m, m.spec, m.status}
    case Unstructured(o) => {o}
  }

  /** Everything an in-place change can reach through a resource, and its JSON depends on. */
  ghost function Footprint(r: Resource): set<object?>
    reads Roots(r)
  {
    match r
    case Typed(m) => m.Reach()
    case Unstructured(o) => {o as object?, o.metadata}
  }

  /** The conversion of typed objects to JSON (apimachinery's, by reflection); everything below
      holds for any conversion, and MachineApi.Encode is the one the Machine reconciler uses. */
  type ToJson = MachineValue -> Fields

  /** The JSON of a resource. */
  function Marshal(r: Resource, toJson: ToJson): Fields
    reads Footprint(r)
  {
    match r
    case Typed(m) => toJson(m.Value())
    case Unstructured(o) => o.Contents()
  }

  twostate predicate NewMap(new o: JsonMap)
    reads o
  {
    fresh(o) && (o.metadata != null ==> fresh(o.metadata))
  }

  twostate predicate NewResource(new r: Resource)
    reads Roots(r)
  {
    match r
    case Typed(m) => New(m)
    case Unstructured(o) => NewMap(o)
  }

  method DeepCopyObject(r: Resource, ghost toJson: ToJson) returns (c: Resource)
    ensures fresh(Roots(c)) && NewResource(c)
    ensures c.Typed? == r.Typed? && Marshal(c, toJson) == Marshal(r, toJson)
  {
    match r
    case Typed(m) =>
      var copy := m.DeepCopy();
      c := Typed(copy);
    case Unstructured(o) =>
      var copy := new JsonMap(o.Contents());
      c := Unstructured(copy);
  }

  /** A typed object is converted into a new map; an unstructured one hands out its own map. */
  method ToUnstructured(r: Resource, toJson: ToJson) returns (u: JsonMap)
    ensures u.Contents() == Marshal(r, toJson)
    ensures if r.Typed? then fresh(u) && NewMap(u) else u == r.content
  {
    match r
    case Typed(m) => u := new JsonMap(toJson(m.Value()));
    case Unstructured(o) => u := o;
  }

  /** The conversion of `r`, stripped of its status, and the status. For an unstructured resource the
      map is the resource's own, so its status goes, too. */
  method SplitStatus(r: Resource, toJson: ToJson) returns (u: JsonMap, status: Json, found: bool)
    modifies if r.Unstructured? then {r.content} else {}
    ensures u.Contents() == old(Marshal(r, toJson)) - {"status"}
    ensures found == ("status" in old(Marshal(r, toJson))) && status == Member(old(Marshal(r, toJson)), "status")
    ensures Marshal(r, toJson) == PatchSource(r.Typed?, old(Marshal(r, toJson)))
    ensures if r.Typed? then NewMap(u) else u == r.content && u.metadata == old(u.metadata)
  {
    u := ToUnstructured(r, toJson);
    status, found := Member(u.Contents(), "status"), "status" in u.Contents();
    if found {
      u.RemoveStatus();
    }
  }

  /** The opening lines NewHelper and Patch share: copy an unstructured resource, then split the
      conversion. Patches are later built from `r`. */
  method Convert(resource: Resource, toJson: ToJson)
      returns (r: Resource, u: JsonMap, status: Json, found: bool)
    ensures u.Contents() == Marshal(resource, toJson) - {"status"}
    ensures found == ("status" in Marshal(resource, toJson)) && status == Member(Marshal(resource, toJson), "status")
    ensures r.Typed? == resource.Typed? && Marshal(r, toJson) == PatchSource(r.Typed?, Marshal(resource, toJson))
    ensures fresh(u) && NewMap(u) && (if r.Typed? then r == resource else NewMap(r.content))
  {
    r := resource;
    if r.Unstructured? {
      r := DeepCopyObject(r, toJson);
    }
    u, status, found := SplitStatus(r, toJson);
  }

  // The API server: each endpoint applies the patch and keeps the half it is not responsible for.

  datatype Write = ResourceWrite(patch: Fields) | StatusWrite(patch: Fields)

  /** `x` with the status of `y`. */
  function WithStatusOf(x: Fields, y: Fields): Fields {
    if "status" in y then x["status" := y["status"]] else x - {"status"}
  }

  function Merged(stored: Fields, patch: Fields): Fields {
    MergePatch(Obj(stored), Obj(patch)).fields
  }

  function ApplyResource(stored: Fields, patch: Fields): Fields {
    WithStatusOf(Merged(stored, patch), stored)
  }

  function ApplyStatus(stored: Fields, patch: Fields): Fields {
    WithStatusOf(stored, Merged(stored, patch))
  }

  /** An object in the API server and the writes issued to it, failed ones included. */
  class StoredObject {
    var fields: Fields
    var writes: seq<Write>

    constructor (fields: Fields)
      ensures this.fields == fields && writes == []
    {
      this.fields, writes := fields, [];
    }

    method Patch(patch: Fields, ok: bool)
      modifies this
      ensures writes == old(writes) + [ResourceWrite(patch)]
      ensures fields == if ok then ApplyResource(old(fields), patch) else old(fields)
    {
      writes := writes + [ResourceWrite(patch)];
      if ok {
        fields := ApplyResource(fields, patch);
      }
    }

    method PatchStatus(patch: Fields, ok: bool)
      modifies this
      ensures writes == old(writes) + [StatusWrite(patch)]
      ensures fields == if ok then ApplyStatus(old(fields), patch) else old(fields)
    {
      writes := writes + [StatusWrite(patch)];
      if ok {
        fields := ApplyStatus(fields, patch);
      }
    }
  }

  // What the helper does, as functions of the JSON before and after the caller's changes.

  /** The JSON a patch is computed from. Removing `status` from an unstructured object's own map
      removes it from the object the patches are built from, too. */
  function PatchSource(typed: bool, j: Fields): Fields {
    if typed then j else j - {"status"}
  }

  function Body(typed: bool, before: Fields, after: Fields): Fields {
    Diff(PatchSource(typed, before), PatchSource(typed, after))
  }

  predicate ResourceDiffers(before: Fields, after: Fields) {
    before - {"status"} != after - {"status"}
  }

  predicate StatusDiffers(before: Fields, after: Fields) {
    ("status" in before || "status" in after) && Member(before, "status") != Member(after, "status")
  }

  function Writes(typed: bool, before: Fields, after: Fields): seq<Write> {
    var body := Body(typed, before, after);
    (if ResourceDiffers(before, after) then [ResourceWrite(body)] else [])
    + (if StatusDiffers(before, after) then [StatusWrite(body)] else [])
  }

  /** The stored object after Patch, when each endpoint accepts or refuses its write. */
  function Patched(typed: bool, before: Fields, after: Fields, stored: Fields, resourceOk: bool, statusOk: bool): Fields {
    var body := Body(typed, before, after);
    var s := if ResourceDiffers(before, after) && resourceOk then ApplyResource(stored, body) else stored;
    if StatusDiffers(before, after) && statusOk then ApplyStatus(s, body) else s
  }

  function Failures(before: Fields, after: Fields, resourceOk: bool, statusOk: bool): nat {
    (if ResourceDiffers(before, after) && !resourceOk then 1 else 0)
    + (if StatusDiffers(before, after) && !statusOk then 1 else 0)
  }

  /** The helper never changes after NewHelper; `before` and the two copies are its own objects. */
  datatype Helper = Helper(
    before: JsonMap, hasStatus: bool, beforeStatus: Json, resourceFrom: Resource, statusFrom: Resource)

  /** `h` holds the snapshot of a resource whose JSON was `j`. */
  ghost predicate Holds(h: Helper, typed: bool, j: Fields, toJson: ToJson)
    reads SnapshotFootprint(h)
  {
    && h.before.Contents() == j - {"status"}
    && h.hasStatus == ("status" in j)
    && h.beforeStatus == Member(j, "status")
    && h.resourceFrom.Typed? == h.statusFrom.Typed? == typed
    && Marshal(h.resourceFrom, toJson) == Marshal(h.statusFrom, toJson) == PatchSource(typed, j)
  }

  ghost function SnapshotFootprint(h: Helper): set<object?>
    reads h.before, Roots(h.resourceFrom), Roots(h.statusFrom)
  {
    {h.before as object?, h.before.metadata} + Footprint(h.resourceFrom) + Footprint(h.statusFrom)
  }

  /** The snapshot leaves its resource unchanged and is made of new objects only, behind every pointer. */
  method NewHelper(resource: Resource, toJson: ToJson) returns (h: Helper)
    ensures Holds(h, resource.Typed?, Marshal(resource, toJson), toJson)
    ensures fresh(h.before) && NewMap(h.before) && NewResource(h.resourceFrom) && NewResource(h.statusFrom)
  {
    var r, before, beforeStatus, hasStatus := Convert(resource, toJson);
    var forResource, forStatus := CopyTwice(r, toJson);
    h := Helper(before, hasStatus, beforeStatus, forResource, forStatus);
  }

  ghost predicate MapOutside(o: JsonMap, others: set<object>)
    reads o
  {
    o !in others && o.metadata !in others
  }

  ghost predicate ResourceOutside(r: Resource, others: set<object>)
    reads Roots(r)
  {
    match r
    case Typed(m) => Outside(m, others)
    case Unstructured(o) => MapOutside(o, others)
  }

  /** No object of `others` is part of the snapshot. */
  ghost predicate SnapshotOutside(h: Helper, others: set<object>)
    reads h.before, Roots(h.resourceFrom), Roots(h.statusFrom)
  {
    MapOutside(h.before, others) && ResourceOutside(h.resourceFrom, others) && ResourceOutside(h.statusFrom, others)
  }

  /** A snapshot holds on, whatever is written to objects that it is not made of. */
  method WriteBeside(h: Helper, ghost typed: bool, ghost j: Fields, ghost toJson: ToJson, ghost others: set<object>)
    requires Holds(h, typed, j, toJson) && SnapshotOutside(h, others)
    modifies others
    ensures Holds(h, typed, j, toJson)
  {
    modify others;
  }

  /** Whatever is written after NewHelper to whatever objects existed before it, those behind the
      pointers, slices and maps of the resource included, the snapshot holds. */
  method SnapshotIsolated(resource: Resource, toJson: ToJson, ghost others: set<object>) returns (h: Helper)
    modifies others
    ensures Holds(h, resource.Typed?, old(Marshal(resource, toJson)), toJson)
  {
    h := NewHelper(resource, toJson);
    WriteBeside(h, resource.Typed?, Marshal(resource, toJson), toJson, others);
  }

  method CopyMachineTwice(m: Machine) returns (c: Machine, d: Machine)
    ensures fresh(c) && New(c) && fresh(d) && New(d)
    ensures c.Value() == m.Value() && d.Value() == m.Value()
  {
    c := m.DeepCopy();
    d := m.DeepCopy();
  }

  method CopyTwice(r: Resource, ghost toJson: ToJson) returns (c: Resource, d: Resource)
    ensures fresh(Roots(c)) && NewResource(c) && fresh(Roots(d)) && NewResource(d)
    ensures c.Typed? == d.Typed? == r.Typed?
    ensures Marshal(c, toJson) == Marshal(r, toJson) && Marshal(d, toJson) == Marshal(r, toJson)
  {
    match r
    case Typed(m) =>
      var c', d' := CopyMachineTwice(m);
      c, d := Typed(c'), Typed(d');
    case Unstructured(o) =>
      var c' := new JsonMap(o.Contents());
      var d' := new JsonMap(o.Contents());
      c, d := Unstructured(c'), Unstructured(d');
  }

  /** The two comparisons of Patch and the bodies of the writes they lead to. */
  method Compare(h: Helper, resource: Resource, toJson: ToJson, ghost j: Fields)
      returns (resourceDiffers: bool, resourceBody: Fields, statusDiffers: bool, statusBody: Fields)
    requires Holds(h, resource.Typed?, j, toJson)
    ensures resourceDiffers == ResourceDiffers(j, Marshal(resource, toJson))
    ensures statusDiffers == StatusDiffers(j, Marshal(resource, toJson))
    ensures resourceBody == statusBody == Body(resource.Typed?, j, Marshal(resource, toJson))
  {
    var before := h.before.Contents();
    var resourceFrom, statusFrom := Marshal(h.resourceFrom, toJson), Marshal(h.statusFrom, toJson);
    var r, after, afterStatus, hasStatus := Convert(resource, toJson);
    var json := Marshal(r, toJson);
    resourceBody, statusBody := Diff(resourceFrom, json), Diff(statusFrom, json);
    resourceDiffers := before != after.Contents();
    statusDiffers := (h.hasStatus || hasStatus) && h.beforeStatus != afterStatus;
  }

  /** The two writes, both attempted, failures counted. */
  method WriteHalves(store: StoredObject, resourceDiffers: bool, resourceBody: Fields, statusDiffers: bool,
                     statusBody: Fields, resourceOk: bool, statusOk: bool) returns (failures: nat)
    modifies store
    ensures store.writes == old(store.writes) + ((if resourceDiffers then [ResourceWrite(resourceBody)] else [])
                                                 + (if statusDiffers then [StatusWrite(statusBody)] else []))
    ensures var s := if resourceDiffers && resourceOk then ApplyResource(old(store.fields), resourceBody)
                     else old(store.fields);
            store.fields == if statusDiffers && statusOk then ApplyStatus(s, statusBody) else s
    ensures failures == (if resourceDiffers && !resourceOk then 1 else 0) + (if statusDiffers && !statusOk then 1 else 0)
  {
    failures := 0;
    if resourceDiffers {
      store.Patch(resourceBody, resourceOk);
      if !resourceOk {
        failures := failures + 1;
      }
    }
    if statusDiffers {
      store.PatchStatus(statusBody, statusOk);
      if !statusOk {
        failures := failures + 1;
      }
    }
  }

  /** At most one write to each endpoint. */
  method Patch(h: Helper, resource: Resource, toJson: ToJson, store: StoredObject, resourceOk: bool, statusOk: bool,
               ghost j: Fields) returns (failures: nat)
    requires Holds(h, resource.Typed?, j, toJson)
    modifies store
    ensures store.writes == old(store.writes) + Writes(resource.Typed?, j, old(Marshal(resource, toJson)))
    ensures store.fields ==
            Patched(resource.Typed?, j, old(Marshal(resource, toJson)), old(store.fields), resourceOk, statusOk)
    ensures failures == Failures(j, old(Marshal(resource, toJson)), resourceOk, statusOk)
  {
    var resourceDiffers, resourceBody, statusDiffers, statusBody := Compare(h, resource, toJson, j);
    failures := WriteHalves(store, resourceDiffers, resourceBody, statusDiffers, statusBody, resourceOk, statusOk);
  }
}

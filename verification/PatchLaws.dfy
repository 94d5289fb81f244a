/** What the patch helper guarantees about the stored object. */
module PatchLaws {
  import opened Json
  import opened PatchHelper

  /** The two endpoints together apply the whole merge patch, whatever is stored. */
  lemma HalvesCompose(stored: Fields, patch: Fields)
    ensures ApplyStatus(ApplyResource(stored, patch), patch) == Merged(stored, patch)
  {
    var s := ApplyResource(stored, patch);
    assert Member(s, "status") == Member(stored, "status");
    assert ("status" in Merged(s, patch)) == ("status" in Merged(stored, patch));
    assert ApplyStatus(s, patch) == Merged(stored, patch);
  }

  /** The one change the helper cannot express: a null status that its caller removed. */
  predicate DropsNullStatus(before: Fields, after: Fields) {
    "status" in before && before["status"].Null? && "status" !in after
  }

  /** A write to an endpoint is issued exactly if its half differs, and every write sends the whole patch. */
  lemma WritesExactlyWhen(typed: bool, before: Fields, after: Fields, resourceOk: bool, statusOk: bool)
    ensures var writes := Writes(typed, before, after);
            && (forall w <- writes :: w.patch == Body(typed, before, after))
            && ((exists w <- writes :: w.ResourceWrite?)
                <==> exists k :: k != "status" && ((k in before) != (k in after) || (k in before && before[k] != after[k])))
            && ((exists w <- writes :: w.StatusWrite?) <==> Member(before, "status") != Member(after, "status"))
            && |writes| <= 2 && (|writes| == 2 ==> writes[0].ResourceWrite? && writes[1].StatusWrite?)
            && Failures(before, after, resourceOk, statusOk)
               == (if !resourceOk && exists w <- writes :: w.ResourceWrite? then 1 else 0)
                  + (if !statusOk && exists w <- writes :: w.StatusWrite? then 1 else 0)
  {
    var writes, body := Writes(typed, before, after), Body(typed, before, after);
    if ResourceDiffers(before, after) {
      assert writes[0] == ResourceWrite(body);
    }
    if StatusDiffers(before, after) {
      assert writes[|writes| - 1] == StatusWrite(body);
    }
    DiffersExactlyWhen(before, after);
  }

  lemma DiffersExactlyWhen(before: Fields, after: Fields)
    ensures ResourceDiffers(before, after)
            <==> exists k :: k != "status" && ((k in before) != (k in after) || (k in before && before[k] != after[k]))
  {
    var b, a := before - {"status"}, after - {"status"};
    if b != a {
      var k :| k in b.Keys + a.Keys && ((k in b) != (k in a) || (k in b && b[k] != a[k]));
      assert k != "status" && (k in before) == (k in b) && (k in after) == (k in a);
    } else {
      forall k | k != "status"
        ensures (k in before) == (k in after) && (k in before ==> before[k] == after[k])
      {
        assert (k in before) == (k in b) && (k in after) == (k in a);
      }
    }
  }

  /** A resource write that is skipped would have changed nothing, whatever is stored. */
  lemma SkippedResourceWrite(before: Fields, after: Fields, stored: Fields)
    requires !ResourceDiffers(before, after)
    ensures ApplyResource(stored, Body(true, before, after)) == stored
  {
    var body := Body(true, before, after);
    assert forall k | k != "status" ::
        && ((k in before) == (k in (before - {"status"})))
        && ((k in after) == (k in (after - {"status"})))
        && (k in before ==> before[k] == (before - {"status"})[k])
        && (k in after ==> after[k] == (after - {"status"})[k]);
    assert forall k <- body :: k == "status";
    assert ApplyResource(stored, body) == stored;
  }

  /** A status write that is skipped would have changed nothing exactly when it is present before and after
      or absent before and after, or none is stored: else one of them is null, and the null would delete. */
  lemma SkippedStatusWrite(before: Fields, after: Fields, stored: Fields)
    requires !StatusDiffers(before, after)
    ensures ApplyStatus(stored, Body(true, before, after)) == stored
            <==> (("status" in before <==> "status" in after) || "status" !in stored)
  {
    var body := Body(true, before, after);
    assert "status" in body <==> !("status" in before <==> "status" in after);
    assert "status" in body ==> body["status"].Null?;
    assert "status" in Merged(stored, body) <==> "status" in stored && "status" !in body;
    assert "status" in stored && "status" !in body ==> Merged(stored, body)["status"] == stored["status"];
    if "status" in stored && "status" in body {
      assert "status" !in ApplyStatus(stored, body);
    } else {
      assert ApplyStatus(stored, body) == stored;
    }
  }

  /** Error-free Patch takes a typed object from `before` to `after`, resource and status, exactly
      when `after` introduces no null member and does not drop a status that was null. */
  lemma TypedPatchReachesAfter(before: Fields, after: Fields)
    ensures Patched(true, before, after, before, true, true) == after
            <==> NullsKept(before, after) && !DropsNullStatus(before, after)
  {
    var body := Body(true, before, after);
    if DropsNullStatus(before, after) {
      assert "status" in Patched(true, before, after, before, true, true);
    } else {
      if !ResourceDiffers(before, after) {
        SkippedResourceWrite(before, after, before);
      }
      HalvesCompose(before, body);
      var s := if ResourceDiffers(before, after) then ApplyResource(before, body) else before;
      assert WithStatusOf(s, before) == s;
      if !StatusDiffers(before, after) {
        SkippedStatusWrite(before, after, s);
      }
      assert Patched(true, before, after, before, true, true) == Merged(before, body);
      DiffThenMerge(before, after);
    }
  }

  /** When one write fails, exactly its half of the stored object is old. */
  lemma FailedWriteLeavesItsHalf(before: Fields, after: Fields)
    requires NullsKept(before, after) && !DropsNullStatus(before, after)
    ensures Patched(true, before, after, before, true, false) == WithStatusOf(after, before)
    ensures Patched(true, before, after, before, false, true) == WithStatusOf(before, after)
    ensures Patched(true, before, after, before, false, false) == before
  {
    var body := Body(true, before, after);
    DiffThenMerge(before, after);
    if !ResourceDiffers(before, after) {
      SkippedResourceWrite(before, after, before);
    }
    assert WithStatusOf(before, before) == before;
    if !StatusDiffers(before, after) {
      SkippedStatusWrite(before, after, before);
    }
    assert ApplyResource(before, body) == WithStatusOf(after, before);
    assert ApplyStatus(before, body) == WithStatusOf(before, after);
  }

  /** An unstructured object's status is never written, whatever is stored and whatever changed. */
  lemma UnstructuredKeepsStatus(before: Fields, after: Fields, stored: Fields, resourceOk: bool, statusOk: bool)
    ensures WithStatusOf(Patched(false, before, after, stored, resourceOk, statusOk), stored)
            == Patched(false, before, after, stored, resourceOk, statusOk)
  {
    var body := Body(false, before, after);
    assert "status" !in body;
    var s := if ResourceDiffers(before, after) && resourceOk then ApplyResource(stored, body) else stored;
    assert WithStatusOf(s, stored) == s;
    assert ("status" in Merged(s, body)) == ("status" in s);
    assert "status" in s ==> Merged(s, body)["status"] == s["status"];
    assert ApplyStatus(s, body) == s;
  }

  /** Apart from the status, an unstructured object is patched like a typed one. */
  lemma UnstructuredResourceHalf(before: Fields, after: Fields)
    ensures Patched(false, before, after, before, true, true) - {"status"}
            == Merged(before - {"status"}, Body(false, before, after))
  {
    var b, a, body := before - {"status"}, after - {"status"}, Body(false, before, after);
    assert "status" !in body;
    MergedWithoutStatus(before, body);
    if b == a {
      DiffEmpty(b, a);
      assert Merged(b, body) == b;
    } else {
      assert ApplyResource(before, body) - {"status"} == Merged(before, body) - {"status"};
    }
  }

  lemma MergedWithoutStatus(stored: Fields, patch: Fields)
    requires "status" !in patch
    ensures Merged(stored, patch) - {"status"} == Merged(stored - {"status"}, patch)
  {
    var s := stored - {"status"};
    forall k | k != "status"
      ensures k in Merged(stored, patch) <==> k in Merged(s, patch)
      ensures k in Merged(stored, patch) ==> Merged(stored, patch)[k] == Merged(s, patch)[k]
    {
      assert (k in s <==> k in stored) && Member(s, k) == Member(stored, k);
    }
    assert "status" !in Merged(s, patch);
  }

  /** So for an unstructured object error-free Patch reaches `after` exactly when its caller left the
      status alone and introduced no null elsewhere. */
  lemma UnstructuredPatchReachesAfter(before: Fields, after: Fields)
    ensures Patched(false, before, after, before, true, true) == after
            <==> NullsKept(before - {"status"}, after - {"status"}) && WithStatusOf(after, before) == after
  {
    var b, a := before - {"status"}, after - {"status"};
    var r := Patched(false, before, after, before, true, true);
    UnstructuredKeepsStatus(before, after, before, true, true);
    UnstructuredResourceHalf(before, after);
    DiffThenMerge(b, a);
    SamePartsSameMap(r, after, before);
  }

  lemma SamePartsSameMap(r: Fields, after: Fields, before: Fields)
    requires WithStatusOf(r, before) == r
    ensures r == after <==> r - {"status"} == after - {"status"} && WithStatusOf(after, before) == after
  {
    if r - {"status"} == after - {"status"} && WithStatusOf(after, before) == after {
      assert forall k | k != "status" :: (k in r <==> k in (r - {"status"})) && (k in after <==> k in (after - {"status"}));
      assert forall k <- r :: k in after && r[k] == after[k] by {
        forall k | k in r && k != "status"
          ensures k in after && r[k] == after[k]
        {
          assert r[k] == (r - {"status"})[k];
        }
      }
      assert r == after;
    }
  }

  /** The write a caller that changed nothing issues: none. */
  lemma UnchangedIssuesNoWrite(typed: bool, j: Fields, stored: Fields, resourceOk: bool, statusOk: bool)
    ensures Writes(typed, j, j) == [] && Patched(typed, j, j, stored, resourceOk, statusOk) == stored
  {
  }

  /** Two writers: `stored` already holds another client's change `other` to the same object. When the
      two patches meet nowhere, the result is what the other client would have made of `after`. */
  lemma DisjointWritersBothSurvive(before: Fields, after: Fields, other: Fields)
    requires NullsKept(before, after) && !DropsNullStatus(before, after)
    requires Disjoint(Obj(Body(true, before, after)), Obj(other))
    ensures Patched(true, before, after, Merged(before, other), true, true) == Merged(after, other)
  {
    var body := Body(true, before, after);
    var stored := Merged(before, other);
    PatchedIsMerged(before, after, stored);
    DisjointCommute(Obj(before), Obj(body), Obj(other));
    DiffThenMerge(before, after);
  }

  /** Whatever is stored, error-free Patch of a typed object applies the whole computed patch to it. */
  lemma PatchedIsMerged(before: Fields, after: Fields, stored: Fields)
    requires NullsKept(before, after) && !DropsNullStatus(before, after)
    ensures Patched(true, before, after, stored, true, true) == Merged(stored, Body(true, before, after))
  {
    var body := Body(true, before, after);
    HalvesCompose(stored, body);
    if !ResourceDiffers(before, after) {
      SkippedResourceWrite(before, after, stored);
    }
    if !StatusDiffers(before, after) {
      SkippedStatusWrite(before, after, ApplyResource(stored, body));
    }
  }

  /** A path the computed patch does not mention keeps what is stored at the time of the write, also
      when a write fails. */
  lemma UntouchedPathKeepsStored(typed: bool, before: Fields, after: Fields, stored: Fields, path: seq<string>,
                                 resourceOk: bool, statusOk: bool)
    requires Untouched(Obj(Body(typed, before, after)), path)
    ensures Lookup(Obj(Patched(typed, before, after, stored, resourceOk, statusOk)), path) == Lookup(Obj(stored), path)
  {
    var body := Body(typed, before, after);
    var s := if ResourceDiffers(before, after) && resourceOk then ApplyResource(stored, body) else stored;
    EndpointsKeepUntouched(stored, body, path);
    EndpointsKeepUntouched(s, body, path);
  }

  lemma EndpointsKeepUntouched(stored: Fields, patch: Fields, path: seq<string>)
    requires Untouched(Obj(patch), path)
    ensures Lookup(Obj(ApplyResource(stored, patch)), path) == Lookup(Obj(stored), path)
    ensures Lookup(Obj(ApplyStatus(stored, patch)), path) == Lookup(Obj(stored), path)
  {
    MergeFrame(Obj(stored), Obj(patch), path);
    var merged := Merged(stored, patch);
    assert Lookup(Obj(merged), path) == Lookup(Member(merged, path[0]), path[1..]);
    assert Lookup(Obj(stored), path) == Lookup(Member(stored, path[0]), path[1..]);
  }

  // The write to an external object: its owner references changed, nothing else.

  /** Whatever the provider stored meanwhile, status included, survives: only owner references are
      replaced, and only if they differ from those that were read. */
  lemma OwnerReferenceWrite(before: Fields, refs: seq<Json>, stored: Fields)
    requires Member(before, "metadata").Obj? && Member(stored, "metadata").Obj?
    ensures Patched(false, before, WithOwnerReferences(before, refs), stored, true, true)
            == if WithOwnerReferences(before, refs) == before then stored else WithOwnerReferences(stored, refs)
    ensures WithOwnerReferences(before, refs) == before ==> Writes(false, before, WithOwnerReferences(before, refs)) == []
  {
    var after := WithOwnerReferences(before, refs);
    if after != before {
      var meta := before["metadata"].fields;
      var b, a := before - {"status"}, after - {"status"};
      assert after["metadata"] != before["metadata"];
      assert a == b["metadata" := after["metadata"]];
      DiffOfOneMember(b, "metadata", after["metadata"]);
      DiffOfOneMember(meta, "ownerReferences", Arr(refs));
      OwnerReferencePatch(stored, refs);
    }
  }

  lemma DiffOfOneMember(a: Fields, k: string, v: Json)
    requires !(k in a && a[k] == v)
    ensures Diff(a, a[k := v])
            == map[k := if k in a && a[k].Obj? && v.Obj? then Obj(Diff(a[k].fields, v.fields)) else v]
  {
    var d := Diff(a, a[k := v]);
    assert forall l :: l in d ==> l == k;
  }

  lemma OwnerReferencePatch(stored: Fields, refs: seq<Json>)
    requires Member(stored, "metadata").Obj?
    ensures ApplyResource(stored, map["metadata" := Obj(map["ownerReferences" := Arr(refs)])])
            == WithOwnerReferences(stored, refs)
  {
    var inner := map["ownerReferences" := Arr(refs)];
    var m := stored["metadata"];
    assert MergePatch(m, Obj(inner)).fields == m.fields["ownerReferences" := Arr(refs)];
    assert Merged(stored, map["metadata" := Obj(inner)]) == WithOwnerReferences(stored, refs);
  }
}

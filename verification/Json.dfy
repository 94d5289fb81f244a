/** JSON values, the merge patch of RFC 7386 section 2, and the difference of two objects that a
    client sends as such a patch. */
module Json {
  datatype Json =
    | Null
    | Bool(b: bool)
    | Num(n: int)
    | Str(s: string)
    | Arr(items: seq<Json>)
    | Obj(fields: map<string, Json>)

  type Fields = map<string, Json>

  function FieldsOf(j: Json): Fields {
    if j.Obj? then j.fields else map[]
  }

  /** The member `k`; an absent member reads as null, as a missing Go map entry reads as nil. */
  function Member(f: Fields, k: string): Json {
    if k in f then f[k] else Null
  }

  /** MergePatch of RFC 7386 section 2: null deletes, an object is merged, anything else replaces. */
  function MergePatch(target: Json, patch: Json): Json
    decreases patch
  {
    if !patch.Obj? then patch
    else
      var base := FieldsOf(target);
      Obj(map k | k in base.Keys + patch.fields.Keys && !(k in patch.fields && patch.fields[k].Null?) ::
            if k in patch.fields then MergePatch(Member(base, k), patch.fields[k]) else base[k])
  }

  /** The patch a client sends to turn `a` into `b`: null for a member only `a` has, the nested
      difference where both members are objects, and `b`'s member wherever else they differ. */
  function Diff(a: Fields, b: Fields): Fields
    decreases Obj(b)
  {
    map k | k in a.Keys + b.Keys && !(k in a && k in b && a[k] == b[k]) ::
      if k !in b then Null
      else if k in a && a[k].Obj? && b[k].Obj? then Obj(Diff(a[k].fields, b[k].fields))
      else b[k]
  }

  /** No member is null, at any depth of objects (array items are never patched, so they may be). */
  predicate NullFree(j: Json) {
    !j.Null? && (j.Obj? ==> forall k <- j.fields :: NullFree(j.fields[k]))
  }

  /** `b` has a null member only where `a` has the same value already. */
  predicate NullsKept(a: Fields, b: Fields)
    decreases Obj(b)
  {
    forall k <- b ::
      || (k in a && a[k] == b[k])
      || (if k in a && a[k].Obj? && b[k].Obj? then NullsKept(a[k].fields, b[k].fields) else NullFree(b[k]))
  }

  /** Member by member: a null deletes, another member of the patch is merged, the rest is kept. */
  lemma MergedMembers(target: Json, patch: Json, k: string)
    ensures !patch.Obj? ==> MergePatch(target, patch) == patch
    ensures patch.Obj? ==>
              && MergePatch(target, patch).Obj?
              && Member(MergePatch(target, patch).fields, k)
                 == if k !in patch.fields then Member(FieldsOf(target), k)
                    else if patch.fields[k].Null? then Null
                    else MergePatch(Member(FieldsOf(target), k), patch.fields[k])
    ensures patch.Obj? && k in patch.fields && patch.fields[k].Null? ==> k !in MergePatch(target, patch).fields
  {
  }

  /** Merging into something that is not an object keeps the patch exactly when it has no null. */
  lemma {:induction false} MergeIntoNothing(target: Json, j: Json)
    requires !target.Obj? && !j.Null?
    ensures MergePatch(target, j) == j <==> NullFree(j)
    decreases j
  {
    if j.Obj? {
      var r := MergePatch(target, j);
      forall k | k in j.fields && !j.fields[k].Null?
        ensures r.fields[k] == j.fields[k] <==> NullFree(j.fields[k])
      {
        MergeIntoNothing(Null, j.fields[k]);
      }
      if NullFree(j) {
        forall k | k in j.fields
          ensures k in r.fields && r.fields[k] == j.fields[k]
        {
          assert NullFree(j.fields[k]);
        }
        assert r.fields == j.fields;
      } else {
        var k :| k in j.fields && !NullFree(j.fields[k]);
        assert k !in r.fields || r.fields[k] != j.fields[k];
      }
    }
  }

  /** Diff and MergePatch undo each other exactly when `b` introduces no null member. */
  lemma {:induction false} DiffThenMerge(a: Fields, b: Fields)
    ensures MergePatch(Obj(a), Obj(Diff(a, b))) == Obj(b) <==> NullsKept(a, b)
    decreases Obj(b)
  {
    var d := Diff(a, b);
    var r := MergePatch(Obj(a), Obj(d)).fields;
    forall k | k in b
      ensures (k in r && r[k] == b[k]) <==>
              ((k in a && a[k] == b[k]) ||
               (if k in a && a[k].Obj? && b[k].Obj? then NullsKept(a[k].fields, b[k].fields) else NullFree(b[k])))
    {
      if k in a && a[k] == b[k] {
        assert k !in d;
      } else if k in a && a[k].Obj? && b[k].Obj? {
        DiffThenMerge(a[k].fields, b[k].fields);
        assert d[k] == Obj(Diff(a[k].fields, b[k].fields));
      } else if !b[k].Null? {
        assert d[k] == b[k];
        MergeAnything(Member(a, k), b[k]);
      }
    }
    assert forall k <- r :: k in b;
    if NullsKept(a, b) {
      assert r == b;
    }
  }

  /** Where target and patch are not both objects, merging is merging into nothing. */
  lemma MergeAnything(target: Json, j: Json)
    requires !j.Null? && !(target.Obj? && j.Obj?)
    ensures MergePatch(target, j) == j <==> NullFree(j)
  {
    if target.Obj? {
      assert MergePatch(target, j) == j;
    } else {
      MergeIntoNothing(target, j);
    }
  }

  /** Where both sides are objects, no patch nested in the patch is empty, at any depth. */
  predicate NoEmptyPart(a: Fields, b: Fields)
    decreases Obj(b)
  {
    forall k <- b | k in Diff(a, b) && k in a && a[k].Obj? && b[k].Obj? ::
      Diff(a, b)[k] != Obj(map[]) && NoEmptyPart(a[k].fields, b[k].fields)
  }

  /** The patch is empty exactly when nothing changed, and no nested patch is empty. */
  lemma {:induction false} DiffEmpty(a: Fields, b: Fields)
    ensures Diff(a, b) == map[] <==> a == b
    ensures NoEmptyPart(a, b)
    decreases Obj(b)
  {
    var d := Diff(a, b);
    if a != b {
      var k :| k in a.Keys + b.Keys && !(k in a && k in b && a[k] == b[k]);
      assert k in d;
    }
    forall k | k in d && k in a && k in b && a[k].Obj? && b[k].Obj?
      ensures d[k] != Obj(map[]) && NoEmptyPart(a[k].fields, b[k].fields)
    {
      DiffEmpty(a[k].fields, b[k].fields);
    }
  }

  /** Two patches that never meet at a leaf. */
  predicate Disjoint(p: Json, q: Json) {
    p.Obj? && q.Obj? && forall k <- p.fields :: k in q.fields ==> Disjoint(p.fields[k], q.fields[k])
  }

  /** Disjoint patches commute on every target, so neither writer's changes are lost. */
  lemma {:induction false} DisjointCommute(x: Json, p: Json, q: Json)
    requires Disjoint(p, q)
    ensures MergePatch(MergePatch(x, q), p) == MergePatch(MergePatch(x, p), q)
    decreases p
  {
    var pq, qp := MergePatch(MergePatch(x, q), p).fields, MergePatch(MergePatch(x, p), q).fields;
    var base := FieldsOf(x);
    forall k | k in base.Keys + p.fields.Keys + q.fields.Keys
      ensures (k in pq <==> k in qp) && (k in pq ==> pq[k] == qp[k])
    {
      if k in p.fields && k in q.fields {
        DisjointCommute(Member(base, k), p.fields[k], q.fields[k]);
      }
    }
    assert pq == qp;
  }

  /** The value at a path of member names. */
  function Lookup(j: Json, path: seq<string>): Json
    decreases |path|
  {
    if path == [] then j
    else Lookup(Member(FieldsOf(j), path[0]), path[1..])
  }

  /** The patch has nothing to say about `path`, its prefixes or anything below it. */
  predicate Untouched(p: Json, path: seq<string>) {
    p.Obj? && path != [] && (path[0] !in p.fields || Untouched(p.fields[path[0]], path[1..]))
  }

  /** What a patch does not mention keeps whatever value is stored, also one written meanwhile. */
  lemma {:induction false} MergeFrame(x: Json, p: Json, path: seq<string>)
    requires Untouched(p, path)
    ensures Lookup(MergePatch(x, p), path) == Lookup(x, path)
    decreases path
  {
    var k := path[0];
    if k in p.fields {
      MergeFrame(Member(FieldsOf(x), k), p.fields[k], path[1..]);
    }
  }
}

/** The tracker that starts at most one watch per kind of external object. */
module ObjectTracker {

  datatype GroupVersionKind = GroupVersionKind(group: string, version: string, kind: string)

  /** The keys of the tracker's map: a kind's text, or an object. */
  datatype Key = Kind(text: string) | Object(id: int)

  /** GroupKind.String. */
  function KindText(gvk: GroupVersionKind): string {
    if gvk.group == "" then gvk.kind else gvk.kind + "." + gvk.group
  }

  /** The watches that were started, and whether they succeeded. */
  class Controller {
    var watches: seq<(GroupVersionKind, bool)>

    constructor ()
      ensures watches == []
    {
      watches := [];
    }

    method Watch(gvk: GroupVersionKind, ok: bool) returns (failed: bool)
      modifies this
      ensures watches == old(watches) + [(gvk, ok)] && failed == !ok
    {
      watches := watches + [(gvk, ok)];
      failed := !ok;
    }
  }

  class ObjectTracker {
    var m: set<Key>
    const controller: Controller?

    constructor (controller: Controller?)
      ensures m == {} && this.controller == controller
    {
      m, this.controller := {}, controller;
    }

    method LoadOrStore(k: Key) returns (loaded: bool)
      modifies this
      ensures loaded == (k in old(m)) && m == old(m) + {k}
    {
      loaded := k in m;
      m := m + {k};
    }

    method Delete(k: Key)
      modifies this
      ensures m == old(m) - {k}
    {
      m := m - {k};
    }

    /** `ok` is whether the controller can start the watch. What is deleted is the object, not the text
        that was stored. */
    method Watch(gvk: GroupVersionKind, obj: int, ok: bool) returns (failed: bool)
      modifies this, controller
      ensures controller == null ==> failed && m == old(m)
      ensures controller != null ==>
                var k := Kind(KindText(gvk));
                && failed == (k !in old(m) && !ok)
                && m == old(m) + {k} - (if failed then {Object(obj)} else {})
                && controller.watches == old(controller.watches) + if k in old(m) then [] else [(gvk, ok)]
    {
      if controller == null {
        return true;
      }
      var loaded := LoadOrStore(Kind(KindText(gvk)));
      if loaded {
        return false;
      }
      failed := controller.Watch(gvk, ok);
      if failed {
        Delete(Object(obj));
      }
    }
  }

  function UpToDot(s: string): string {
    if s == "" || s[0] == '.' then "" else [s[0]] + UpToDot(s[1..])
  }

  lemma {:induction false} KindOfText(kind: string, rest: string)
    requires '.' !in kind && (rest == "" || rest[0] == '.')
    ensures UpToDot(kind + rest) == kind
  {
    if kind == "" {
      assert kind + rest == rest;
    } else {
      KindOfText(kind[1..], rest);
      assert (kind + rest)[1..] == kind[1..] + rest;
    }
  }

  /** Kinds hold no dot, so the texts of different kinds differ; versions share a text. */
  lemma KindTextInjective(a: GroupVersionKind, b: GroupVersionKind)
    requires '.' !in a.kind && '.' !in b.kind
    ensures KindText(a) == KindText(b) <==> a.kind == b.kind && a.group == b.group
  {
    var restA, restB := if a.group == "" then "" else "." + a.group, if b.group == "" then "" else "." + b.group;
    assert KindText(a) == a.kind + restA && KindText(b) == b.kind + restB;
    KindOfText(a.kind, restA);
    KindOfText(b.kind, restB);
    if KindText(a) == KindText(b) {
      assert restA == KindText(a)[|a.kind|..] == restB;
      assert a.group == (if restA == "" then "" else restA[1..]);
      assert b.group == (if restB == "" then "" else restB[1..]);
    }
  }

  // Concurrent calls: every access to the map is one atomic step.

  datatype Pc = Called | Stored | WatchFailed | Returned(failed: bool)

  /** One call; `stored` is whether its LoadOrStore stored the key. */
  datatype Thread = Thread(kind: string, obj: int, pc: Pc, stored: bool)

  datatype Issued = Issued(thread: nat, kind: string, ok: bool)

  datatype State = State(m: set<Key>, threads: seq<Thread>, watches: seq<Issued>)

  datatype Step = Call(kind: string, obj: int) | LoadOrStore(i: nat) | StartWatch(i: nat, ok: bool) | Delete(i: nat)

  const INITIAL := State({}, [], [])

  function Next(s: State, step: Step): State {
    match step
    case Call(kind, obj) => s.(threads := s.threads + [Thread(kind, obj, Called, false)])
    case LoadOrStore(i) =>
      if i >= |s.threads| || s.threads[i].pc != Called then s
      else
        var t := s.threads[i];
        if Kind(t.kind) in s.m then s.(threads := s.threads[i := t.(pc := Returned(false))])
        else s.(m := s.m + {Kind(t.kind)}, threads := s.threads[i := t.(pc := Stored, stored := true)])
    case StartWatch(i, ok) =>
      if i >= |s.threads| || s.threads[i].pc != Stored then s
      else
        var t := s.threads[i];
        s.(watches := s.watches + [Issued(i, t.kind, ok)],
           threads := s.threads[i := t.(pc := if ok then Returned(false) else WatchFailed)])
    case Delete(i) =>
      if i >= |s.threads| || s.threads[i].pc != WatchFailed then s
      else
        var t := s.threads[i];
        s.(m := s.m - {Object(t.obj)}, threads := s.threads[i := t.(pc := Returned(true))])
  }

  function After(s: State, steps: seq<Step>): State
    decreases |steps|
  {
    if steps == [] then s else After(Next(s, steps[0]), steps[1..])
  }

  /** No two calls stored the same key. */
  predicate OneStored(threads: seq<Thread>) {
    forall i, j | 0 <= i < j < |threads| && threads[i].stored && threads[j].stored :: threads[i].kind != threads[j].kind
  }

  predicate StoredFor(threads: seq<Thread>, kind: string) {
    exists i | 0 <= i < |threads| :: threads[i].stored && threads[i].kind == kind
  }

  /** The map holds the texts of kinds only, each stored by a call. */
  predicate KeysOwned(m: set<Key>, threads: seq<Thread>) {
    forall k <- m :: k.Kind? && StoredFor(threads, k.text)
  }

  predicate ThreadFits(t: Thread, m: set<Key>) {
    && (t.stored ==> t.pc != Called)
    && (t.pc == Stored || t.pc == WatchFailed || t.pc == Returned(true) ==> t.stored)
    && (t.pc != Called ==> Kind(t.kind) in m)
  }

  predicate ThreadsFit(threads: seq<Thread>, m: set<Key>) {
    forall i | 0 <= i < |threads| :: ThreadFits(threads[i], m)
  }

  /** A watch was started by the call that stored the key, and that call knows how it ended. */
  predicate WatchFits(w: Issued, threads: seq<Thread>) {
    && w.thread < |threads| && threads[w.thread].stored && threads[w.thread].kind == w.kind
    && (if w.ok then threads[w.thread].pc == Returned(false)
        else threads[w.thread].pc == WatchFailed || threads[w.thread].pc == Returned(true))
  }

  predicate WatchesFit(watches: seq<Issued>, threads: seq<Thread>) {
    forall j | 0 <= j < |watches| :: WatchFits(watches[j], threads)
  }

  predicate Started(i: nat, watches: seq<Issued>) {
    exists j | 0 <= j < |watches| :: watches[j].thread == i
  }

  /** A call that stored the key and went on has started a watch. */
  predicate StoredStarted(threads: seq<Thread>, watches: seq<Issued>) {
    forall i | 0 <= i < |threads| && threads[i].stored && threads[i].pc != Stored :: Started(i, watches)
  }

  predicate OneWatchPerKind(watches: seq<Issued>) {
    forall i, j | 0 <= i < j < |watches| :: watches[i].kind != watches[j].kind
  }

  predicate Inv(s: State) {
    && OneStored(s.threads) && KeysOwned(s.m, s.threads) && ThreadsFit(s.threads, s.m)
    && WatchesFit(s.watches, s.threads) && StoredStarted(s.threads, s.watches) && OneWatchPerKind(s.watches)
  }

  lemma CallKeepsInv(s: State, t: Thread)
    requires Inv(s) && t.pc == Called && !t.stored
    ensures Inv(s.(threads := s.threads + [t]))
  {
    var threads := s.threads + [t];
    forall k | k in s.m
      ensures StoredFor(threads, k.text)
    {
      var i :| 0 <= i < |s.threads| && s.threads[i].stored && s.threads[i].kind == k.text;
      assert threads[i] == s.threads[i];
    }
    forall j | 0 <= j < |s.watches|
      ensures WatchFits(s.watches[j], threads)
    {
      assert WatchFits(s.watches[j], s.threads);
    }
  }

  /** A call whose key is there already. */
  lemma LoadKeepsInv(s: State, i: nat)
    requires Inv(s) && i < |s.threads| && s.threads[i].pc == Called && Kind(s.threads[i].kind) in s.m
    ensures Inv(s.(threads := s.threads[i := s.threads[i].(pc := Returned(false))]))
  {
    var threads := s.threads[i := s.threads[i].(pc := Returned(false))];
    forall k | k in s.m
      ensures StoredFor(threads, k.text)
    {
      var o :| 0 <= o < |s.threads| && s.threads[o].stored && s.threads[o].kind == k.text;
      assert threads[o].stored && threads[o].kind == k.text;
    }
    forall j | 0 <= j < |s.watches|
      ensures WatchFits(s.watches[j], threads)
    {
      assert WatchFits(s.watches[j], s.threads);
    }
  }

  lemma StoreKeepsInv(s: State, i: nat)
    requires Inv(s) && i < |s.threads| && s.threads[i].pc == Called && Kind(s.threads[i].kind) !in s.m
    ensures Inv(s.(m := s.m + {Kind(s.threads[i].kind)},
                   threads := s.threads[i := s.threads[i].(pc := Stored, stored := true)]))
  {
    var t := s.threads[i];
    var m, threads := s.m + {Kind(t.kind)}, s.threads[i := t.(pc := Stored, stored := true)];
    assert threads[i].stored && threads[i].kind == t.kind;
    forall o | 0 <= o < |s.threads| && s.threads[o].stored
      ensures s.threads[o].kind != t.kind
    {
      assert ThreadFits(s.threads[o], s.m);
    }
    forall k | k in m
      ensures StoredFor(threads, k.text)
    {
      if k in s.m {
        var o :| 0 <= o < |s.threads| && s.threads[o].stored && s.threads[o].kind == k.text;
        assert threads[o].stored && threads[o].kind == k.text;
      }
    }
    forall o | 0 <= o < |threads|
      ensures ThreadFits(threads[o], m)
    {
      assert ThreadFits(s.threads[o], s.m);
    }
    forall j | 0 <= j < |s.watches|
      ensures WatchFits(s.watches[j], threads)
    {
      assert WatchFits(s.watches[j], s.threads) && ThreadFits(t, s.m);
    }
  }

  /** The call that stored the key starts the first watch of its kind. */
  lemma StartKeepsInv(s: State, i: nat, ok: bool)
    requires Inv(s) && i < |s.threads| && s.threads[i].pc == Stored
    ensures Inv(s.(watches := s.watches + [Issued(i, s.threads[i].kind, ok)],
                   threads := s.threads[i := s.threads[i].(pc := if ok then Returned(false) else WatchFailed)]))
  {
    var t := s.threads[i];
    var watches := s.watches + [Issued(i, t.kind, ok)];
    var threads := s.threads[i := t.(pc := if ok then Returned(false) else WatchFailed)];
    assert ThreadFits(t, s.m);
    forall k | k in s.m
      ensures StoredFor(threads, k.text)
    {
      var o :| 0 <= o < |s.threads| && s.threads[o].stored && s.threads[o].kind == k.text;
      assert threads[o].stored && threads[o].kind == k.text;
    }
    forall o | 0 <= o < |threads|
      ensures ThreadFits(threads[o], s.m)
    {
      assert ThreadFits(s.threads[o], s.m);
    }
    forall j | 0 <= j < |s.watches|
      ensures WatchFits(s.watches[j], threads) && s.watches[j].kind != t.kind
    {
      assert WatchFits(s.watches[j], s.threads);
      var o := s.watches[j].thread;
      assert o < i || i < o;
    }
    forall o | 0 <= o < |threads| && threads[o].stored && threads[o].pc != Stored
      ensures Started(o, watches)
    {
      if o == i {
        assert watches[|s.watches|].thread == i;
      } else {
        var j :| 0 <= j < |s.watches| && s.watches[j].thread == o;
        assert watches[j].thread == o;
      }
    }
  }

  lemma DeleteKeepsInv(s: State, i: nat)
    requires Inv(s) && i < |s.threads| && s.threads[i].pc == WatchFailed
    ensures Inv(s.(m := s.m - {Object(s.threads[i].obj)}, threads := s.threads[i := s.threads[i].(pc := Returned(true))]))
    ensures s.m - {Object(s.threads[i].obj)} == s.m
  {
    var t := s.threads[i];
    var threads := s.threads[i := t.(pc := Returned(true))];
    assert ThreadFits(t, s.m) && Object(t.obj) !in s.m;
    forall k | k in s.m
      ensures StoredFor(threads, k.text)
    {
      var o :| 0 <= o < |s.threads| && s.threads[o].stored && s.threads[o].kind == k.text;
      assert threads[o].stored && threads[o].kind == k.text;
    }
    forall j | 0 <= j < |s.watches|
      ensures WatchFits(s.watches[j], threads)
    {
      assert WatchFits(s.watches[j], s.threads);
    }
  }

  lemma StepKeepsInv(s: State, step: Step)
    requires Inv(s)
    ensures Inv(Next(s, step)) && s.m <= Next(s, step).m
  {
    match step
    case Call(kind, obj) => CallKeepsInv(s, Thread(kind, obj, Called, false));
    case LoadOrStore(i) =>
      if i < |s.threads| && s.threads[i].pc == Called {
        if Kind(s.threads[i].kind) in s.m {
          LoadKeepsInv(s, i);
        } else {
          StoreKeepsInv(s, i);
        }
      }
    case StartWatch(i, ok) =>
      if i < |s.threads| && s.threads[i].pc == Stored {
        StartKeepsInv(s, i, ok);
      }
    case Delete(i) =>
      if i < |s.threads| && s.threads[i].pc == WatchFailed {
        DeleteKeepsInv(s, i);
      }
  }

  lemma {:induction false} RunKeepsInv(s: State, steps: seq<Step>)
    requires Inv(s)
    ensures Inv(After(s, steps)) && s.m <= After(s, steps).m
    decreases |steps|
  {
    if steps != [] {
      StepKeepsInv(s, steps[0]);
      RunKeepsInv(Next(s, steps[0]), steps[1..]);
    }
  }

  lemma {:induction false} AfterConcat(s: State, a: seq<Step>, b: seq<Step>)
    ensures After(s, a + b) == After(After(s, a), b)
    decreases |a|
  {
    if a == [] {
      assert a + b == b;
    } else {
      assert (a + b)[0] == a[0] && (a + b)[1..] == a[1..] + b;
      AfterConcat(Next(s, a[0]), a[1..], b);
    }
  }

  /** In every interleaving of any number of calls, at most one watch is started per kind, even when it
      fails, and no key ever leaves the map. */
  lemma WatchedAtMostOnce(earlier: seq<Step>, later: seq<Step>)
    ensures OneWatchPerKind(After(INITIAL, earlier).watches)
    ensures After(INITIAL, earlier).m <= After(INITIAL, earlier + later).m
  {
    RunKeepsInv(INITIAL, earlier);
    AfterConcat(INITIAL, earlier, later);
    RunKeepsInv(After(INITIAL, earlier), later);
  }

  predicate Watched(s: State, kind: string) {
    exists j | 0 <= j < |s.watches| :: s.watches[j].kind == kind && s.watches[j].ok
  }

  predicate CallFailed(s: State, kind: string) {
    exists i | 0 <= i < |s.threads| :: s.threads[i].kind == kind && s.threads[i].pc == Returned(true)
  }

  /** When all calls have returned, a call that returned without an error speaks the truth, that its
      kind is watched, exactly when no call for the kind returned an error. */
  lemma SuccessMeansWatchedExactlyWhen(steps: seq<Step>, i: nat)
    requires var s := After(INITIAL, steps);
             && (forall o | 0 <= o < |s.threads| :: s.threads[o].pc.Returned?)
             && i < |s.threads| && s.threads[i].pc == Returned(false)
    ensures var s := After(INITIAL, steps);
            Watched(s, s.threads[i].kind) <==> !CallFailed(s, s.threads[i].kind)
  {
    var s := After(INITIAL, steps);
    RunKeepsInv(INITIAL, steps);
    var kind := s.threads[i].kind;
    assert ThreadFits(s.threads[i], s.m) && Kind(kind) in s.m;
    var o :| 0 <= o < |s.threads| && s.threads[o].stored && s.threads[o].kind == kind;
    assert Started(o, s.watches);
    var j :| 0 <= j < |s.watches| && s.watches[j].thread == o;
    assert WatchFits(s.watches[j], s.threads);
    OnlyWatch(s, j);
    OnlyFailure(s, o, kind);
  }

  lemma OnlyWatch(s: State, j: nat)
    requires Inv(s) && j < |s.watches|
    ensures Watched(s, s.watches[j].kind) <==> s.watches[j].ok
  {
    if Watched(s, s.watches[j].kind) {
      var l :| 0 <= l < |s.watches| && s.watches[l].kind == s.watches[j].kind && s.watches[l].ok;
      assert !(l < j) && !(j < l);
    }
  }

  lemma OnlyFailure(s: State, o: nat, kind: string)
    requires Inv(s) && o < |s.threads| && s.threads[o].stored && s.threads[o].kind == kind
    ensures CallFailed(s, kind) <==> s.threads[o].pc == Returned(true)
  {
    if CallFailed(s, kind) {
      var f :| 0 <= f < |s.threads| && s.threads[f].kind == kind && s.threads[f].pc == Returned(true);
      assert ThreadFits(s.threads[f], s.m);
      assert !(f < o) && !(o < f);
    }
  }

  /** After a watch that failed, a later call for the kind succeeds without one. */
  lemma LaterCallSeesNoWatch(kind: string)
    ensures var s := After(INITIAL, [Call(kind, 1), LoadOrStore(0), StartWatch(0, false), Delete(0),
                                     Call(kind, 2), LoadOrStore(1)]);
            |s.threads| == 2 && s.threads[1].pc == Returned(false) && !Watched(s, kind)
  {
    var s1 := Next(INITIAL, Call(kind, 1));
    var s2 := Next(s1, LoadOrStore(0));
    var s3 := Next(s2, StartWatch(0, false));
    var s4 := Next(s3, Delete(0));
    var s5 := Next(s4, Call(kind, 2));
    var s6 := Next(s5, LoadOrStore(1));
    assert s4 == State({Kind(kind)}, [Thread(kind, 1, Returned(true), true)], [Issued(0, kind, false)]);
    assert s6.threads[1].pc == Returned(false) && s6.watches == s4.watches;
    SixSteps(INITIAL, Call(kind, 1), LoadOrStore(0), StartWatch(0, false), Delete(0), Call(kind, 2), LoadOrStore(1));
  }

  lemma SixSteps(s: State, a: Step, b: Step, c: Step, d: Step, e: Step, f: Step)
    ensures After(s, [a, b, c, d, e, f]) == Next(Next(Next(Next(Next(Next(s, a), b), c), d), e), f)
  {
    ThreeSteps(s, a, b, c);
    ThreeSteps(Next(Next(Next(s, a), b), c), d, e, f);
    AfterConcat(s, [a, b, c], [d, e, f]);
    assert [a, b, c] + [d, e, f] == [a, b, c, d, e, f];
  }

  lemma ThreeSteps(s: State, a: Step, b: Step, c: Step)
    ensures After(s, [a, b, c]) == Next(Next(Next(s, a), b), c)
  {
    assert [a, b, c][1..] == [b, c] && [b, c][1..] == [c] && [c][1..] == [];
    var s1 := Next(s, a);
    var s2 := Next(s1, b);
    assert After(s1, [b, c]) == After(s2, [c]);
    assert After(s2, [c]) == After(Next(s2, c), []);
  }

  /** A call that no other call interrupts does to the map what the method Watch does. */
  lemma AloneIsWatch(s: State, kind: string, obj: int, ok: bool)
    requires Inv(s)
    ensures var i := |s.threads|;
            var s' := After(After(s, [Call(kind, obj), LoadOrStore(i)]), [StartWatch(i, ok), Delete(i)]);
            var failed := Kind(kind) !in s.m && !ok;
            && |s'.threads| == i + 1 && s'.threads[i].pc == Returned(failed)
            && s'.m == s.m + {Kind(kind)} - (if failed then {Object(obj)} else {})
            && s'.watches == s.watches + if Kind(kind) in s.m then [] else [Issued(i, kind, ok)]
  {
    var i := |s.threads|;
    var s1 := Next(s, Call(kind, obj));
    var s2 := Next(s1, LoadOrStore(i));
    TwoSteps(s, Call(kind, obj), LoadOrStore(i));
    TwoSteps(s2, StartWatch(i, ok), Delete(i));
  }

  lemma TwoSteps(s: State, a: Step, b: Step)
    ensures After(s, [a, b]) == Next(Next(s, a), b)
  {
    assert [a, b][1..] == [b] && [b][1..] == [];
    var s1 := Next(s, a);
    assert After(s1, [b]) == After(Next(s1, b), []);
  }

  /** A call for the kind has stored its key and has not, or not yet, got its watch: it is under way, or
      it returned an error. */
  predicate Unsettled(s: State, kind: string) {
    exists i | 0 <= i < |s.threads| :: s.threads[i].kind == kind && s.threads[i].stored && s.threads[i].pc != Returned(false)
  }

  lemma WatchedByStoring(s: State, o: nat, kind: string)
    requires Inv(s) && o < |s.threads| && s.threads[o].stored && s.threads[o].kind == kind
    ensures Watched(s, kind) <==> s.threads[o].pc == Returned(false)
    ensures Unsettled(s, kind) <==> s.threads[o].pc != Returned(false)
  {
    assert ThreadFits(s.threads[o], s.m);
    if Watched(s, kind) {
      var j :| 0 <= j < |s.watches| && s.watches[j].kind == kind && s.watches[j].ok;
      assert WatchFits(s.watches[j], s.threads);
      assert !(s.watches[j].thread < o) && !(o < s.watches[j].thread);
    }
    if s.threads[o].pc == Returned(false) {
      assert Started(o, s.watches);
      var j :| 0 <= j < |s.watches| && s.watches[j].thread == o;
      assert WatchFits(s.watches[j], s.threads);
    }
    if Unsettled(s, kind) {
      var i :| 0 <= i < |s.threads| && s.threads[i].kind == kind && s.threads[i].stored && s.threads[i].pc != Returned(false);
      assert !(i < o) && !(o < i);
    }
  }

  /** From every reachable state: a call that no other interrupts and that returns no error leaves its kind
      watched exactly when, before it, no call for the kind was unsettled. */
  lemma LoneSuccessMeansWatchedExactlyWhen(steps: seq<Step>, kind: string, obj: int, ok: bool)
    ensures var s := After(INITIAL, steps);
            var i := |s.threads|;
            var s' := After(After(s, [Call(kind, obj), LoadOrStore(i)]), [StartWatch(i, ok), Delete(i)]);
            && |s'.threads| == i + 1
            && (s'.threads[i].pc == Returned(false) ==> (Watched(s', kind) <==> !Unsettled(s, kind)))
  {
    var s := After(INITIAL, steps);
    RunKeepsInv(INITIAL, steps);
    AloneIsWatch(s, kind, obj, ok);
    if Kind(kind) in s.m {
      assert StoredFor(s.threads, kind);
      var o :| 0 <= o < |s.threads| && s.threads[o].stored && s.threads[o].kind == kind;
      WatchedByStoring(s, o, kind);
      SameWatches(s, After(After(s, [Call(kind, obj), LoadOrStore(|s.threads|)]),
                           [StartWatch(|s.threads|, ok), Delete(|s.threads|)]), kind);
    } else {
      NothingUnsettled(s, kind);
      if ok {
        LastWatched(After(After(s, [Call(kind, obj), LoadOrStore(|s.threads|)]),
                          [StartWatch(|s.threads|, ok), Delete(|s.threads|)]), kind);
      }
    }
  }

  lemma SameWatches(s: State, s': State, kind: string)
    requires s'.watches == s.watches + []
    ensures Watched(s', kind) <==> Watched(s, kind)
  {
    assert s'.watches == s.watches;
  }

  lemma LastWatched(s: State, kind: string)
    requires s.watches != [] && s.watches[|s.watches| - 1].kind == kind && s.watches[|s.watches| - 1].ok
    ensures Watched(s, kind)
  {
  }

  lemma NothingUnsettled(s: State, kind: string)
    requires Inv(s) && Kind(kind) !in s.m
    ensures !Unsettled(s, kind)
  {
    forall i | 0 <= i < |s.threads| && s.threads[i].stored
      ensures s.threads[i].kind != kind
    {
      assert ThreadFits(s.threads[i], s.m);
    }
  }

  /** When all calls have returned, a call is unsettled exactly if it returned an error: so the next call
      speaks the truth exactly when no earlier one for its kind failed. */
  lemma UnsettledIsFailed(steps: seq<Step>, kind: string)
    requires forall t <- After(INITIAL, steps).threads :: t.pc.Returned?
    ensures Unsettled(After(INITIAL, steps), kind) <==> CallFailed(After(INITIAL, steps), kind)
  {
    var s := After(INITIAL, steps);
    RunKeepsInv(INITIAL, steps);
    assert forall i | 0 <= i < |s.threads| :: s.threads[i] in s.threads && ThreadFits(s.threads[i], s.m);
  }
}

/**
 A whole session of deletions and renamings, of the same keys or of others, undone entry by
 entry from the top of the activity log.
 */
module UndoSession {
  import opened Prelude
  import opened Manifest
  import opened Store
  import opened StoreLocality
  import opened StoreLaws
  import opened StoreUndo
  import opened ActivityLog
  import opened ConsoleState

  predicate Undoable(h: Handler) { h.Delete? || h.DeleteSelected? || h.Rename? }

  predicate AllUndoable(hs: seq<Handler>) { forall i :: 0 <= i < |hs| ==> Undoable(hs[i]) }

  /** How many entries a session logs. */
  function LoggedBy(hs: seq<Handler>, policy: Policy, s: State): nat {
    if hs == [] then 0
    else
      var front := hs[..|hs| - 1];
      LoggedBy(front, policy, s) + |LogOpsOf(hs[|hs| - 1], policy, HandleAll(front, policy, s).objects)|
  }

  /** The newest entry is undone `n` times, as long as there is one. */
  function UndoNewest(n: nat, policy: Policy, s: State): State {
    if n == 0 || s.log.entries == [] then s
    else UndoNewest(n - 1, policy, Handle(UndoEntry(s.log.entries[0]), policy, s))
  }

  // ----- lists with the same table

  /** Two lists with distinct keys have the same table iff they hold the same objects. */
  lemma SameTableIff(l: seq<Object>, r: seq<Object>)
    requires DistinctKeys(l) && DistinctKeys(r)
    ensures Table(l) == Table(r) <==> forall o :: o in l <==> o in r
  {
    hide Table;
    TableOfMembers(l);
    TableOfMembers(r);
    if forall o :: o in l <==> o in r {
      assert forall k :: k in Table(l) ==> Table(l)[k] in l;
      assert forall k :: k in Table(r) ==> Table(r)[k] in r;
      assert forall k :: k in Table(l) <==> k in Table(r);
    }
  }

  lemma TableOfMembers(l: seq<Object>)
    requires DistinctKeys(l)
    ensures forall o :: o in l <==> o.key in Table(l) && Table(l)[o.key] == o
    ensures forall k :: k in Table(l) ==> Table(l)[k].key == k
  {
    hide Table;
    TableKeys(l);
    forall o | o in l
      ensures o.key in Table(l) && Table(l)[o.key] == o
    {
      TableDistinct(l, o);
    }
  }

  lemma MapMembers(l: seq<Object>, r: seq<Object>, f: Object -> Object, o: Object)
    requires (forall x :: x in l ==> x in r) && o in MapObjects(l, f)
    ensures o in MapObjects(r, f)
  {
    hide MapObjects;
    var i :| 0 <= i < |l| && f(l[i]) == o;
    assert l[i] in r;
    var j :| 0 <= j < |r| && r[j] == l[i];
    assert MapObjects(r, f)[j] == o;
  }

  // ----- one entry undone

  /** What undoing one handler has to do: from the table after it, back to the table before. */
  ghost predicate BackTo(x: seq<Object>, l: seq<Object>) { DistinctKeys(x) && Table(x) == Table(l) }

  lemma DeletionBack(l: seq<Object>, keys: set<string>, x: seq<Object>)
    requires DistinctKeys(l) && BackTo(x, Filter(l, KeyNotIn(keys)))
    ensures BackTo(MergeIn(x, Removed(l, keys)), l)
  {
    hide Table, MergeIn, Filter, Part;
    DeletionParts(l, keys);
    TableParts(l, keys);
    TableMerge(x, Removed(l, keys));
    MergeDistinct(x, Removed(l, keys));
  }

  lemma RenamingBack(l: seq<Object>, a: string, b: string, x: seq<Object>)
    requires DistinctKeys(l) && !HasKey(l, b) && BackTo(x, MapObjects(l, Rekey(a, b)))
    ensures BackTo(MapObjects(x, Rekey(b, a)), l)
  {
    hide Table, MapObjects, DistinctKeys;
    var there := MapObjects(l, Rekey(a, b));
    var back := MapObjects(x, Rekey(b, a));
    RekeyDistinct(l, a, b);
    SameTableIff(x, there);
    OldKeyIsFree(l, a, b, x);
    RekeyDistinct(x, b, a);
    RenameThereAndBack(l, a, b);
    forall o
      ensures o in back <==> o in l
    {
      if o in back {
        MapMembers(x, there, Rekey(b, a), o);
      }
      if o in l {
        MapMembers(there, x, Rekey(b, a), o);
      }
    }
    SameTableIff(back, l);
  }

  lemma OldKeyIsFree(l: seq<Object>, a: string, b: string, x: seq<Object>)
    requires forall o :: o in x <==> o in MapObjects(l, Rekey(a, b))
    ensures a == b || !HasKey(x, a)
  {
    hide MapObjects;
    if a != b {
      forall i | 0 <= i < |x|
        ensures x[i].key != a
      {
        assert x[i] in MapObjects(l, Rekey(a, b));
        var j :| 0 <= j < |l| && Rekey(a, b)(l[j]) == x[i];
      }
    }
  }

  /** The entry that a handler logs, if any. */
  predicate Logs(h: Handler, policy: Policy, l: seq<Object>, undo: Undo) { LogOpsOf(h, policy, l) == [Add(undo)] }

  lemma LogsOneOrNothing(h: Handler, policy: Policy, l: seq<Object>)
    requires Undoable(h)
    ensures LogOpsOf(h, policy, l) == [] || exists undo :: Logs(h, policy, l, undo)
  {
    hide Find, HasKey, Filter, MarkerKey, RenamedKey;
    var ops := LogOpsOf(h, policy, l);
    if ops != [] {
      assert Logs(h, policy, l, ops[0].undo);
    }
  }

  /** A handler that logs nothing changes nothing. */
  lemma UnloggedChangesNothing(h: Handler, policy: Policy, l: seq<Object>)
    requires Undoable(h) && LogOpsOf(h, policy, l) == []
    ensures Run(StepsOf(h), policy, l) == l
  {
    hide Filter, MapObjects, MarkerKey, RenamedKey, Find, Run;
    match h
    case Delete(key) =>
      RunOne(DeleteObject(key), policy, l);
      FilterAll(l, KeyIsNot(key));
    case DeleteSelected(keys) =>
      RunOne(BulkDelete(keys), policy, l);
      FilterAll(l, KeyNotIn(keys));
    case Rename(oldKey, newName) =>
      RunNone(policy, l);
      var newKey := RenamedKey(oldKey, newName);
      if newKey.Some? {
        RunOne(RenameObject(oldKey, newKey.value), policy, l);
      }
  }

  lemma RunNone(policy: Policy, l: seq<Object>)
    ensures Run([], policy, l) == l
  {
  }

  /** Undoing the entry of a handler on any list with the table after it gives the table before it. */
  lemma EntryBack(h: Handler, policy: Policy, l: seq<Object>, undo: Undo, e: Activity, x: seq<Object>)
    requires Undoable(h) && Logs(h, policy, l, undo) && e.undo == undo
    requires DistinctKeys(l) && BackTo(x, Run(StepsOf(h), policy, l))
    ensures BackTo(Run(StepsOf(UndoEntry(e)), policy, x), l)
  {
    hide Run, Filter, MapObjects, MergeIn, Table, DistinctKeys, BackTo, RenamedKey, Find;
    match h
    case Delete(key) =>
      SingleDeletion(l, key);
      RunOne(DeleteObject(key), policy, l);
      RunOne(RestoreObjects(Removed(l, {key})), policy, x);
      DeletionBack(l, {key}, x);
    case DeleteSelected(keys) =>
      RunOne(BulkDelete(keys), policy, l);
      RunOne(RestoreObjects(Removed(l, keys)), policy, x);
      DeletionBack(l, keys, x);
    case Rename(oldKey, newName) =>
      var newKey := RenamedKey(oldKey, newName).value;
      RunOne(RenameObject(oldKey, newKey), policy, l);
      RunOne(RenameBack(newKey, oldKey), policy, x);
      RenamingBack(l, oldKey, newKey, x);
  }

  lemma {:induction false} SessionDistinct(hs: seq<Handler>, policy: Policy, s: State)
    requires DistinctKeys(s.objects) && AllUndoable(hs)
    ensures DistinctKeys(HandleAll(hs, policy, s).objects)
    decreases |hs|
  {
    hide DistinctKeys, Run, Apply, RunLog, LogOpsOf, RenamedKey;
    if hs != [] {
      var front, h := hs[..|hs| - 1], hs[|hs| - 1];
      SessionDistinct(front, policy, s);
      var l := HandleAll(front, policy, s).objects;
      RunNone(policy, l);
      if StepsOf(h) != [] {
        var step := StepsOf(h)[0];
        RunOne(step, policy, l);
        StepKeepsDistinct(step, policy, l);
      }
    }
  }

  // ----- the log of a session

  lemma TopTaken(log: seq<Activity>)
    requires log != [] && FallingIds(log)
    ensures WithoutId(log, log[0].id) == log[1..]
  {
    NothingTaken(log[1..], log[0].id);
    assert [] + WithoutId(log[1..], log[0].id) == log[1..];
  }

  lemma {:induction false} NothingTaken(log: seq<Activity>, id: nat)
    requires forall i :: 0 <= i < |log| ==> log[i].id < id
    ensures WithoutId(log, id) == log
  {
    if log != [] {
      NothingTaken(log[1..], id);
      assert log == [log[0]] + log[1..];
    }
  }

  lemma UndoneOnTop(x: State, policy: Policy)
    requires x.log.entries != [] && FallingIds(x.log.entries)
    ensures var e := x.log.entries[0];
            Handle(UndoEntry(e), policy, x) ==
            State(Run(StepsOf(UndoEntry(e)), policy, x.objects), Log(x.log.entries[1..], x.log.lastId))
  {
    hide Run, RunLog, WithoutId, FallingIds;
    RunLogOne(Take(x.log.entries[0].id), x.log);
    TopTaken(x.log.entries);
  }

  lemma PrefixFalls(log: seq<Activity>, whole: seq<Activity>)
    requires log <= whole && FallingIds(whole)
    ensures FallingIds(log)
  {
  }

  /** The session has been undone down to `s`, and the log down to what was there, up to the cap. */
  ghost predicate Undone(t: State, s: State) { BackTo(t.objects, s.objects) && t.log.entries <= s.log.entries }

  lemma {:induction false} SessionBack(hs: seq<Handler>, policy: Policy, s: State, x: State)
    requires LogValid(s.log) && DistinctKeys(s.objects) && AllUndoable(hs)
    requires Undone(x, HandleAll(hs, policy, s)) && LoggedBy(hs, policy, s) <= |x.log.entries|
    ensures var n := LoggedBy(hs, policy, s);
            var t := UndoNewest(n, policy, x);
            Undone(t, s) && |t.log.entries| == |x.log.entries| - n
    decreases |hs|
  {
    hide LogValid, DistinctKeys, Undone, StepsOf, LogOpsOf, Handle, AllUndoable;
    if hs != [] {
      var front, h := hs[..|hs| - 1], hs[|hs| - 1];
      var t := HandleAll(front, policy, s);
      FrontUndoable(hs);
      SessionDistinct(front, policy, s);
      SessionValid(front, policy, s);
      LogsOneOrNothing(h, policy, t.objects);
      if LogOpsOf(h, policy, t.objects) == [] {
        HandledNothing(h, policy, t);
        SessionBack(front, policy, s, x);
      } else {
        var undo :| Logs(h, policy, t.objects, undo);
        TopBack(h, policy, t, undo, x);
        SessionBack(front, policy, s, Handle(UndoEntry(x.log.entries[0]), policy, x));
      }
    }
  }

  lemma FrontUndoable(hs: seq<Handler>)
    requires AllUndoable(hs) && hs != []
    ensures AllUndoable(hs[..|hs| - 1]) && Undoable(hs[|hs| - 1])
  {
  }

  lemma SessionValid(hs: seq<Handler>, policy: Policy, s: State)
    requires LogValid(s.log)
    ensures LogValid(HandleAll(hs, policy, s).log)
  {
    hide LogValid, Run, RunLog, HandleAll;
    HandledIsRun(hs, policy, s);
    RunValid(LogOpsOfAll(hs, policy, s.objects), s.log);
  }

  lemma HandledNothing(h: Handler, policy: Policy, t: State)
    requires Undoable(h) && LogOpsOf(h, policy, t.objects) == []
    ensures Handle(h, policy, t) == t
  {
    hide StepsOf, LogOpsOf, Run;
    UnloggedChangesNothing(h, policy, t.objects);
  }

  /** One undoing from the top, after a handler that logged its entry. */
  lemma TopBack(h: Handler, policy: Policy, t: State, undo: Undo, x: State)
    requires Undoable(h) && LogValid(t.log) && DistinctKeys(t.objects) && Logs(h, policy, t.objects, undo)
    requires Undone(x, Handle(h, policy, t)) && x.log.entries != []
    ensures var x' := Handle(UndoEntry(x.log.entries[0]), policy, x);
            Undone(x', t) && |x'.log.entries| == |x.log.entries| - 1
  {
    hide LogValid, DistinctKeys, BackTo, StepsOf, LogOpsOf, Run, RunLog, FallingIds, Push;
    var e := Logged(t.log, undo);
    RunLogOne(Add(undo), t.log);
    StepValid(Add(undo), t.log);
    var after := Handle(h, policy, t);
    assert after.log == LogStep(Add(undo), t.log);
    ValidFalls(after.log);
    PrefixFalls(x.log.entries, after.log.entries);
    TopOfPush(t.log.entries, e, x.log.entries);
    UndoneOnTop(x, policy);
    EntryBack(h, policy, t.objects, undo, e, x.objects);
  }

  lemma ValidFalls(log: Log)
    requires LogValid(log)
    ensures FallingIds(log.entries)
  {
  }

  lemma TopOfPush(log: seq<Activity>, e: Activity, x: seq<Activity>)
    requires x <= Push(log, e) && x != []
    ensures x[0] == e && x[1..] <= log
  {
    var p := Push(log, e);
    assert x[0] == p[0];
    assert forall i :: 0 <= i < |x| - 1 ==> x[1..][i] == p[i + 1] == log[i];
  }

  /** A session logs on top of what was there, up to the cap. */
  lemma {:induction false} SessionLogs(hs: seq<Handler>, policy: Policy, s: State)
    requires AllUndoable(hs) && |s.log.entries| <= CAP
    ensures |HandleAll(hs, policy, s).log.entries| == Min(CAP, |s.log.entries| + LoggedBy(hs, policy, s))
    decreases |hs|
  {
    hide StepsOf, LogOpsOf, Run, RunLog, AllUndoable;
    if hs != [] {
      var front, h := hs[..|hs| - 1], hs[|hs| - 1];
      var t := HandleAll(front, policy, s);
      FrontUndoable(hs);
      SessionLogs(front, policy, s);
      LogsOneOrNothing(h, policy, t.objects);
      if LogOpsOf(h, policy, t.objects) == [] {
        HandledNothing(h, policy, t);
      } else {
        var undo :| Logs(h, policy, t.objects, undo);
        RunLogOne(Add(undo), t.log);
      }
    }
  }

  /**
   A session of deletions and renamings that logs no more entries than are kept is undone by
   undoing the newest entry as many times: the table is that before the session, with distinct
   keys, and the log holds exactly what it held, as far as the session has not pushed it out.
   */
  lemma SessionUndone(hs: seq<Handler>, policy: Policy, s: State)
    requires LogValid(s.log) && DistinctKeys(s.objects) && AllUndoable(hs)
    requires LoggedBy(hs, policy, s) <= CAP
    ensures var n := LoggedBy(hs, policy, s);
            var t := UndoNewest(n, policy, HandleAll(hs, policy, s));
            && DistinctKeys(t.objects) && Table(t.objects) == Table(s.objects)
            && t.log.entries == s.log.entries[..Min(|s.log.entries|, CAP - n)]
  {
    hide DistinctKeys, AllUndoable, Table, HandleAll, LoggedBy, UndoNewest, FallingIds;
    SessionDistinct(hs, policy, s);
    SessionLogs(hs, policy, s);
    SessionBack(hs, policy, s, HandleAll(hs, policy, s));
    var t := UndoNewest(LoggedBy(hs, policy, s), policy, HandleAll(hs, policy, s));
    assert t.log.entries == s.log.entries[..|t.log.entries|];
  }
}

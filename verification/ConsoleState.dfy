/**
 The console as a value: the objects of the bucket and the activity log, and what each handler
 does to both. What joins the two is undoing: an entry of the log carries out a step backwards.
 */
module ConsoleState {
  import opened Manifest
  import opened Store
  import opened StoreLocality
  import opened StoreLaws
  import opened StoreUndo
  import opened ActivityLog

  datatype State = State(objects: seq<Object>, log: Log)

  /** What the user does; `Elsewhere` logs an entry about another bucket. */
  datatype Handler =
    | Upload(files: seq<FileStep>, cancelAt: nat)
    | Retry(content: Content)
    | NewFolder(prefix: string, name: string, now: nat)
    | Delete(key: string)
    | DeleteSelected(keys: set<string>)
    | Pin(key: string, flag: bool)
    | Restore(key: string, cid: string, now: nat)
    | Rename(oldKey: string, newName: string)
    | Import(objs: seq<Object>)
    | UndoEntry(entry: Activity)
    | Elsewhere
    | ClearLog

  /** The steps on the objects; none for a name that is empty once cleaned. */
  function StepsOf(h: Handler): seq<Step> {
    match h
    case Upload(files, cancelAt) => [UploadFiles(files, cancelAt)]
    case Retry(c) => [RetryUpload(c)]
    case NewFolder(prefix, name, now) =>
      var key := MarkerKey(prefix, name);
      if key.None? then [] else [CreateFolder(key.value, now)]
    case Delete(key) => [DeleteObject(key)]
    case DeleteSelected(keys) => [BulkDelete(keys)]
    case Pin(key, flag) => [TogglePin(key, flag)]
    case Restore(key, cid, now) => [RestoreVersion(key, cid, now)]
    case Rename(oldKey, newName) =>
      var newKey := RenamedKey(oldKey, newName);
      if newKey.None? then [] else [RenameObject(oldKey, newKey.value)]
    case Import(objs) => [ImportManifest(objs)]
    case UndoEntry(e) =>
      (match e.undo
       case NoUndo => []
       case PutBack(objs) => [RestoreObjects(objs)]
       case NameBack(from, to) => [RenameBack(from, to)])
    case Elsewhere => []
    case ClearLog => []
  }

  predicate SomeStored(files: seq<FileStep>) { exists i :: 0 <= i < |files| && files[i].Stored? }

  /** The operations on the log, which depend on what the handler meets. */
  function LogOpsOf(h: Handler, policy: Policy, l: seq<Object>): seq<LogOp> {
    match h
    case Upload(files, cancelAt) =>
      if WithinQuota(l, policy.quotaBytes, files) && SomeStored(Started(UploadFiles(files, cancelAt)))
      then [Add(NoUndo)] else []
    case Retry(_) => []
    case NewFolder(prefix, name, _) =>
      var key := MarkerKey(prefix, name);
      if key.None? || HasKey(l, key.value) then [] else [Add(NoUndo)]
    case Delete(key) =>
      var removed := Find(l, key);
      if removed.None? then [] else [Add(PutBack([removed.value]))]
    case DeleteSelected(keys) => if keys == {} then [] else [Add(PutBack(Filter(l, KeyIn(keys))))]
    case Pin(_, _) => [Add(NoUndo)]
    case Restore(key, cid, _) =>
      var o := Find(l, key);
      if o.None? || FindVersion(History(o.value), cid).None? then [] else [Add(NoUndo)]
    case Rename(oldKey, newName) =>
      var newKey := RenamedKey(oldKey, newName);
      if newKey.None? || HasKey(l, newKey.value) then [] else [Add(NameBack(newKey.value, oldKey))]
    case Import(_) => [Add(NoUndo)]
    case UndoEntry(e) => [Take(e.id)]
    case Elsewhere => [Add(NoUndo)]
    case ClearLog => [Clear]
  }

  function Handle(h: Handler, policy: Policy, s: State): State {
    State(Run(StepsOf(h), policy, s.objects), RunLog(LogOpsOf(h, policy, s.objects), s.log))
  }

  function HandleAll(hs: seq<Handler>, policy: Policy, s: State): State {
    if hs == [] then s else Handle(hs[|hs| - 1], policy, HandleAll(hs[..|hs| - 1], policy, s))
  }

  // ----- a run of handlers is a run of steps beside a run of the log

  function StepsOfAll(hs: seq<Handler>): seq<Step> {
    if hs == [] then [] else StepsOfAll(hs[..|hs| - 1]) + StepsOf(hs[|hs| - 1])
  }

  function LogOpsOfAll(hs: seq<Handler>, policy: Policy, l: seq<Object>): seq<LogOp> {
    if hs == [] then []
    else
      var front := hs[..|hs| - 1];
      LogOpsOfAll(front, policy, l) + LogOpsOf(hs[|hs| - 1], policy, Run(StepsOfAll(front), policy, l))
  }

  lemma {:induction false} RunConcat(steps: seq<Step>, more: seq<Step>, policy: Policy, l: seq<Object>)
    ensures Run(steps + more, policy, l) == Run(more, policy, Run(steps, policy, l))
    decreases |more|
  {
    hide Apply;
    if more == [] {
      assert steps + more == steps;
    } else {
      RunConcat(steps, more[..|more| - 1], policy, l);
      assert (steps + more)[..|steps + more| - 1] == steps + more[..|more| - 1];
    }
  }

  lemma {:induction false} HandledIsRun(hs: seq<Handler>, policy: Policy, s: State)
    ensures HandleAll(hs, policy, s) ==
            State(Run(StepsOfAll(hs), policy, s.objects), RunLog(LogOpsOfAll(hs, policy, s.objects), s.log))
    decreases |hs|
  {
    hide StepsOf, LogOpsOf, Run, RunLog;
    if hs == [] {
      NothingRun(policy, s);
    } else {
      var front, h := hs[..|hs| - 1], hs[|hs| - 1];
      HandledIsRun(front, policy, s);
      RunConcat(StepsOfAll(front), StepsOf(h), policy, s.objects);
      RunLogConcat(LogOpsOfAll(front, policy, s.objects),
                   LogOpsOf(h, policy, Run(StepsOfAll(front), policy, s.objects)),
                   s.log);
    }
  }

  lemma NothingRun(policy: Policy, s: State)
    ensures Run([], policy, s.objects) == s.objects && RunLog([], s.log) == s.log
  {
  }

  // ----- moments of a run of handlers are moments of the run of its steps

  lemma AtMostOneStep(h: Handler)
    ensures |StepsOf(h)| <= 1
  {
    hide MarkerKey, RenamedKey;
  }

  /** The steps of the first handlers are the first steps. */
  lemma {:induction false} FirstSteps(hs: seq<Handler>, n: nat)
    requires n <= |hs|
    ensures StepsOfAll(hs[..n]) <= StepsOfAll(hs)
    decreases |hs|
  {
    hide StepsOf;
    if n == |hs| {
      assert hs[..n] == hs;
    } else {
      var front := hs[..|hs| - 1];
      FirstSteps(front, n);
      assert front[..n] == hs[..n];
    }
  }

  /** The first steps are the steps of some first handlers. */
  lemma {:induction false} FirstHandlers(hs: seq<Handler>, i: nat) returns (n: nat)
    requires i <= |StepsOfAll(hs)|
    ensures n <= |hs| && StepsOfAll(hs[..n]) == StepsOfAll(hs)[..i]
    decreases |hs|
  {
    hide StepsOf;
    if i == |StepsOfAll(hs)| {
      n := |hs|;
      assert hs[..n] == hs;
    } else {
      var front := hs[..|hs| - 1];
      AtMostOneStep(hs[|hs| - 1]);
      n := FirstHandlers(front, i);
      assert front[..n] == hs[..n];
    }
  }

  predicate AfterHandlers(hs: seq<Handler>, p: seq<Step> -> bool) {
    forall n :: 0 <= n <= |hs| ==> p(StepsOfAll(hs[..n]))
  }

  predicate AfterSteps(steps: seq<Step>, p: seq<Step> -> bool) {
    forall i :: 0 <= i <= |steps| ==> p(steps[..i])
  }

  lemma HandlersCoverSteps(hs: seq<Handler>, p: seq<Step> -> bool, i: nat)
    requires AfterHandlers(hs, p) && i <= |StepsOfAll(hs)|
    ensures p(StepsOfAll(hs)[..i])
  {
    hide StepsOfAll;
    var n := FirstHandlers(hs, i);
    assert p(StepsOfAll(hs[..n]));
  }

  lemma StepsCoverHandlers(hs: seq<Handler>, p: seq<Step> -> bool, n: nat)
    requires AfterSteps(StepsOfAll(hs), p) && n <= |hs|
    ensures p(StepsOfAll(hs[..n]))
  {
    hide StepsOfAll;
    FirstSteps(hs, n);
    var steps, i := StepsOfAll(hs), |StepsOfAll(hs[..n])|;
    assert p(steps[..i]);
    assert StepsOfAll(hs[..n]) == steps[..i];
  }

  /** What holds after every number of handlers holds after every number of steps, and conversely. */
  lemma EveryMoment(hs: seq<Handler>, p: seq<Step> -> bool)
    ensures AfterHandlers(hs, p) <==> AfterSteps(StepsOfAll(hs), p)
  {
    hide StepsOfAll;
    var steps := StepsOfAll(hs);
    if AfterHandlers(hs, p) {
      forall i | 0 <= i <= |steps|
        ensures p(steps[..i])
      {
        HandlersCoverSteps(hs, p, i);
      }
    }
    if AfterSteps(steps, p) {
      forall n | 0 <= n <= |hs|
        ensures p(StepsOfAll(hs[..n]))
      {
        StepsCoverHandlers(hs, p, n);
      }
    }
  }

  function DistinctAfter(policy: Policy, l: seq<Object>): seq<Step> -> bool {
    (steps: seq<Step>) => DistinctKeys(Run(steps, policy, l))
  }

  /** The log stays valid, and keys stay distinct throughout exactly when no undone renaming collides. */
  lemma HandledKeeps(hs: seq<Handler>, policy: Policy, s: State)
    requires LogValid(s.log) && DistinctKeys(s.objects)
    ensures forall n :: 0 <= n <= |hs| ==> LogValid(HandleAll(hs[..n], policy, s).log)
    ensures (forall n :: 0 <= n <= |hs| ==> DistinctKeys(HandleAll(hs[..n], policy, s).objects)) <==>
            NoCollision(StepsOfAll(hs), policy, s.objects)
  {
    hide Run, RunLog, LogValid, DistinctKeys, HandleAll, NoCollision, StepsOfAll;
    forall n | 0 <= n <= |hs|
      ensures LogValid(HandleAll(hs[..n], policy, s).log)
      ensures HandleAll(hs[..n], policy, s).objects == Run(StepsOfAll(hs[..n]), policy, s.objects)
    {
      HandledIsRun(hs[..n], policy, s);
      RunValid(LogOpsOfAll(hs[..n], policy, s.objects), s.log);
    }
    EveryMoment(hs, DistinctAfter(policy, s.objects));
    RunDistinct(StepsOfAll(hs), policy, s.objects);
  }

  // ----- what is logged can be undone

  /** The entry is offered for undoing. */
  predicate Offered(s: State, e: Activity) { e in s.log.entries }

  /** A newly logged entry survives a run of handlers: the exact condition, on the log operations. */
  lemma OfferedIff(s: State, e: Activity, hs: seq<Handler>, policy: Policy)
    requires LogValid(s.log) && Offered(s, e)
    ensures Offered(HandleAll(hs, policy, s), e) <==>
            var ops := LogOpsOfAll(hs, policy, s.objects);
            NeverTakenOff(ops, e.id) && NeverFull(ops, s.log.lastId, Newer(s.log.entries, e.id))
  {
    hide LogValid, NeverTakenOff, NeverFull, Newer, HandleAll, Run, RunLog;
    HandledIsRun(hs, policy, s);
    EntryStaysIff(LogOpsOfAll(hs, policy, s.objects), s.log, e);
  }

  lemma HandledOne(h: Handler, policy: Policy, s: State, step: Step, op: LogOp)
    requires StepsOf(h) == [step] && LogOpsOf(h, policy, s.objects) == [op]
    ensures Handle(h, policy, s) == State(Apply(step, policy, s.objects), LogStep(op, s.log))
  {
    hide StepsOf, LogOpsOf, Apply, LogStep;
    RunOne(step, policy, s.objects);
    RunLogOne(op, s.log);
  }

  /** What undoing an entry does: its step, and the entry is no longer offered. */
  lemma UndoneTakesOff(s: State, e: Activity, policy: Policy)
    ensures !Offered(Handle(UndoEntry(e), policy, s), e)
    ensures Handle(UndoEntry(e), policy, s).objects == Run(StepsOf(UndoEntry(e)), policy, s.objects)
  {
    hide Run, RunLog;
    RunLogOne(Take(e.id), s.log);
    WithoutIdKeeps(s.log.entries, e.id);
  }

  /** The entry that a selection logs. */
  function DeletionEntry(s: State, keys: set<string>): Activity { Logged(s.log, PutBack(Removed(s.objects, keys))) }

  lemma DeletionLogs(s: State, keys: set<string>, policy: Policy)
    requires LogValid(s.log) && keys != {}
    ensures var s', e := Handle(DeleteSelected(keys), policy, s), DeletionEntry(s, keys);
            && s' == State(Apply(BulkDelete(keys), policy, s.objects), LogStep(Add(e.undo), s.log))
            && LogValid(s'.log) && Offered(s', e) && Newer(s'.log.entries, e.id) == {}
  {
    hide Apply, LogValid, Newer, LogStep;
    var e := DeletionEntry(s, keys);
    HandledOne(DeleteSelected(keys), policy, s, BulkDelete(keys), Add(e.undo));
    NewEntryInFront(s.log, e.undo);
    StepValid(Add(e.undo), s.log);
  }

  /**
   Carrying out a handler, others after it, and then undoing the entry of the first gives the
   table that the others give alone.
   */
  predicate EntryAgrees(s: State, h: Handler, e: Activity, hs: seq<Handler>, policy: Policy) {
    var undone := Handle(UndoEntry(e), policy, HandleAll(hs, policy, Handle(h, policy, s)));
    Table(undone.objects) == Table(HandleAll(hs, policy, s).objects)
  }

  lemma DeletionAgrees(s: State, keys: set<string>, hs: seq<Handler>, policy: Policy)
    requires LogValid(s.log) && keys != {}
    ensures EntryAgrees(s, DeleteSelected(keys), DeletionEntry(s, keys), hs, policy) <==>
            UndoAgrees(s.objects, keys, StepsOfAll(hs), policy)
  {
    hide Run, RunLog, Table, LogValid, LogStep, Apply, HandleAll, Handle, LogOpsOf, Removed;
    var e := DeletionEntry(s, keys);
    var s' := Handle(DeleteSelected(keys), policy, s);
    DeletionLogs(s, keys, policy);
    var after := HandleAll(hs, policy, s');
    HandledIsRun(hs, policy, s');
    HandledIsRun(hs, policy, s);
    UndoneTakesOff(after, e, policy);
    RunOne(RestoreObjects(Removed(s.objects, keys)), policy, after.objects);
  }

  function AgreesAfter(l: seq<Object>, keys: set<string>, policy: Policy): seq<Step> -> bool {
    (steps: seq<Step>) => UndoAgrees(l, keys, steps, policy)
  }

  /**
   Delete a selection, do anything with other keys, undo. The entry is still offered exactly when
   it was not taken off and the later entries never filled the log. Undoing it gives the table of
   the same work without the deletion if the quota makes no difference in that work, and, given
   a clock that moves on, this is so at every moment of the work only then.
   */
  lemma LoggedDeletionUndone(s: State, keys: set<string>, hs: seq<Handler>, policy: Policy)
    requires LogValid(s.log) && DistinctKeys(s.objects) && keys != {} && NeverTouches(StepsOfAll(hs), keys)
    ensures var h, e := DeleteSelected(keys), DeletionEntry(s, keys);
            var s' := Handle(h, policy, s);
            var after := HandleAll(hs, policy, s');
            var ops := LogOpsOfAll(hs, policy, s'.objects);
            && (Offered(after, e) <==> NeverTakenOff(ops, e.id) && NeverFull(ops, e.id, {}))
            && !Offered(Handle(UndoEntry(e), policy, after), e)
            && (Harmless(StepsOfAll(hs), policy, s.objects, keys) ==> EntryAgrees(s, h, e, hs, policy))
            && (FreshStamps(StepsOfAll(hs), policy, s.objects) ==>
                  (Harmless(StepsOfAll(hs), policy, s.objects, keys) <==>
                   forall n :: 0 <= n <= |hs| ==> EntryAgrees(s, h, e, hs[..n], policy)))
  {
    hide RunLog, LogValid, NeverFull, NeverTakenOff, Newer, LogStep, HandleAll, Handle, LogOpsOf, StepsOfAll, Harmless,
         FreshStamps, EntryAgrees, UndoAgrees, Apply, NeverTouches, DistinctKeys;
    var e := DeletionEntry(s, keys);
    var s' := Handle(DeleteSelected(keys), policy, s);
    DeletionLogs(s, keys, policy);
    LastIdOfStep(s.log, e.undo);
    OfferedIff(s', e, hs, policy);
    UndoneTakesOff(HandleAll(hs, policy, s'), e, policy);
    DeletionAgrees(s, keys, hs, policy);
    if Harmless(StepsOfAll(hs), policy, s.objects, keys) {
      UndoDeletion(s.objects, keys, StepsOfAll(hs), policy);
    }
    if FreshStamps(StepsOfAll(hs), policy, s.objects) {
      DeletionNeutralIff(s, keys, hs, policy);
    }
  }

  lemma DeletionNeutralIff(s: State, keys: set<string>, hs: seq<Handler>, policy: Policy)
    requires LogValid(s.log) && DistinctKeys(s.objects) && keys != {} && NeverTouches(StepsOfAll(hs), keys)
    requires FreshStamps(StepsOfAll(hs), policy, s.objects)
    ensures (forall n :: 0 <= n <= |hs| ==>
               EntryAgrees(s, DeleteSelected(keys), DeletionEntry(s, keys), hs[..n], policy)) <==>
            Harmless(StepsOfAll(hs), policy, s.objects, keys)
  {
    hide LogValid, StepsOfAll, Harmless, FreshStamps, EntryAgrees, UndoAgrees, NeverTouches, DistinctKeys;
    forall n | 0 <= n <= |hs|
      ensures EntryAgrees(s, DeleteSelected(keys), DeletionEntry(s, keys), hs[..n], policy) <==>
              UndoAgrees(s.objects, keys, StepsOfAll(hs[..n]), policy)
    {
      DeletionAgrees(s, keys, hs[..n], policy);
    }
    EveryMoment(hs, AgreesAfter(s.objects, keys, policy));
    UndoNeutralIff(s.objects, keys, StepsOfAll(hs), policy);
  }

  lemma LastIdOfStep(log: Log, undo: Undo)
    ensures LogStep(Add(undo), log).lastId == Logged(log, undo).id == log.lastId + 1
  {
  }

  /** Deleting one object is deleting the selection of its key, log included. */
  lemma DeleteOneIsSelection(s: State, key: string, policy: Policy)
    requires DistinctKeys(s.objects) && HasKey(s.objects, key)
    ensures Handle(Delete(key), policy, s) == Handle(DeleteSelected({key}), policy, s)
  {
    hide Filter, Find, LogStep;
    SingleDeletion(s.objects, key);
    var undo := PutBack(Removed(s.objects, {key}));
    HandledOne(Delete(key), policy, s, DeleteObject(key), Add(undo));
    HandledOne(DeleteSelected({key}), policy, s, BulkDelete({key}), Add(undo));
  }

  /** The same for a single deletion. */
  lemma LoggedSingleDeletionUndone(s: State, key: string, hs: seq<Handler>, policy: Policy)
    requires LogValid(s.log) && DistinctKeys(s.objects) && HasKey(s.objects, key) && NeverTouches(StepsOfAll(hs), {key})
    ensures var h, e := Delete(key), Logged(s.log, PutBack([Find(s.objects, key).value]));
            var s' := Handle(h, policy, s);
            var after := HandleAll(hs, policy, s');
            var ops := LogOpsOfAll(hs, policy, s'.objects);
            && (Offered(after, e) <==> NeverTakenOff(ops, e.id) && NeverFull(ops, e.id, {}))
            && !Offered(Handle(UndoEntry(e), policy, after), e)
            && (Harmless(StepsOfAll(hs), policy, s.objects, {key}) ==> EntryAgrees(s, h, e, hs, policy))
            && (FreshStamps(StepsOfAll(hs), policy, s.objects) ==>
                  (Harmless(StepsOfAll(hs), policy, s.objects, {key}) <==>
                   forall n :: 0 <= n <= |hs| ==> EntryAgrees(s, h, e, hs[..n], policy)))
  {
    hide RunLog, LogValid, NeverFull, NeverTakenOff, Newer, LogStep, HandleAll, Handle, LogOpsOf, StepsOfAll, Harmless,
         FreshStamps, Apply, NeverTouches, Filter, Find, Table, Run;
    SingleDeletion(s.objects, key);
    DeleteOneIsSelection(s, key, policy);
    LoggedDeletionUndone(s, {key}, hs, policy);
    var e := DeletionEntry(s, {key});
    SameEntryAgrees(s, key, e, hs, policy);
    forall n | 0 <= n <= |hs|
      ensures EntryAgrees(s, Delete(key), e, hs[..n], policy) <==>
              EntryAgrees(s, DeleteSelected({key}), e, hs[..n], policy)
    {
      SameEntryAgrees(s, key, e, hs[..n], policy);
    }
  }

  lemma SameEntryAgrees(s: State, key: string, e: Activity, hs: seq<Handler>, policy: Policy)
    requires Handle(Delete(key), policy, s) == Handle(DeleteSelected({key}), policy, s)
    ensures EntryAgrees(s, Delete(key), e, hs, policy) <==> EntryAgrees(s, DeleteSelected({key}), e, hs, policy)
  {
    hide Handle, HandleAll, Table;
  }

  /**
   Rename an object to a free name, do anything with other keys, undo: the very list of the same
   work without the renaming, whatever the quota.
   */
  lemma LoggedRenamingUndone(s: State, oldKey: string, newName: string, hs: seq<Handler>, policy: Policy)
    requires LogValid(s.log) && RenamedKey(oldKey, newName).Some?
    requires !HasKey(s.objects, RenamedKey(oldKey, newName).value)
    requires NeverTouches(StepsOfAll(hs), {oldKey, RenamedKey(oldKey, newName).value})
    ensures var e := Logged(s.log, NameBack(RenamedKey(oldKey, newName).value, oldKey));
            var s' := Handle(Rename(oldKey, newName), policy, s);
            var after := HandleAll(hs, policy, s');
            var undone := Handle(UndoEntry(e), policy, after);
            var ops := LogOpsOfAll(hs, policy, s'.objects);
            && (Offered(after, e) <==> NeverTakenOff(ops, e.id) && NeverFull(ops, e.id, {}))
            && undone.objects == HandleAll(hs, policy, s).objects
            && !Offered(undone, e)
  {
    hide Run, RunLog, LogValid, NeverTouches, NeverFull, NeverTakenOff, Newer, LogStep, Apply, HandleAll, Handle,
         RenamedKey;
    var newKey := RenamedKey(oldKey, newName).value;
    var e := Logged(s.log, NameBack(newKey, oldKey));
    var s' := Handle(Rename(oldKey, newName), policy, s);
    HandledOne(Rename(oldKey, newName), policy, s, RenameObject(oldKey, newKey), Add(e.undo));
    NewEntryInFront(s.log, e.undo);
    StepValid(Add(e.undo), s.log);
    LastIdOfStep(s.log, e.undo);
    OfferedIff(s', e, hs, policy);
    var after := HandleAll(hs, policy, s');
    HandledIsRun(hs, policy, s');
    HandledIsRun(hs, policy, s);
    UndoneTakesOff(after, e, policy);
    RunOne(RenameBack(newKey, oldKey), policy, after.objects);
    UndoRenaming(s.objects, oldKey, newKey, StepsOfAll(hs), policy);
  }
}

/** The console of one bucket: its handlers, as methods that replace the persisted list. */
module Console {
  import opened Prelude
  import opened Manifest
  import opened Store
  import opened StoreLocality
  import opened StoreLaws
  import opened StoreContents
  import opened StoreUndo
  import opened StoreQuota
  import opened ActivityLog
  import opened ConsoleState

  /**
   Handlers take what they get from outside (CIDs, sizes, clock readings, failures) as
   arguments, and run as one step each. The new state of each is that of its handler as a value,
   and the further clauses say what this means key by key.
   */
  class BucketConsole {
    var objects: seq<Object>
    var policy: Policy
    var prefix: string
    var log: seq<Activity>
    var lastId: nat

    ghost function Now(): State
      reads this
    {
      State(objects, Log(log, lastId))
    }

    ghost predicate Valid()
      reads this
    {
      LogValid(Log(log, lastId))
    }

    constructor (policy: Policy)
      ensures Valid() && this.policy == policy && prefix == [] && Now() == State([], Log([], 0))
    {
      objects, log, lastId, prefix := [], [], 0, [];
      this.policy := policy;
    }

    method LogActivity(undo: Undo)
      requires Valid()
      modifies this`log, this`lastId
      ensures Valid() && Log(log, lastId) == LogStep(Add(undo), old(Log(log, lastId)))
      ensures log != [] && log[0] == Activity(lastId, undo) && log[0] !in old(log)
      ensures lastId == old(lastId) + 1 && log[1..] == old(log)[..Min(79, |old(log)|)]
    {
      StepValid(Add(undo), Log(log, lastId));
      lastId := lastId + 1;
      log := Push(log, Activity(lastId, undo));
    }

    method RemoveActivity(id: nat)
      requires Valid()
      modifies this`log
      ensures Valid() && log == WithoutId(old(log), id)
      ensures forall e :: e in log <==> e in old(log) && e.id != id
    {
      StepValid(Take(id), Log(log, lastId));
      WithoutIdKeeps(log, id);
      log := Capped(WithoutId(log, id));
    }

    method ClearActivity()
      requires Valid()
      modifies this`log
      ensures Valid() && Now() == Handle(ClearLog, policy, old(Now()))
    {
      RunLogOne(Clear, Log(log, lastId));
      log := [];
    }

    /** `cancelAt` says before which file the batch is cancelled. */
    method UploadFiles(files: seq<FileStep>, cancelAt: nat)
      requires Valid()
      modifies this`objects, this`log, this`lastId
      ensures Valid() && Now() == Handle(Upload(files, cancelAt), policy, old(Now()))
      ensures if policy.quotaBytes > 0 && old(TotalSize(objects)) + Incoming(files) > policy.quotaBytes
              then Now() == old(Now())
              else exists states ::
                     BatchStates(old(objects), objects, policy.versioning, files[..Min(cancelAt, |files|)], states)
      ensures policy.quotaBytes > 0 && old(TotalSize(objects)) <= policy.quotaBytes ==>
                TotalSize(objects) <= policy.quotaBytes
      ensures old(DistinctKeys(objects)) ==> DistinctKeys(objects)
    {
      hide RunLog, LogStep, Put, PutAll, Handle, DistinctKeys, TotalSize, Incoming, SomeStored, BatchStates;
      UploadEffect(files, cancelAt, policy, Now());
      ghost var states := PutAllIsBatch(objects, policy.versioning, files[..Min(cancelAt, |files|)]);
      if files == [] {
        return;
      }
      if policy.quotaBytes > 0 && TotalSize(objects) + Incoming(files) > policy.quotaBytes {
        return;
      }
      var done, i := 0, 0;
      NothingPut(objects, policy.versioning, files);
      while i < |files| && i < cancelAt
        invariant 0 <= i <= Min(cancelAt, |files|)
        invariant unchanged(`log) && unchanged(`lastId)
        invariant objects == PutAll(old(objects), policy.versioning, files[..i])
        invariant done > 0 <==> SomeStored(files[..i])
      {
        SomeStoredSnoc(files, i);
        PutAllSnoc(objects, old(objects), policy.versioning, files, i);
        if files[i].Stored? {
          objects := Put(objects, policy.versioning, files[i].content);
          done := done + 1;
        }
        i := i + 1;
      }
      if policy.quotaBytes > 0 {
        QuotaHolds(old(objects), policy, files, i);
      }
      if done > 0 {
        LogActivity(NoUndo);
      }
    }

    /** Not checked against the quota, and not logged. */
    method RetryUpload(c: Content)
      requires Valid()
      modifies this`objects
      ensures Valid() && Now() == Handle(Retry(c), policy, old(Now()))
      ensures Uploaded(old(objects), objects, policy.versioning, c) && log == old(log)
      ensures forall k :: k != c.key ==> Find(objects, k) == old(Find(objects, k))
      ensures old(DistinctKeys(objects)) ==> DistinctKeys(objects)
    {
      hide Find, Uploaded;
      ghost var step := Step.RetryUpload(c);
      PutUploads(objects, policy.versioning, c);
      StepKeepsDistinct(step, policy, objects);
      StepUnlogged(Retry(c), policy, Now(), step);
      forall k {
        FindPut(objects, policy.versioning, c, k);
      }
      objects := Put(objects, policy.versioning, c);
    }

    method CreateFolder(name: string, now: nat)
      requires Valid()
      modifies this`objects, this`log, this`lastId
      ensures Valid() && Now() == Handle(NewFolder(prefix, name, now), policy, old(Now()))
      ensures var key := MarkerKey(prefix, name);
              if key.None? || old(HasKey(objects, key.value)) then Now() == old(Now())
              else
                && |objects| == |old(objects)| + 1 && objects[..|old(objects)|] == old(objects)
                && IsMarker(objects[|old(objects)|], key.value, now) && log != [] && log[0].undo == NoUndo
      ensures old(DistinctKeys(objects)) ==> DistinctKeys(objects)
    {
      var key := MarkerKey(prefix, name);
      ghost var h := NewFolder(prefix, name, now);
      if key.None? {
        NothingRun(policy, Now());
        return;
      }
      ghost var step := Step.CreateFolder(key.value, now);
      StepKeepsDistinct(step, policy, objects);
      if HasKey(objects, key.value) {
        StepUnlogged(h, policy, Now(), step);
        return;
      }
      HandledOne(h, policy, Now(), step, Add(NoUndo));
      objects := objects + [Marker(key.value, now)];
      assert objects[|objects| - 1].key == key.value;
      LogActivity(NoUndo);
    }

    /** What is logged is what brings the deleted object back. */
    method DeleteObject(key: string)
      requires Valid()
      modifies this`objects, this`log, this`lastId
      ensures Valid() && Now() == Handle(Delete(key), policy, old(Now()))
      ensures Without(old(objects), objects, {key})
      ensures forall k :: Find(objects, k) == if k == key then None else old(Find(objects, k))
      ensures old(HasKey(objects, key)) ==> log != [] && log[0].undo == PutBack([old(Find(objects, key)).value])
      ensures old(DistinctKeys(objects)) ==> DistinctKeys(objects)
    {
      hide Find, Filter, DistinctKeys, Without;
      DeletionOfOneLeaves(objects, key);
      var removed := Find(objects, key);
      ghost var step := Step.DeleteObject(key);
      StepKeepsDistinct(step, policy, objects);
      FindKeptAll(objects, KeyIsNot(key), {key});
      if removed.None? {
        StepUnlogged(Delete(key), policy, Now(), step);
      } else {
        HandledOne(Delete(key), policy, Now(), step, Add(PutBack([removed.value])));
      }
      objects := Filter(objects, KeyIsNot(key));
      if removed.Some? {
        LogActivity(PutBack([removed.value]));
      }
    }

    method BulkDelete(selected: set<string>)
      requires Valid()
      modifies this`objects, this`log, this`lastId
      ensures Valid() && Now() == Handle(DeleteSelected(selected), policy, old(Now()))
      ensures Without(old(objects), objects, selected)
      ensures forall k :: Find(objects, k) == if k in selected then None else old(Find(objects, k))
      ensures selected != {} ==>
                log != [] && log[0].undo.PutBack? && Those(old(objects), log[0].undo.objs, selected)
      ensures old(DistinctKeys(objects)) ==> DistinctKeys(objects)
    {
      hide Find, Filter, DistinctKeys, Without, Those;
      DeletionLeaves(objects, selected);
      ghost var step := Step.BulkDelete(selected);
      StepKeepsDistinct(step, policy, objects);
      FindKeptAll(objects, KeyNotIn(selected), selected);
      if selected == {} {
        FilterAll(objects, KeyNotIn(selected));
        StepUnlogged(DeleteSelected(selected), policy, Now(), step);
        return;
      }
      var removed := Filter(objects, KeyIn(selected));
      HandledOne(DeleteSelected(selected), policy, Now(), step, Add(PutBack(removed)));
      objects := Filter(objects, KeyNotIn(selected));
      LogActivity(PutBack(removed));
    }

    method TogglePin(key: string, flag: bool)
      requires Valid()
      modifies this`objects, this`log, this`lastId
      ensures Valid() && Now() == Handle(Pin(key, flag), policy, old(Now()))
      ensures |objects| == |old(objects)|
      ensures forall i :: 0 <= i < |objects| ==>
                objects[i] ==
                  old(objects)[i].(pinned := if old(objects)[i].key == key then flag else old(objects)[i].pinned)
      ensures old(DistinctKeys(objects)) ==> DistinctKeys(objects)
    {
      hide MapObjects;
      ghost var step := Step.TogglePin(key, flag);
      StepKeepsDistinct(step, policy, objects);
      HandledOne(Pin(key, flag), policy, Now(), step, Add(NoUndo));
      objects := MapObjects(objects, Repin(key, flag));
      LogActivity(NoUndo);
    }

    method RestoreVersion(key: string, cid: string, now: nat)
      requires Valid()
      modifies this`objects, this`log, this`lastId
      ensures Valid() && Now() == Handle(Restore(key, cid, now), policy, old(Now()))
      ensures forall i: nat :: FirstAt(old(objects), key, i) && HasVersion(old(objects)[i], cid) ==>
                VersionRestored(old(objects), objects, i, cid, now) && log != [] && log[0].undo == NoUndo
      ensures (forall i: nat :: FirstAt(old(objects), key, i) ==> !HasVersion(old(objects)[i], cid)) ==>
                Now() == old(Now())
      ensures CidsAt(objects, key) == old(CidsAt(objects, key))
      ensures old(DistinctKeys(objects)) ==> DistinctKeys(objects)
    {
      hide Find, CidsAt, Restored, ReplaceFirst, VersionRestored, HasVersion, FirstAt;
      ghost var h, step := Restore(key, cid, now), Step.RestoreVersion(key, cid, now);
      VersionIsRestored(objects, key, cid, now);
      RestoreCids(objects, key, cid, now);
      StepKeepsDistinct(step, policy, objects);
      var o := Find(objects, key);
      if o.None? {
        StepUnlogged(h, policy, Now(), step);
        return;
      }
      if FindVersion(History(o.value), cid).None? {
        StepUnlogged(h, policy, Now(), step);
        UnknownVersion(objects, o.value, cid, now);
        return;
      }
      HandledOne(h, policy, Now(), step, Add(NoUndo));
      objects := ReplaceFirst(objects, Restored(o.value, cid, now));
      LogActivity(NoUndo);
    }

    method RenameObject(oldKey: string, newName: string)
      requires Valid()
      modifies this`objects, this`log, this`lastId
      ensures Valid() && Now() == Handle(Rename(oldKey, newName), policy, old(Now()))
      ensures var newKey := RenamedKey(oldKey, newName);
              if newKey.None? || HasKey(old(objects), newKey.value) then Now() == old(Now())
              else
                && |objects| == |old(objects)| && log != [] && log[0].undo == NameBack(newKey.value, oldKey)
                && forall i :: 0 <= i < |objects| ==>
                     objects[i] == old(objects)[i].(
                       key := if old(objects)[i].key == oldKey then newKey.value else old(objects)[i].key)
      ensures old(DistinctKeys(objects)) ==> DistinctKeys(objects)
    {
      hide MapObjects, RenamedKey;
      var newKey := RenamedKey(oldKey, newName);
      ghost var h := Rename(oldKey, newName);
      if newKey.None? {
        NothingRun(policy, Now());
        return;
      }
      ghost var step := Step.RenameObject(oldKey, newKey.value);
      StepKeepsDistinct(step, policy, objects);
      if HasKey(objects, newKey.value) {
        StepUnlogged(h, policy, Now(), step);
        return;
      }
      HandledOne(h, policy, Now(), step, Add(NameBack(newKey.value, oldKey)));
      objects := MapObjects(objects, Rekey(oldKey, newKey.value));
      LogActivity(NameBack(newKey.value, oldKey));
    }

    /** The table of the list, then every incoming object on top; keys come out distinct. */
    method Merge(incoming: seq<Object>)
      modifies this`objects
      ensures objects == MergeIn(old(objects), incoming) && DistinctKeys(objects)
      ensures exists first, last :: TableOf(old(objects) + incoming, objects, first, last)
    {
      hide TableOf;
      MergeDistinct(objects, incoming);
      ghost var first, last := MergeIsTable(objects, incoming);
      var table: seq<Object> := [];
      for i := 0 to |objects|
        invariant unchanged(`objects)
        invariant table == SetKeys([], objects[..i])
      {
        assert objects[..i + 1][..i] == objects[..i];
        table := SetKey(table, objects[i]);
      }
      assert objects[..|objects|] == objects;
      ghost var start := table;
      for i := 0 to |incoming|
        invariant unchanged(`objects)
        invariant table == SetKeys(start, incoming[..i])
      {
        assert incoming[..i + 1][..i] == incoming[..i];
        table := SetKey(table, incoming[i]);
      }
      assert incoming[..|incoming|] == incoming;
      objects := table;
    }

    /** A file that is not a list of objects changes nothing; entries without key and CID are dropped. */
    method ImportManifest(parsed: Option<seq<Option<Object>>>)
      requires Valid()
      modifies this`objects, this`log, this`lastId
      ensures Valid()
      ensures Now() == if parsed.None? then old(Now()) else Handle(Import(ValidOf(parsed.value)), policy, old(Now()))
      ensures parsed.Some? ==>
                && DistinctKeys(objects) && log != [] && log[0].undo == NoUndo
                && exists valid, at, first, last ::
                     Objects(parsed.value, valid, at) && TableOf(old(objects) + valid, objects, first, last)
      ensures parsed.Some? ==>
                forall i: nat, k :: LastEntryAt(parsed.value, k, i) ==> Find(objects, k) == Some(parsed.value[i].value)
      ensures parsed.Some? && old(DistinctKeys(objects)) ==>
                forall k :: NoEntry(parsed.value, k) ==> Find(objects, k) == old(Find(objects, k))
    {
      hide MergeIn, TableOf, Objects, Find, LastEntryAt, NoEntry, ValidOf;
      if parsed.None? {
        return;
      }
      var incoming := ValidOf(parsed.value);
      ghost var at := ValidPicks(parsed.value);
      ImportFindsAll(objects, parsed.value);
      HandledOne(Import(incoming), policy, Now(), Step.ImportManifest(incoming), Add(NoUndo));
      Merge(incoming);
      LogActivity(NoUndo);
    }

    /** The entry is carried out backwards and taken off the log. */
    method UndoActivity(e: Activity)
      requires Valid()
      modifies this`objects, this`log
      ensures Valid() && Now() == Handle(UndoEntry(e), policy, old(Now()))
      ensures forall x :: x in log <==> x in old(log) && x.id != e.id
      ensures e.undo.NoUndo? ==> objects == old(objects)
      ensures e.undo.PutBack? ==> exists first, last :: TableOf(old(objects) + e.undo.objs, objects, first, last)
      ensures e.undo.NameBack? ==>
                && |objects| == |old(objects)|
                && forall i :: 0 <= i < |objects| ==>
                     objects[i] == old(objects)[i].(
                       key := if old(objects)[i].key == e.undo.from then e.undo.to else old(objects)[i].key)
      ensures old(DistinctKeys(objects)) ==>
                (DistinctKeys(objects) <==>
                 !(e.undo.NameBack? && Collides(Step.RenameBack(e.undo.from, e.undo.to), old(objects))))
    {
      hide MergeIn, MapObjects, TableOf, WithoutId;
      NothingRun(policy, Now());
      RunLogOne(Take(e.id), Log(log, lastId));
      match e.undo {
        case NoUndo =>
        case PutBack(objs) =>
          RunOne(Step.RestoreObjects(objs), policy, objects);
          Merge(objs);
        case NameBack(from, to) =>
          RunOne(Step.RenameBack(from, to), policy, objects);
          if DistinctKeys(objects) {
            StepDistinct(Step.RenameBack(from, to), policy, objects);
          }
          objects := MapObjects(objects, Rekey(from, to));
      }
      RemoveActivity(e.id);
    }
  }

  // ----- facts about single handlers

  lemma StepUnlogged(h: Handler, policy: Policy, s: State, step: Step)
    requires StepsOf(h) == [step] && LogOpsOf(h, policy, s.objects) == []
    ensures Handle(h, policy, s) == State(Apply(step, policy, s.objects), s.log)
  {
    hide StepsOf, LogOpsOf, Apply;
    RunOne(step, policy, s.objects);
  }

  lemma UploadEffect(files: seq<FileStep>, cancelAt: nat, policy: Policy, s: State)
    ensures var n := Min(cancelAt, |files|);
            Handle(Upload(files, cancelAt), policy, s) ==
            if !WithinQuota(s.objects, policy.quotaBytes, files) then s
            else State(PutAll(s.objects, policy.versioning, files[..n]),
                       if SomeStored(files[..n]) then LogStep(Add(NoUndo), s.log) else s.log)
    ensures files == [] ==> Handle(Upload(files, cancelAt), policy, s) == s
    ensures DistinctKeys(s.objects) ==> DistinctKeys(Handle(Upload(files, cancelAt), policy, s).objects)
  {
    hide LogStep, Put, DistinctKeys;
    StepKeepsDistinct(Step.UploadFiles(files, cancelAt), policy, s.objects);
    RunOne(Step.UploadFiles(files, cancelAt), policy, s.objects);
    RunLogOne(Add(NoUndo), s.log);
  }

  lemma NothingPut(l: seq<Object>, versioning: bool, files: seq<FileStep>)
    ensures PutAll(l, versioning, files[..0]) == l && !SomeStored(files[..0])
  {
  }

  lemma PutAllSnoc(l': seq<Object>, l: seq<Object>, versioning: bool, files: seq<FileStep>, i: nat)
    requires i < |files| && l' == PutAll(l, versioning, files[..i])
    ensures PutAll(l, versioning, files[..i + 1]) ==
            if files[i].Stored? then Put(l', versioning, files[i].content) else l'
  {
    hide Put;
    assert files[..i + 1][..i] == files[..i];
  }

  lemma SomeStoredSnoc(files: seq<FileStep>, i: nat)
    requires i < |files|
    ensures SomeStored(files[..i + 1]) <==> SomeStored(files[..i]) || files[i].Stored?
  {
    var before, after := files[..i], files[..i + 1];
    assert after == before + [files[i]];
    if SomeStored(before) {
      var j :| 0 <= j < |before| && before[j].Stored?;
      assert after[j].Stored?;
    }
    if SomeStored(after) && !files[i].Stored? {
      var j :| 0 <= j < |after| && after[j].Stored?;
      assert before[j].Stored?;
    }
    assert after[i] == files[i];
  }

  lemma FindKeptAll(l: seq<Object>, keep: Object -> bool, keys: set<string>)
    requires forall o: Object :: keep(o) <==> o.key !in keys
    ensures forall k :: Find(Filter(l, keep), k) == if k in keys then None else Find(l, k)
  {
    hide Find, Filter;
    forall k {
      FindKept(l, keep, keys, k);
    }
  }

  /** After a deletion the deleted keys hold nothing and the others what they held. */
  lemma FindKept(l: seq<Object>, keep: Object -> bool, keys: set<string>, k: string)
    requires forall o: Object :: keep(o) <==> o.key !in keys
    ensures Find(Filter(l, keep), k) == if k in keys then None else Find(l, k)
  {
    hide Find;
    FilterSame(l, keep, InClass(keys, false));
    if k in keys {
      FilterMembers(l, keep);
      var r := Filter(l, keep);
      assert forall i :: 0 <= i < |r| ==> r[i] in r;
    } else {
      FindInPart(l, k, keys, false);
    }
  }

  /** Restoring a version, in terms of the first object with the key. */
  lemma VersionIsRestored(l: seq<Object>, key: string, cid: string, now: nat)
    ensures forall i: nat :: FirstAt(l, key, i) && HasVersion(l[i], cid) ==>
              VersionRestored(l, RestoreIn(l, key, cid, now), i, cid, now) && Find(l, key) == Some(l[i])
              && FindVersion(History(l[i]), cid).Some?
    ensures (forall i: nat :: FirstAt(l, key, i) ==> !HasVersion(l[i], cid)) ==>
              Find(l, key).None? || FindVersion(History(Find(l, key).value), cid).None?
  {
    hide Find, VersionRestored, RestoreIn;
    forall i: nat | FirstAt(l, key, i) && HasVersion(l[i], cid)
      ensures VersionRestored(l, RestoreIn(l, key, cid, now), i, cid, now) && Find(l, key) == Some(l[i])
      ensures FindVersion(History(l[i]), cid).Some?
    {
      FirstIsFound(l, key, i);
      RestoreInPromotes(l, key, cid, now, i);
    }
    if Find(l, key).Some? {
      var i := FindIsFirst(l, key);
      if !HasVersion(l[i], cid) {
        NoVersionNoChange(l[i], cid, now);
      }
    }
  }

  lemma ImportFindsAll(l: seq<Object>, list: seq<Option<Object>>)
    ensures forall i: nat, k :: LastEntryAt(list, k, i) ==> Find(MergeIn(l, ValidOf(list)), k) == Some(list[i].value)
    ensures DistinctKeys(l) ==> forall k :: NoEntry(list, k) ==> Find(MergeIn(l, ValidOf(list)), k) == Find(l, k)
  {
    hide Find, MergeIn, ValidOf, NoEntry;
    forall i: nat, k | LastEntryAt(list, k, i)
      ensures Find(MergeIn(l, ValidOf(list)), k) == Some(list[i].value)
    {
      ImportFinds(l, list, k);
    }
    forall k | DistinctKeys(l) && NoEntry(list, k)
      ensures Find(MergeIn(l, ValidOf(list)), k) == Find(l, k)
    {
      ImportFinds(l, list, k);
    }
  }

  lemma UnknownVersion(l: seq<Object>, o: Object, cid: string, now: nat)
    requires Find(l, o.key) == Some(o) && FindVersion(History(o), cid).None?
    ensures ReplaceFirst(l, Restored(o, cid, now)) == l
  {
    ReplaceBySelf(l, o);
  }

  lemma {:induction false} ReplaceBySelf(l: seq<Object>, o: Object)
    requires Find(l, o.key) == Some(o)
    ensures ReplaceFirst(l, o) == l
  {
    if l[0].key != o.key {
      ReplaceBySelf(l[1..], o);
    }
    assert l == [l[0]] + l[1..];
  }
}

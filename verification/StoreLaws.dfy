/**
 What the console's steps keep over whole runs: distinct keys, the history of a key, and the
 order of its versions.
 */
module StoreLaws {
  import opened Prelude
  import opened Manifest
  import opened Store
  import opened StoreLocality

  // ----- distinct keys

  lemma {:induction false} ReplaceKeepsKeys(l: seq<Object>, o: Object)
    ensures |ReplaceFirst(l, o)| == |l|
    ensures forall i :: 0 <= i < |l| ==> ReplaceFirst(l, o)[i].key == l[i].key
  {
    if l != [] {
      ReplaceKeepsKeys(l[1..], o);
    }
  }

  lemma SetKeyDistinct(l: seq<Object>, o: Object)
    requires DistinctKeys(l)
    ensures DistinctKeys(SetKey(l, o))
  {
    ReplaceKeepsKeys(l, o);
  }

  lemma {:induction false} SetKeysDistinct(l: seq<Object>, objs: seq<Object>)
    requires DistinctKeys(l)
    ensures DistinctKeys(SetKeys(l, objs))
    decreases |objs|
  {
    hide SetKey;
    if objs != [] {
      SetKeysDistinct(l, objs[..|objs| - 1]);
      SetKeyDistinct(SetKeys(l, objs[..|objs| - 1]), objs[|objs| - 1]);
    }
  }

  /** Merging gives distinct keys even from a list that has none. */
  lemma MergeDistinct(l: seq<Object>, objs: seq<Object>)
    ensures DistinctKeys(MergeIn(l, objs))
  {
    SetKeysDistinct([], l);
    SetKeysDistinct(SetKeys([], l), objs);
  }

  lemma PutDistinct(l: seq<Object>, versioning: bool, c: Content)
    requires DistinctKeys(l)
    ensures DistinctKeys(Put(l, versioning, c))
  {
    var kept := Filter(l, KeyIsNot(c.key));
    FilterDistinct(l, KeyIsNot(c.key));
    FilterMembers(l, KeyIsNot(c.key));
    forall i | 0 <= i < |kept|
      ensures kept[i].key != c.key
    {
      assert kept[i] in kept;
    }
  }

  lemma {:induction false} PutAllDistinct(l: seq<Object>, versioning: bool, files: seq<FileStep>)
    requires DistinctKeys(l)
    ensures DistinctKeys(PutAll(l, versioning, files))
    decreases |files|
  {
    hide Put;
    if files != [] {
      PutAllDistinct(l, versioning, files[..|files| - 1]);
      if files[|files| - 1].Stored? {
        PutDistinct(PutAll(l, versioning, files[..|files| - 1]), versioning, files[|files| - 1].content);
      }
    }
  }

  /** Renaming keeps keys distinct exactly when it does not run into another object. */
  lemma RekeyDistinct(l: seq<Object>, from: string, to: string)
    requires DistinctKeys(l)
    ensures DistinctKeys(MapObjects(l, Rekey(from, to))) <==> from == to || !HasKey(l, from) || !HasKey(l, to)
  {
    hide MapObjects;
    var r := MapObjects(l, Rekey(from, to));
    if from != to && HasKey(l, from) && HasKey(l, to) {
      var i :| 0 <= i < |l| && l[i].key == from;
      var j :| 0 <= j < |l| && l[j].key == to;
      assert r[i].key == to && r[j].key == to;
    }
  }

  /** The only step that can bring two objects under one key is the undoing of a renaming. */
  predicate Collides(step: Step, l: seq<Object>) {
    step.RenameBack? && step.from != step.to && HasKey(l, step.from) && HasKey(l, step.to)
  }

  lemma StepDistinct(step: Step, policy: Policy, l: seq<Object>)
    requires DistinctKeys(l)
    ensures DistinctKeys(Apply(step, policy, l)) <==> !Collides(step, l)
  {
    hide Put, PutAll, MergeIn, MapObjects, Filter, ReplaceFirst;
    match step
    case UploadFiles(_, _) => PutAllDistinct(l, policy.versioning, Started(step));
    case RetryUpload(c) => PutDistinct(l, policy.versioning, c);
    case CreateFolder(_, _) =>
    case DeleteObject(key) => FilterDistinct(l, KeyIsNot(key));
    case BulkDelete(keys) => FilterDistinct(l, KeyNotIn(keys));
    case TogglePin(key, flag) => assert forall i :: 0 <= i < |l| ==> MapObjects(l, Repin(key, flag))[i].key == l[i].key;
    case RestoreVersion(key, cid, at) =>
      if Find(l, key).Some? {
        ReplaceKeepsKeys(l, Restored(Find(l, key).value, cid, at));
      }
    case RenameObject(from, to) => RekeyDistinct(l, from, to);
    case ImportManifest(objs) => MergeDistinct(l, objs);
    case RestoreObjects(objs) => MergeDistinct(l, objs);
    case RenameBack(from, to) => RekeyDistinct(l, from, to);
  }

  lemma StepKeepsDistinct(step: Step, policy: Policy, l: seq<Object>)
    ensures DistinctKeys(l) && !Collides(step, l) ==> DistinctKeys(Apply(step, policy, l))
  {
    if DistinctKeys(l) {
      StepDistinct(step, policy, l);
    }
  }

  /** No step of the run collides where it is taken. */
  predicate NoCollision(steps: seq<Step>, policy: Policy, l: seq<Object>) {
    forall i :: 0 <= i < |steps| ==> !Collides(steps[i], Run(steps[..i], policy, l))
  }

  predicate AlwaysDistinct(steps: seq<Step>, policy: Policy, l: seq<Object>) {
    forall i :: 0 <= i <= |steps| ==> DistinctKeys(Run(steps[..i], policy, l))
  }

  lemma LastStep(steps: seq<Step>, policy: Policy, l: seq<Object>)
    requires steps != []
    ensures var n := |steps| - 1;
            && (NoCollision(steps, policy, l) <==>
                NoCollision(steps[..n], policy, l) && !Collides(steps[n], Run(steps[..n], policy, l)))
            && (AlwaysDistinct(steps, policy, l) <==>
                AlwaysDistinct(steps[..n], policy, l) && DistinctKeys(Run(steps, policy, l)))
  {
    hide Run, Collides, DistinctKeys;
    var n := |steps| - 1;
    assert forall i :: 0 <= i <= n ==> steps[..n][..i] == steps[..i];
    assert forall i :: 0 <= i < n ==> steps[..n][i] == steps[i];
    assert steps[..|steps|] == steps;
  }

  /** Keys stay distinct throughout a run exactly when no undone renaming runs into another object. */
  lemma {:induction false} RunDistinct(steps: seq<Step>, policy: Policy, l: seq<Object>)
    requires DistinctKeys(l)
    ensures NoCollision(steps, policy, l) <==> AlwaysDistinct(steps, policy, l)
    decreases |steps|
  {
    if steps == [] {
      assert steps[..0] == [];
    } else {
      hide Apply, DistinctKeys, Collides;
      var n := |steps| - 1;
      var front := steps[..n];
      RunDistinct(front, policy, l);
      LastStep(steps, policy, l);
      if AlwaysDistinct(front, policy, l) {
        assert front[..n] == front;
        StepDistinct(steps[n], policy, Run(front, policy, l));
      }
    }
  }

  lemma RunThree(s0: Step, s1: Step, s2: Step, policy: Policy, l: seq<Object>)
    ensures Run([s0, s1], policy, l) == Apply(s1, policy, Apply(s0, policy, l))
    ensures Run([s0, s1, s2], policy, l) == Apply(s2, policy, Apply(s1, policy, Apply(s0, policy, l)))
  {
    hide Apply;
    assert [s0, s1, s2][..2] == [s0, s1] && [s0, s1][..1] == [s0] && [s0][..0] == [];
    assert Run([s0], policy, l) == Apply(s0, policy, l);
  }

  /** Rename a to b, upload a new a, undo the renaming: two objects under a. */
  lemma UndoneRenamingCanCollide(policy: Policy, o: Object, c: Content, b: string)
    requires o.key == c.key != b
    ensures var rename, upload, undo := RenameObject(o.key, b), RetryUpload(c), RenameBack(b, o.key);
            && DistinctKeys([o]) && DistinctKeys(Run([rename, upload], policy, [o]))
            && !DistinctKeys(Run([rename, upload, undo], policy, [o]))
  {
    hide Put, MapObjects, Run, Find;
    var l1 := [o.(key := b)];
    assert MapObjects([o], Rekey(o.key, b)) == l1;
    assert !HasKey([o], b);
    RunThree(RenameObject(o.key, b), RetryUpload(c), RenameBack(b, o.key), policy, [o]);
    var l2 := Put(l1, policy.versioning, c);
    PutDistinct(l1, policy.versioning, c);
    FindPut(l1, policy.versioning, c, b);
    FindPut(l1, policy.versioning, c, o.key);
    assert l1[0].key == b;
    assert HasKey(l1, b);
    RekeyDistinct(l2, b, o.key);
  }

  // ----- the history of a key

  function Only(l: seq<Object>, key: string): seq<Object> { Part(l, {key}, true) }

  function VersionCids(vs: seq<Version>): set<string> { set v | v in vs :: v.cid }

  /** The current CID of an object and those of its versions. */
  function CidsOf(o: Object): set<string> { {o.cid} + VersionCids(History(o)) }

  function CidsAt(l: seq<Object>, key: string): set<string> {
    match Find(l, key) case Some(o) => CidsOf(o) case None => {}
  }

  lemma {:induction false} OtherVersionsCids(vs: seq<Version>, cid: string)
    ensures VersionCids(OtherVersions(vs, cid)) == VersionCids(vs) - {cid}
  {
    if vs != [] {
      var h, t := vs[0], vs[1..];
      OtherVersionsCids(t, cid);
      assert vs == [h] + t;
      ConsCids(h, t);
      ConsCids(h, OtherVersions(t, cid));
      assert [] + OtherVersions(t, cid) == OtherVersions(t, cid);
    }
  }

  lemma ConsCids(v: Version, vs: seq<Version>)
    ensures VersionCids([v] + vs) == {v.cid} + VersionCids(vs)
  {
  }

  /** Restoring a version loses and invents nothing. */
  lemma RestoredCids(o: Object, cid: string, now: nat)
    ensures CidsOf(Restored(o, cid, now)) == CidsOf(o)
  {
    hide OtherVersions;
    var v := FindVersion(History(o), cid);
    if v.Some? {
      var vs := History(o);
      assert v.value in vs;
      assert cid in VersionCids(vs);
      OtherVersionsCids(vs, cid);
      ConsCids(Snapshot(o), OtherVersions(vs, cid));
    }
  }

  /** A new upload adds its CID. */
  lemma NewObjectCids(l: seq<Object>, c: Content)
    ensures CidsOf(NewObject(l, true, c)) == {c.cid} + CidsAt(l, c.key)
  {
    var prev := Find(l, c.key);
    if prev.Some? {
      ConsCids(Snapshot(prev.value), History(prev.value));
    }
  }

  lemma {:induction false} FindAppended(l: seq<Object>, o: Object)
    requires !HasKey(l, o.key)
    ensures Find(l + [o], o.key) == Some(o)
  {
    if l != [] {
      assert l == [l[0]] + l[1..];
      assert (l + [o])[1..] == l[1..] + [o];
      assert forall i :: 0 <= i < |l[1..]| ==> l[1..][i] == l[i + 1];
      FindAppended(l[1..], o);
    }
  }

  /** After an upload the key holds the new object, and no other key changes. */
  lemma FindPut(l: seq<Object>, versioning: bool, c: Content, key: string)
    ensures Find(Put(l, versioning, c), key) ==
            if key == c.key then Some(NewObject(l, versioning, c)) else Find(l, key)
  {
    hide Find, Filter;
    if key == c.key {
      var kept := Filter(l, KeyIsNot(key));
      FilterMembers(l, KeyIsNot(key));
      assert forall i :: 0 <= i < |kept| ==> kept[i] in kept;
      assert !HasKey(kept, key);
      FindAppended(kept, NewObject(l, versioning, c));
    } else {
      var p := Put(l, versioning, c);
      PutInPart(l, versioning, c, {key}, true);
      FindInPart(p, key, {key}, true);
      FindInPart(l, key, {key}, true);
    }
  }

  lemma {:induction false} FindReplaced(l: seq<Object>, o: Object)
    requires HasKey(l, o.key)
    ensures Find(ReplaceFirst(l, o), o.key) == Some(o)
  {
    if l[0].key != o.key {
      var i :| 0 <= i < |l| && l[i].key == o.key;
      assert l[1..][i - 1].key == o.key;
      FindReplaced(l[1..], o);
    }
  }

  /** What the files of a batch put under a key. */
  function UploadedBy(files: seq<FileStep>, key: string): set<string> {
    set f | f in files && f.Stored? && f.content.key == key :: f.content.cid
  }

  lemma {:induction false} PutAllCids(l: seq<Object>, files: seq<FileStep>, key: string)
    ensures CidsAt(PutAll(l, true, files), key) == CidsAt(l, key) + UploadedBy(files, key)
    decreases |files|
  {
    hide Put, Find, CidsOf, NewObject;
    if files != [] {
      var front, f := files[..|files| - 1], files[|files| - 1];
      assert files == front + [f];
      PutAllCids(l, front, key);
      if f.Stored? && f.content.key == key {
        assert UploadedBy(files, key) == UploadedBy(front, key) + {f.content.cid};
        FindPut(PutAll(l, true, front), true, f.content, key);
        NewObjectCids(PutAll(l, true, front), f.content);
      } else {
        assert UploadedBy(files, key) == UploadedBy(front, key);
        if f.Stored? {
          FindPut(PutAll(l, true, front), true, f.content, key);
        }
      }
    }
  }

  /** The CIDs that a step uploads to a key. */
  function Uploads(step: Step, policy: Policy, l: seq<Object>, key: string): set<string> {
    match step
    case UploadFiles(files, _) =>
      if WithinQuota(l, policy.quotaBytes, files) then UploadedBy(Started(step), key) else {}
    case RetryUpload(c) => if c.key == key then {c.cid} else {}
    case _ => {}
  }

  function UploadsOfRun(steps: seq<Step>, policy: Policy, l: seq<Object>, key: string): set<string> {
    if steps == [] then {}
    else
      var front := steps[..|steps| - 1];
      UploadsOfRun(front, policy, l, key) + Uploads(steps[|steps| - 1], policy, Run(front, policy, l), key)
  }

  /** A step that uploads to the key, restores one of its versions, or leaves it alone. */
  predicate UploadsOrRestores(step: Step, key: string) {
    key in Touches(step) ==> step.UploadFiles? || step.RetryUpload? || step.RestoreVersion?
  }

  lemma StepElsewhere(step: Step, policy: Policy, l: seq<Object>, key: string)
    requires key !in Touches(step) && |Only(l, key)| <= 1
    ensures Only(Apply(step, policy, l), key) == Only(l, key)
    ensures Find(Apply(step, policy, l), key) == Find(l, key)
  {
    hide Apply, Part, Find;
    StepOutside(step, policy, l, {key}, true);
    FindInPart(l, key, {key}, true);
    FindInPart(Apply(step, policy, l), key, {key}, true);
  }

  lemma OnlyAfterPut(l: seq<Object>, versioning: bool, c: Content, key: string)
    requires |Only(l, key)| <= 1
    ensures |Only(Put(l, versioning, c), key)| <= 1
  {
    hide Filter;
    PutInPart(l, versioning, c, {key}, true);
    if c.key == key {
      var p := Only(l, key);
      PartMembers(l, {key}, true);
      assert forall i :: 0 <= i < |p| ==> p[i] in p && !KeyIsNot(key)(p[i]);
      FilterNone(p, KeyIsNot(key));
    }
  }

  lemma {:induction false} OnlyAfterPutAll(l: seq<Object>, versioning: bool, files: seq<FileStep>, key: string)
    requires |Only(l, key)| <= 1
    ensures |Only(PutAll(l, versioning, files), key)| <= 1
    decreases |files|
  {
    hide Put, Part;
    if files != [] {
      OnlyAfterPutAll(l, versioning, files[..|files| - 1], key);
      if files[|files| - 1].Stored? {
        OnlyAfterPut(PutAll(l, versioning, files[..|files| - 1]), versioning, files[|files| - 1].content, key);
      }
    }
  }

  lemma OnlyAfterRestore(l: seq<Object>, key: string, cid: string, at: nat)
    requires |Only(l, key)| <= 1
    ensures |Only(RestoreIn(l, key, cid, at), key)| <= 1
  {
    hide Filter, ReplaceFirst;
    if Find(l, key).Some? {
      var o := Restored(Find(l, key).value, cid, at);
      RestoredKey(Find(l, key).value, cid, at);
      ReplaceInPart(l, o, {key}, true);
      ReplaceKeepsKeys(Only(l, key), o);
    }
  }

  lemma HistoryStep(step: Step, policy: Policy, l: seq<Object>, key: string)
    requires policy.versioning && UploadsOrRestores(step, key) && |Only(l, key)| <= 1
    ensures |Only(Apply(step, policy, l), key)| <= 1
    ensures CidsAt(Apply(step, policy, l), key) == CidsAt(l, key) + Uploads(step, policy, l, key)
  {
    hide Part, Put, PutAll, Find, CidsOf, WithinQuota, RestoreIn;
    if key !in Touches(step) {
      StepElsewhere(step, policy, l, key);
      NoUploadElsewhere(step, policy, l, key);
    } else {
      match step
      case UploadFiles(_, _) =>
        PutAllCids(l, Started(step), key);
        OnlyAfterPutAll(l, true, Started(step), key);
      case RetryUpload(c) =>
        FindPut(l, true, c, key);
        NewObjectCids(l, c);
        OnlyAfterPut(l, true, c, key);
      case RestoreVersion(_, cid, at) =>
        RestoreCids(l, key, cid, at);
        OnlyAfterRestore(l, key, cid, at);
    }
  }

  lemma NoUploadElsewhere(step: Step, policy: Policy, l: seq<Object>, key: string)
    requires key !in Touches(step)
    ensures Uploads(step, policy, l, key) == {}
  {
  }

  lemma RestoreCids(l: seq<Object>, key: string, cid: string, at: nat)
    ensures CidsAt(RestoreIn(l, key, cid, at), key) == CidsAt(l, key)
  {
    hide Restored, CidsOf, ReplaceFirst;
    if Find(l, key).Some? {
      var o := Find(l, key).value;
      RestoredKey(o, cid, at);
      RestoredCids(o, cid, at);
      FindReplaced(l, Restored(o, cid, at));
    }
  }

  /**
   Over any run in which the key is only uploaded to and restored, whatever happens to other
   keys, its current CID and its version CIDs are exactly those it had and those uploaded to it.
   */
  lemma {:induction false} HistoryOverRuns(steps: seq<Step>, policy: Policy, l: seq<Object>, key: string)
    requires policy.versioning && |Only(l, key)| <= 1
    requires forall i :: 0 <= i < |steps| ==> UploadsOrRestores(steps[i], key)
    ensures |Only(Run(steps, policy, l), key)| <= 1
    ensures CidsAt(Run(steps, policy, l), key) == CidsAt(l, key) + UploadsOfRun(steps, policy, l, key)
    decreases |steps|
  {
    hide Part, Apply, CidsAt, Uploads;
    if steps != [] {
      var front := steps[..|steps| - 1];
      HistoryOverRuns(front, policy, l, key);
      HistoryStep(steps[|steps| - 1], policy, Run(front, policy, l), key);
    }
  }

  /** From an empty bucket, the history of a key is exactly what was ever uploaded to it. */
  lemma HistoryFromEmpty(steps: seq<Step>, policy: Policy, key: string)
    requires policy.versioning
    requires forall i :: 0 <= i < |steps| ==> UploadsOrRestores(steps[i], key)
    ensures CidsAt(Run(steps, policy, []), key) == UploadsOfRun(steps, policy, [], key)
  {
    HistoryOverRuns(steps, policy, [], key);
  }

  // ----- newest first

  /** The versions are in falling order of time, and none is newer than `time`. */
  predicate Falling(vs: seq<Version>, time: nat) {
    && (forall i :: 0 <= i < |vs| ==> vs[i].lastModified <= time)
    && (forall i, j :: 0 <= i < j < |vs| ==> vs[i].lastModified >= vs[j].lastModified)
  }

  /** The object is newest first, and not from the future. */
  predicate NewestFirst(o: Object, clock: nat) {
    o.lastModified <= clock && Falling(History(o), o.lastModified)
  }

  predicate NewestFirstAt(l: seq<Object>, key: string, clock: nat) {
    var r := Find(l, key);
    r.Some? ==> NewestFirst(r.value, clock)
  }

  lemma ConsFalling(v: Version, vs: seq<Version>, time: nat)
    requires Falling(vs, v.lastModified) && v.lastModified <= time
    ensures Falling([v] + vs, time)
  {
  }

  lemma TailFalling(vs: seq<Version>, time: nat)
    requires Falling(vs, time) && vs != []
    ensures Falling(vs[1..], vs[0].lastModified) && vs[0].lastModified <= time
  {
  }

  lemma LaterFalling(vs: seq<Version>, time: nat, later: nat)
    requires Falling(vs, time) && time <= later
    ensures Falling(vs, later)
  {
  }

  lemma {:induction false} OtherVersionsFalling(vs: seq<Version>, cid: string, time: nat)
    requires Falling(vs, time)
    ensures Falling(OtherVersions(vs, cid), time)
  {
    if vs != [] {
      hide Falling;
      var h, t := vs[0], vs[1..];
      TailFalling(vs, time);
      OtherVersionsFalling(t, cid, h.lastModified);
      ConsFalling(h, OtherVersions(t, cid), time);
      LaterFalling(OtherVersions(t, cid), h.lastModified, time);
      assert [] + OtherVersions(t, cid) == OtherVersions(t, cid);
    }
  }

  lemma RestoredNewestFirst(o: Object, cid: string, clock: nat, now: nat)
    requires NewestFirst(o, clock) && clock <= now
    ensures NewestFirst(Restored(o, cid, now), now)
  {
    hide OtherVersions;
    OtherVersionsFalling(History(o), cid, o.lastModified);
    ConsFalling(Snapshot(o), OtherVersions(History(o), cid), now);
  }

  lemma NewObjectNewestFirst(l: seq<Object>, versioning: bool, c: Content, clock: nat)
    requires NewestFirstAt(l, c.key, clock) && clock <= c.now
    ensures NewestFirst(NewObject(l, versioning, c), c.now)
  {
    var prev := Find(l, c.key);
    if prev.Some? {
      ConsFalling(Snapshot(prev.value), History(prev.value), c.now);
    }
  }

  /** The clock after the files of a batch, which read it in order. */
  predicate FilesClocked(files: seq<FileStep>, clock: nat, after: nat) {
    if files == [] then clock <= after
    else
      var front, f := files[..|files| - 1], files[|files| - 1];
      if f.Stored? then FilesClocked(front, clock, f.content.now) && f.content.now <= after
      else FilesClocked(front, clock, after)
  }

  lemma {:induction false} FilesClockedOrder(files: seq<FileStep>, clock: nat, after: nat)
    requires FilesClocked(files, clock, after)
    ensures clock <= after
  {
    if files != [] {
      var front, f := files[..|files| - 1], files[|files| - 1];
      FilesClockedOrder(front, clock, if f.Stored? then f.content.now else after);
    }
  }

  lemma {:induction false} PutAllNewestFirst(l: seq<Object>, versioning: bool, files: seq<FileStep>,
                                             key: string, clock: nat, after: nat)
    requires NewestFirstAt(l, key, clock) && FilesClocked(files, clock, after)
    ensures NewestFirstAt(PutAll(l, versioning, files), key, after)
    decreases |files|
  {
    hide Put, Find, NewObject, Falling, History;
    if files != [] {
      var front, f := files[..|files| - 1], files[|files| - 1];
      var l' := PutAll(l, versioning, front);
      if f.Stored? {
        PutAllNewestFirst(l, versioning, front, key, clock, f.content.now);
        FindPut(l', versioning, f.content, key);
        if f.content.key == key {
          NewObjectNewestFirst(l', versioning, f.content, f.content.now);
        }
      } else {
        PutAllNewestFirst(l, versioning, front, key, clock, after);
      }
    }
  }

  /** The step reads a clock that has not gone back. */
  predicate Clocked(step: Step, clock: nat, after: nat) {
    match step
    case UploadFiles(_, _) => FilesClocked(Started(step), clock, after)
    case RetryUpload(c) => clock <= c.now <= after
    case RestoreVersion(_, _, at) => clock <= at <= after
    case _ => clock <= after
  }

  lemma LaterClock(l: seq<Object>, key: string, clock: nat, after: nat)
    requires NewestFirstAt(l, key, clock) && clock <= after
    ensures NewestFirstAt(l, key, after)
  {
  }

  lemma NewestFirstStep(step: Step, policy: Policy, l: seq<Object>, key: string, clock: nat, after: nat)
    requires UploadsOrRestores(step, key) && |Only(l, key)| <= 1
    requires NewestFirstAt(l, key, clock) && Clocked(step, clock, after)
    ensures NewestFirstAt(Apply(step, policy, l), key, after)
  {
    hide Part, Put, PutAll, Find, NewObject, Falling, History, Restored, ReplaceFirst, WithinQuota, FilesClocked;
    if step.UploadFiles? {
      FilesClockedOrder(Started(step), clock, after);
      PutAllNewestFirst(l, policy.versioning, Started(step), key, clock, after);
      LaterClock(l, key, clock, after);
    } else if key !in Touches(step) {
      StepElsewhere(step, policy, l, key);
      LaterClock(l, key, clock, after);
    } else if step.RetryUpload? {
      FindPut(l, policy.versioning, step.content, key);
      NewObjectNewestFirst(l, policy.versioning, step.content, clock);
    } else if Find(l, key).Some? {
      var o := Find(l, key).value;
      RestoredNewestFirst(o, step.cid, clock, step.at);
      RestoredKey(o, step.cid, step.at);
      FindReplaced(l, Restored(o, step.cid, step.at));
    }
  }

  /** `clocks[i]` is a time between step `i - 1` and step `i`. */
  predicate RunClocked(steps: seq<Step>, clocks: seq<nat>) {
    |clocks| == |steps| + 1 && forall i :: 0 <= i < |steps| ==> Clocked(steps[i], clocks[i], clocks[i + 1])
  }

  /** With a clock that never goes back, the history of a key stays newest first over any run. */
  lemma {:induction false} NewestFirstOverRuns(steps: seq<Step>, clocks: seq<nat>, policy: Policy,
                                               l: seq<Object>, key: string)
    requires policy.versioning && |Only(l, key)| <= 1 && RunClocked(steps, clocks)
    requires forall i :: 0 <= i < |steps| ==> UploadsOrRestores(steps[i], key)
    requires NewestFirstAt(l, key, clocks[0])
    ensures NewestFirstAt(Run(steps, policy, l), key, clocks[|steps|])
    decreases |steps|
  {
    hide Part, Apply, NewestFirstAt, Clocked;
    if steps != [] {
      var n := |steps| - 1;
      NewestFirstOverRuns(steps[..n], clocks[..n + 1], policy, l, key);
      HistoryOverRuns(steps[..n], policy, l, key);
      NewestFirstStep(steps[n], policy, Run(steps[..n], policy, l), key, clocks[n], clocks[n + 1]);
    }
  }
}

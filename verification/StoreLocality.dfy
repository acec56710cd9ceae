/**
 Steps of the console act key by key: what a step does to some keys does not depend on the
 objects under other keys.
 */
module StoreLocality {
  import opened Manifest
  import opened Store

  /** The objects whose keys are in a set, or those whose keys are not. */
  function InClass(keys: set<string>, inside: bool): Object -> bool {
    (o: Object) => (o.key in keys) == inside
  }

  function Part(l: seq<Object>, keys: set<string>, inside: bool): seq<Object> {
    Filter(l, InClass(keys, inside))
  }

  predicate Belongs(key: string, keys: set<string>, inside: bool) { (key in keys) == inside }

  lemma PartSnoc(l: seq<Object>, o: Object, keys: set<string>, inside: bool)
    ensures Part(l + [o], keys, inside) ==
            if Belongs(o.key, keys, inside) then Part(l, keys, inside) + [o] else Part(l, keys, inside)
  {
    FilterSnoc(l, o, InClass(keys, inside));
  }

  lemma PartCons(o: Object, l: seq<Object>, keys: set<string>, inside: bool)
    ensures Part([o] + l, keys, inside) ==
            if Belongs(o.key, keys, inside) then [o] + Part(l, keys, inside) else Part(l, keys, inside)
  {
    FilterConcat([o], l, InClass(keys, inside));
    FilterSnoc([], o, InClass(keys, inside));
    assert [] + [o] == [o];
    assert [] + Part(l, keys, inside) == Part(l, keys, inside);
  }

  lemma PartMembers(l: seq<Object>, keys: set<string>, inside: bool)
    ensures forall o :: o in Part(l, keys, inside) <==> o in l && Belongs(o.key, keys, inside)
  {
    FilterMembers(l, InClass(keys, inside));
  }

  // ----- each list operation, on one part

  lemma {:induction false} FindInPart(l: seq<Object>, key: string, keys: set<string>, inside: bool)
    requires Belongs(key, keys, inside)
    ensures Find(Part(l, keys, inside), key) == Find(l, key)
  {
    if l != [] {
      assert l == [l[0]] + l[1..];
      PartCons(l[0], l[1..], keys, inside);
      FindInPart(l[1..], key, keys, inside);
      assert Belongs(l[0].key, keys, inside) ==>
          ([l[0]] + Part(l[1..], keys, inside))[1..] == Part(l[1..], keys, inside);
    }
  }

  lemma HasKeyInPart(l: seq<Object>, key: string, keys: set<string>, inside: bool)
    requires Belongs(key, keys, inside)
    ensures HasKey(Part(l, keys, inside), key) <==> HasKey(l, key)
  {
    FindInPart(l, key, keys, inside);
  }

  lemma {:induction false} ReplaceInPart(l: seq<Object>, o: Object, keys: set<string>, inside: bool)
    ensures Part(ReplaceFirst(l, o), keys, inside) ==
            if Belongs(o.key, keys, inside) then ReplaceFirst(Part(l, keys, inside), o) else Part(l, keys, inside)
  {
    if l != [] {
      var h, t := l[0], l[1..];
      assert l == [h] + t;
      PartCons(h, t, keys, inside);
      if h.key == o.key {
        PartCons(o, t, keys, inside);
        assert ([h] + Part(t, keys, inside))[1..] == Part(t, keys, inside);
      } else {
        ReplaceInPart(t, o, keys, inside);
        PartCons(h, ReplaceFirst(t, o), keys, inside);
        assert ([h] + Part(t, keys, inside))[1..] == Part(t, keys, inside);
      }
    }
  }

  lemma SetKeyInPart(l: seq<Object>, o: Object, keys: set<string>, inside: bool)
    ensures Part(SetKey(l, o), keys, inside) ==
            if Belongs(o.key, keys, inside) then SetKey(Part(l, keys, inside), o) else Part(l, keys, inside)
  {
    ReplaceInPart(l, o, keys, inside);
    PartSnoc(l, o, keys, inside);
    if Belongs(o.key, keys, inside) {
      HasKeyInPart(l, o.key, keys, inside);
    }
  }

  lemma {:induction false} SetKeysInPart(l: seq<Object>, objs: seq<Object>, keys: set<string>, inside: bool)
    ensures Part(SetKeys(l, objs), keys, inside) == SetKeys(Part(l, keys, inside), Part(objs, keys, inside))
    decreases |objs|
  {
    hide SetKey;
    if objs != [] {
      var front, o := objs[..|objs| - 1], objs[|objs| - 1];
      assert objs == front + [o];
      SetKeysInPart(l, front, keys, inside);
      SetKeyInPart(SetKeys(l, front), o, keys, inside);
      PartSnoc(front, o, keys, inside);
      SetKeysSnoc(Part(l, keys, inside), Part(front, keys, inside), o);
    }
  }

  lemma SetKeysSnoc(l: seq<Object>, objs: seq<Object>, o: Object)
    ensures SetKeys(l, objs + [o]) == SetKey(SetKeys(l, objs), o)
  {
    assert (objs + [o])[..|objs|] == objs;
  }

  lemma MergeInPart(l: seq<Object>, objs: seq<Object>, keys: set<string>, inside: bool)
    ensures Part(MergeIn(l, objs), keys, inside) == MergeIn(Part(l, keys, inside), Part(objs, keys, inside))
  {
    hide SetKeys;
    SetKeysInPart(SetKeys([], l), objs, keys, inside);
    SetKeysInPart([], l, keys, inside);
    assert Part([], keys, inside) == [];
  }

  lemma {:induction false} MapInPart(l: seq<Object>, f: Object -> Object, keys: set<string>, inside: bool)
    requires forall o: Object :: Belongs(f(o).key, keys, inside) <==> Belongs(o.key, keys, inside)
    ensures Part(MapObjects(l, f), keys, inside) == MapObjects(Part(l, keys, inside), f)
  {
    hide MapObjects;
    if l != [] {
      var front, o := l[..|l| - 1], l[|l| - 1];
      assert l == front + [o];
      MapInPart(front, f, keys, inside);
      PartSnoc(front, o, keys, inside);
      MapSnoc(front, o, f);
      PartSnoc(MapObjects(front, f), f(o), keys, inside);
      MapSnoc(Part(front, keys, inside), o, f);
    }
  }

  lemma MapSnoc(l: seq<Object>, o: Object, f: Object -> Object)
    ensures MapObjects(l + [o], f) == MapObjects(l, f) + [f(o)]
  {
    hide MapObjects;
  }

  lemma {:induction false} MapElsewhere(l: seq<Object>, f: Object -> Object)
    requires forall i :: 0 <= i < |l| ==> f(l[i]) == l[i]
    ensures MapObjects(l, f) == l
  {
    hide MapObjects;
  }

  lemma DeleteInPart(l: seq<Object>, keep: Object -> bool, keys: set<string>, inside: bool)
    ensures Part(Filter(l, keep), keys, inside) == Filter(Part(l, keys, inside), keep)
  {
    FilterSwap(l, keep, InClass(keys, inside));
  }

  lemma DeleteElsewhere(l: seq<Object>, keep: Object -> bool, keys: set<string>, inside: bool)
    requires forall o: Object :: Belongs(o.key, keys, inside) ==> keep(o)
    ensures Part(Filter(l, keep), keys, inside) == Part(l, keys, inside)
  {
    FilterImplied(l, keep, InClass(keys, inside));
  }

  lemma PutInPart(l: seq<Object>, versioning: bool, c: Content, keys: set<string>, inside: bool)
    ensures Part(Put(l, versioning, c), keys, inside) ==
            if Belongs(c.key, keys, inside) then Put(Part(l, keys, inside), versioning, c) else Part(l, keys, inside)
  {
    hide Filter;
    PartSnoc(Filter(l, KeyIsNot(c.key)), NewObject(l, versioning, c), keys, inside);
    if Belongs(c.key, keys, inside) {
      DeleteInPart(l, KeyIsNot(c.key), keys, inside);
      FindInPart(l, c.key, keys, inside);
    } else {
      DeleteElsewhere(l, KeyIsNot(c.key), keys, inside);
    }
  }

  lemma {:induction false} PutAllInPart(l: seq<Object>, versioning: bool, files: seq<FileStep>,
                                        keys: set<string>, inside: bool)
    ensures (forall k :: k in StoredKeys(files) ==> Belongs(k, keys, inside)) ==>
              Part(PutAll(l, versioning, files), keys, inside) == PutAll(Part(l, keys, inside), versioning, files)
    ensures (forall k :: k in StoredKeys(files) ==> !Belongs(k, keys, inside)) ==>
              Part(PutAll(l, versioning, files), keys, inside) == Part(l, keys, inside)
    decreases |files|
  {
    hide Put, Part;
    if files != [] {
      var front, f := files[..|files| - 1], files[|files| - 1];
      assert files == front + [f];
      assert forall k :: k in StoredKeys(front) ==> k in StoredKeys(files);
      assert f.Stored? ==> f.content.key in StoredKeys(files);
      PutAllInPart(l, versioning, front, keys, inside);
      if f.Stored? {
        PutInPart(PutAll(l, versioning, front), versioning, f.content, keys, inside);
      }
    }
  }

  // ----- each step, on one part

  /** The quota does not turn the step down. */
  predicate Admitted(step: Step, policy: Policy, l: seq<Object>) {
    step.UploadFiles? ==> WithinQuota(l, policy.quotaBytes, step.files)
  }

  /** What is admitted in a bucket is admitted in a part of it. */
  lemma AdmittedInPart(step: Step, policy: Policy, l: seq<Object>, keys: set<string>, inside: bool)
    requires Admitted(step, policy, l)
    ensures Admitted(step, policy, Part(l, keys, inside))
  {
    FilterSmaller(l, InClass(keys, inside));
  }

  /** The files that were started before the batch was cancelled all failed. */
  predicate StoresNothing(step: Step) { step.UploadFiles? && StoredKeys(Started(step)) == {} }

  /** The quota decides alike about the step in two buckets, or its decision makes no difference. */
  predicate HarmlessStep(step: Step, policy: Policy, l: seq<Object>, m: seq<Object>) {
    (Admitted(step, policy, l) <==> Admitted(step, policy, m)) || StoresNothing(step)
  }

  lemma {:induction false} NothingStored(l: seq<Object>, versioning: bool, files: seq<FileStep>)
    requires StoredKeys(files) == {}
    ensures PutAll(l, versioning, files) == l
    decreases |files|
  {
    if files != [] {
      var front, f := files[..|files| - 1], files[|files| - 1];
      StoredKeysHas(files, f);
      assert forall k :: k in StoredKeys(front) ==> k in StoredKeys(files);
      NothingStored(l, versioning, front);
    }
  }

  lemma StoredKeysHas(files: seq<FileStep>, f: FileStep)
    requires f in files
    ensures f.Stored? ==> f.content.key in StoredKeys(files)
  {
  }

  lemma IdleStep(step: Step, policy: Policy, l: seq<Object>)
    requires StoresNothing(step)
    ensures Apply(step, policy, l) == l
  {
    NothingStored(l, policy.versioning, Started(step));
  }

  /**
   A step whose keys all belong to a part acts on that part alone, if the quota decides alike for
   the bucket and for the part or nothing is stored anyway.
   */
  lemma StepInside(step: Step, policy: Policy, l: seq<Object>, keys: set<string>, inside: bool)
    requires HarmlessStep(step, policy, l, Part(l, keys, inside))
    requires forall k :: k in Touches(step) ==> Belongs(k, keys, inside)
    ensures Part(Apply(step, policy, l), keys, inside) == Apply(step, policy, Part(l, keys, inside))
  {
    hide Part, Put, PutAll, MergeIn, MapObjects, ReplaceFirst, StoresNothing;
    match step
    case UploadFiles(_, _) =>
      if StoresNothing(step) {
        IdleStep(step, policy, l);
        IdleStep(step, policy, Part(l, keys, inside));
      } else {
        PutAllInPart(l, policy.versioning, Started(step), keys, inside);
      }
    case RetryUpload(c) => PutInPart(l, policy.versioning, c, keys, inside);
    case CreateFolder(key, at) =>
      HasKeyInPart(l, key, keys, inside);
      PartSnoc(l, Marker(key, at), keys, inside);
    case DeleteObject(key) => DeleteInPart(l, KeyIsNot(key), keys, inside);
    case BulkDelete(ks) => DeleteInPart(l, KeyNotIn(ks), keys, inside);
    case TogglePin(key, flag) => MapInPart(l, Repin(key, flag), keys, inside);
    case RestoreVersion(key, cid, at) =>
      FindInPart(l, key, keys, inside);
      if Find(l, key).Some? {
        RestoredKey(Find(l, key).value, cid, at);
        ReplaceInPart(l, Restored(Find(l, key).value, cid, at), keys, inside);
      }
    case RenameObject(from, to) =>
      HasKeyInPart(l, to, keys, inside);
      MapInPart(l, Rekey(from, to), keys, inside);
    case ImportManifest(objs) => MergeInside(l, objs, keys, inside);
    case RestoreObjects(objs) => MergeInside(l, objs, keys, inside);
    case RenameBack(from, to) => MapInPart(l, Rekey(from, to), keys, inside);
  }

  lemma RestoredKey(o: Object, cid: string, now: nat)
    ensures Restored(o, cid, now).key == o.key
  {
  }

  lemma MergeInside(l: seq<Object>, objs: seq<Object>, keys: set<string>, inside: bool)
    requires forall k :: k in KeysOf(objs) ==> Belongs(k, keys, inside)
    ensures Part(MergeIn(l, objs), keys, inside) == MergeIn(Part(l, keys, inside), objs)
  {
    MergeInPart(l, objs, keys, inside);
    forall i | 0 <= i < |objs|
      ensures InClass(keys, inside)(objs[i])
    {
      assert objs[i].key in KeysOf(objs);
    }
    FilterAll(objs, InClass(keys, inside));
  }

  lemma MergeOutside(l: seq<Object>, objs: seq<Object>, keys: set<string>, inside: bool)
    requires forall k :: k in KeysOf(objs) ==> !Belongs(k, keys, inside)
    requires DistinctKeys(Part(l, keys, inside))
    ensures Part(MergeIn(l, objs), keys, inside) == Part(l, keys, inside)
  {
    MergeInPart(l, objs, keys, inside);
    forall i | 0 <= i < |objs|
      ensures !InClass(keys, inside)(objs[i])
    {
      assert objs[i].key in KeysOf(objs);
    }
    FilterNone(objs, InClass(keys, inside));
    TableOfDistinct(Part(l, keys, inside));
  }

  /** A list with distinct keys is its own table. */
  lemma {:induction false} TableOfDistinct(l: seq<Object>)
    requires DistinctKeys(l)
    ensures SetKeys([], l) == l
  {
    if l != [] {
      TableOfDistinct(l[..|l| - 1]);
      assert l == l[..|l| - 1] + [l[|l| - 1]];
    }
  }

  /** A step leaves alone every part that has none of its keys. */
  lemma StepOutside(step: Step, policy: Policy, l: seq<Object>, keys: set<string>, inside: bool)
    requires forall k :: k in Touches(step) ==> !Belongs(k, keys, inside)
    requires DistinctKeys(Part(l, keys, inside))
    ensures Part(Apply(step, policy, l), keys, inside) == Part(l, keys, inside)
  {
    hide Part, Put, PutAll, MergeIn, MapObjects, ReplaceFirst;
    match step
    case UploadFiles(_, _) => PutAllInPart(l, policy.versioning, Started(step), keys, inside);
    case RetryUpload(c) => PutInPart(l, policy.versioning, c, keys, inside);
    case CreateFolder(key, at) => PartSnoc(l, Marker(key, at), keys, inside);
    case DeleteObject(key) => DeleteElsewhere(l, KeyIsNot(key), keys, inside);
    case BulkDelete(ks) => DeleteElsewhere(l, KeyNotIn(ks), keys, inside);
    case TogglePin(key, flag) => MapOutside(l, Repin(key, flag), key, key, keys, inside);
    case RestoreVersion(key, cid, at) =>
      if Find(l, key).Some? {
        RestoredKey(Find(l, key).value, cid, at);
        ReplaceInPart(l, Restored(Find(l, key).value, cid, at), keys, inside);
      }
    case RenameObject(from, to) => MapOutside(l, Rekey(from, to), from, to, keys, inside);
    case ImportManifest(objs) => MergeOutside(l, objs, keys, inside);
    case RestoreObjects(objs) => MergeOutside(l, objs, keys, inside);
    case RenameBack(from, to) => MapOutside(l, Rekey(from, to), from, to, keys, inside);
  }

  /** Changing only objects under `from`, into objects under `to`, both outside the part. */
  lemma MapOutside(l: seq<Object>, f: Object -> Object, from: string, to: string, keys: set<string>, inside: bool)
    requires !Belongs(from, keys, inside) && !Belongs(to, keys, inside)
    requires forall o: Object :: (o.key != from ==> f(o) == o) && (o.key == from ==> f(o).key == to)
    ensures Part(MapObjects(l, f), keys, inside) == Part(l, keys, inside)
  {
    MapInPart(l, f, keys, inside);
    PartMembers(l, keys, inside);
    var p := Part(l, keys, inside);
    forall i | 0 <= i < |p|
      ensures f(p[i]) == p[i]
    {
      assert p[i] in p;
    }
    MapElsewhere(p, f);
  }

  // ----- whole runs

  predicate NeverTouches(steps: seq<Step>, keys: set<string>) {
    forall i :: 0 <= i < |steps| ==> Touches(steps[i]) !! keys
  }

  lemma {:induction false} RunOutside(steps: seq<Step>, policy: Policy, l: seq<Object>, keys: set<string>)
    requires NeverTouches(steps, keys) && DistinctKeys(Part(l, keys, true))
    ensures Part(Run(steps, policy, l), keys, true) == Part(l, keys, true)
    decreases |steps|
  {
    hide Part, Apply;
    if steps != [] {
      var front := steps[..|steps| - 1];
      RunOutside(front, policy, l, keys);
      StepOutside(steps[|steps| - 1], policy, Run(front, policy, l), keys, true);
    }
  }

  /** The quota turns down no step of the run. */
  predicate AllAdmitted(steps: seq<Step>, policy: Policy, l: seq<Object>) {
    forall i :: 0 <= i < |steps| ==> Admitted(steps[i], policy, Run(steps[..i], policy, l))
  }

  /** The quota makes no difference at any step of the run between having the objects under `keys` and not. */
  predicate Harmless(steps: seq<Step>, policy: Policy, l: seq<Object>, keys: set<string>) {
    forall i :: 0 <= i < |steps| ==>
      HarmlessStep(steps[i], policy, Run(steps[..i], policy, l), Run(steps[..i], policy, Part(l, keys, false)))
  }

  lemma HarmlessFront(steps: seq<Step>, policy: Policy, l: seq<Object>, keys: set<string>)
    requires steps != []
    ensures var n := |steps| - 1;
            Harmless(steps, policy, l, keys) <==>
            && Harmless(steps[..n], policy, l, keys)
            && HarmlessStep(steps[n], policy, Run(steps[..n], policy, l), Run(steps[..n], policy, Part(l, keys, false)))
  {
    hide Run, HarmlessStep, Part;
    var n := |steps| - 1;
    assert forall i :: 0 <= i < n ==> steps[..n][..i] == steps[..i];
  }

  /** A run on other keys does to the rest of the bucket what it does without these objects. */
  lemma {:induction false} RunInside(steps: seq<Step>, policy: Policy, l: seq<Object>, keys: set<string>)
    requires NeverTouches(steps, keys) && Harmless(steps, policy, l, keys)
    ensures Part(Run(steps, policy, l), keys, false) == Run(steps, policy, Part(l, keys, false))
    decreases |steps|
  {
    hide Part, Apply, HarmlessStep, Harmless;
    if steps != [] {
      var n := |steps| - 1;
      var front := steps[..n];
      HarmlessFront(steps, policy, l, keys);
      RunInside(front, policy, l, keys);
      StepInside(steps[n], policy, Run(front, policy, l), keys, false);
    }
  }

  lemma AdmittedFront(steps: seq<Step>, policy: Policy, l: seq<Object>)
    requires steps != [] && AllAdmitted(steps, policy, l)
    ensures AllAdmitted(steps[..|steps| - 1], policy, l)
    ensures Admitted(steps[|steps| - 1], policy, Run(steps[..|steps| - 1], policy, l))
  {
    hide Run, Admitted;
    var n := |steps| - 1;
    assert forall i :: 0 <= i < n ==> steps[..n][..i] == steps[..i];
  }

  /** A run of which the quota turns down nothing is harmless. */
  lemma {:induction false} AdmittedIsHarmless(steps: seq<Step>, policy: Policy, l: seq<Object>, keys: set<string>)
    requires NeverTouches(steps, keys) && AllAdmitted(steps, policy, l)
    ensures Harmless(steps, policy, l, keys)
    decreases |steps|
  {
    if steps != [] {
      hide Part, Run, Admitted, Harmless;
      var n := |steps| - 1;
      var front := steps[..n];
      AdmittedFront(steps, policy, l);
      hide AllAdmitted;
      AdmittedIsHarmless(front, policy, l, keys);
      RunInside(front, policy, l, keys);
      AdmittedInPart(steps[n], policy, Run(front, policy, l), keys, false);
      HarmlessFront(steps, policy, l, keys);
    }
  }

  /** Without a quota every run is. */
  lemma NoQuotaIsHarmless(steps: seq<Step>, policy: Policy, l: seq<Object>, keys: set<string>)
    requires policy.quotaBytes == 0
    ensures Harmless(steps, policy, l, keys)
  {
    hide Run, Part;
  }
}

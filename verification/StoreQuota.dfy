/** The quota of a bucket: which steps can take it over, and when a whole run stays within it. */
module StoreQuota {
  import opened Manifest
  import opened Store
  import opened StoreLocality
  import opened StoreLaws

  // ----- batches

  lemma {:induction false} PutAllSize(l: seq<Object>, versioning: bool, files: seq<FileStep>)
    ensures TotalSize(PutAll(l, versioning, files)) <= TotalSize(l) + Incoming(files)
    decreases |files|
  {
    hide Filter, TotalSize;
    if files != [] {
      var front, f := files[..|files| - 1], files[|files| - 1];
      PutAllSize(l, versioning, front);
      if f.Stored? {
        var l' := PutAll(l, versioning, front);
        FilterSmaller(l', KeyIsNot(f.content.key));
        TotalSnoc(Filter(l', KeyIsNot(f.content.key)), NewObject(l', versioning, f.content));
      }
    }
  }

  lemma {:induction false} IncomingMonotone(files: seq<FileStep>, i: nat)
    requires i <= |files|
    ensures Incoming(files[..i]) <= Incoming(files)
    decreases |files|
  {
    if i < |files| {
      IncomingMonotone(files[..|files| - 1], i);
      assert files[..|files| - 1][..i] == files[..i];
    } else {
      assert files[..i] == files;
    }
  }

  /** Every list that an accepted batch persists stays within the quota. */
  lemma QuotaHolds(l: seq<Object>, policy: Policy, files: seq<FileStep>, i: nat)
    requires policy.quotaBytes > 0 && WithinQuota(l, policy.quotaBytes, files) && i <= |files|
    ensures TotalSize(PutAll(l, policy.versioning, files[..i])) <= policy.quotaBytes
  {
    PutAllSize(l, policy.versioning, files[..i]);
    IncomingMonotone(files, i);
  }

  // ----- sizes of the list operations

  lemma {:induction false} TotalCons(o: Object, l: seq<Object>)
    ensures TotalSize([o] + l) == o.size + TotalSize(l)
    decreases |l|
  {
    if l == [] {
      assert [o] + l == [] + [o];
      TotalSnoc([], o);
    } else {
      var front := l[..|l| - 1];
      TotalCons(o, front);
      assert ([o] + l)[..|l|] == [o] + front;
    }
  }

  lemma {:induction false} ReplaceSize(l: seq<Object>, o: Object)
    requires HasKey(l, o.key)
    ensures TotalSize(ReplaceFirst(l, o)) == TotalSize(l) - Find(l, o.key).value.size + o.size
  {
    hide TotalSize, HasKey;
    assert Find(l, o.key).Some?;
    var h, t := l[0], l[1..];
    assert l == [h] + t;
    TotalCons(h, t);
    if h.key == o.key {
      TotalCons(o, t);
    } else {
      assert Find(t, o.key).Some?;
      ReplaceSize(t, o);
      TotalCons(h, ReplaceFirst(t, o));
    }
  }

  lemma {:induction false} MapKeepsSize(l: seq<Object>, f: Object -> Object)
    requires forall o: Object :: f(o).size == o.size
    ensures TotalSize(MapObjects(l, f)) == TotalSize(l)
  {
    hide MapObjects;
    var r := MapObjects(l, f);
    if l != [] {
      MapKeepsSize(l[..|l| - 1], f);
      assert r[..|r| - 1] == MapObjects(l[..|l| - 1], f);
    }
  }

  lemma PutSize(l: seq<Object>, versioning: bool, c: Content)
    ensures TotalSize(Put(l, versioning, c)) == TotalSize(Filter(l, KeyIsNot(c.key))) + c.size
  {
    TotalSnoc(Filter(l, KeyIsNot(c.key)), NewObject(l, versioning, c));
  }

  // ----- the size of a merge

  lemma {:induction false} WithoutFirst(l: seq<Object>, o: Object)
    requires DistinctKeys(l) && HasKey(l, o.key)
    ensures TotalSize(l) == TotalSize(Part(l, {o.key}, false)) + Find(l, o.key).value.size
  {
    hide TotalSize, Filter, HasKey;
    assert Find(l, o.key).Some?;
    var h, t := l[0], l[1..];
    assert l == [h] + t;
    TotalCons(h, t);
    PartCons(h, t, {o.key}, false);
    if h.key == o.key {
      forall i | 0 <= i < |t|
        ensures InClass({o.key}, false)(t[i])
      {
        assert t[i] == l[i + 1];
      }
      FilterAll(t, InClass({o.key}, false));
    } else {
      assert Find(t, o.key).Some?;
      WithoutFirst(t, o);
      TotalCons(h, Part(t, {o.key}, false));
    }
  }

  /** Setting a key replaces the size of what stood under it. */
  lemma SetKeySize(l: seq<Object>, o: Object)
    requires DistinctKeys(l)
    ensures TotalSize(SetKey(l, o)) == TotalSize(Part(l, {o.key}, false)) + o.size
  {
    hide TotalSize, Filter, ReplaceFirst, Find;
    if HasKey(l, o.key) {
      WithoutFirst(l, o);
      ReplaceSize(l, o);
    } else {
      FilterAll(l, InClass({o.key}, false));
      TotalSnoc(l, o);
    }
  }

  lemma {:induction false} SetKeysSize(l: seq<Object>, objs: seq<Object>)
    requires DistinctKeys(l)
    ensures TotalSize(SetKeys(l, objs)) == TotalSize(Part(l, KeysOf(objs), false)) + TotalSize(SetKeys([], objs))
    decreases |objs|
  {
    hide TotalSize, Filter, SetKey, Part;
    if objs == [] {
      NothingLeftOut(l);
    } else {
      var front, o := objs[..|objs| - 1], objs[|objs| - 1];
      var k := {o.key};
      assert objs == front + [o];
      var front' := Part(front, k, false);
      SetKeysDistinct(l, front);
      SetKeysDistinct([], front);
      SetKeySize(SetKeys(l, front), o);
      SetKeySize(SetKeys([], front), o);
      SetKeysInPart(l, front, k, false);
      SetKeysInPart([], front, k, false);
      EmptyPart(k);
      PartShorter(front, k);
      PartKeepsDistinct(l, k);
      SetKeysSize(Part(l, k, false), front');
      LeftOutInTurn(l, front, o);
    }
  }

  lemma EmptyPart(keys: set<string>)
    ensures Part([], keys, false) == []
  {
  }

  lemma NothingLeftOut(l: seq<Object>)
    ensures Part(l, KeysOf([]), false) == l && TotalSize([]) == 0
  {
    FilterAll(l, InClass(KeysOf([]), false));
  }

  lemma {:induction false} PartShorter(l: seq<Object>, keys: set<string>)
    ensures |Part(l, keys, false)| <= |l|
  {
    if l != [] {
      PartShorter(l[..|l| - 1], keys);
    }
  }

  lemma PartKeepsDistinct(l: seq<Object>, keys: set<string>)
    requires DistinctKeys(l)
    ensures DistinctKeys(Part(l, keys, false))
  {
    FilterDistinct(l, InClass(keys, false));
  }

  /** Leaving out a key and then the other keys of a list is leaving out all its keys. */
  lemma {:induction false} LeftOutInTurn(l: seq<Object>, front: seq<Object>, o: Object)
    ensures var k := {o.key};
            Part(Part(l, k, false), KeysOf(Part(front, k, false)), false) == Part(l, KeysOf(front + [o]), false)
  {
    hide Part;
    var k := {o.key};
    var front' := Part(front, k, false);
    PartMembers(front, k, false);
    forall key
      ensures key in KeysOf(front + [o]) <==> key in k || key in KeysOf(front')
    {
      SomeKey(front, o, front', key);
    }
    FilterTwice(l, k, KeysOf(front'), KeysOf(front + [o]));
  }

  lemma SomeKey(front: seq<Object>, o: Object, front': seq<Object>, key: string)
    requires forall x :: x in front' <==> x in front && Belongs(x.key, {o.key}, false)
    ensures key in KeysOf(front + [o]) <==> key == o.key || key in KeysOf(front')
  {
    assert forall x :: x in front + [o] <==> x in front || x == o;
    assert o in front + [o];
  }

  lemma {:induction false} FilterTwice(l: seq<Object>, k: set<string>, m: set<string>, all: set<string>)
    requires forall key :: key in all <==> key in k || key in m
    ensures Part(Part(l, k, false), m, false) == Part(l, all, false)
  {
    hide Part;
    if l == [] {
      EmptyPart(k);
      EmptyPart(m);
      EmptyPart(all);
    } else {
      var front, o := l[..|l| - 1], l[|l| - 1];
      assert l == front + [o];
      FilterTwice(front, k, m, all);
      PartSnoc(front, o, k, false);
      PartSnoc(Part(front, k, false), o, m, false);
      PartSnoc(front, o, all, false);
    }
  }

  /** What a merge weighs: the table of the list outside the incoming keys, and the incoming table. */
  function MergedSize(l: seq<Object>, objs: seq<Object>): nat {
    TotalSize(Part(SetKeys([], l), KeysOf(objs), false)) + TotalSize(SetKeys([], objs))
  }

  lemma MergeSize(l: seq<Object>, objs: seq<Object>)
    ensures TotalSize(MergeIn(l, objs)) == MergedSize(l, objs)
  {
    SetKeysDistinct([], l);
    SetKeysSize(SetKeys([], l), objs);
  }

  // ----- steps and runs

  /** The step takes the bucket over its quota. Only four kinds of step can. */
  predicate Overfills(step: Step, quota: nat, l: seq<Object>) {
    match step
    case RetryUpload(c) => TotalSize(Filter(l, KeyIsNot(c.key))) + c.size > quota
    case RestoreVersion(key, cid, _) =>
      var o := Find(l, key);
      o.Some? &&
      var v := FindVersion(History(o.value), cid);
      v.Some? && TotalSize(l) - o.value.size + v.value.size > quota
    case ImportManifest(objs) => MergedSize(l, objs) > quota
    case RestoreObjects(objs) => MergedSize(l, objs) > quota
    case _ => false
  }

  /** A bucket within its quota stays so exactly when the step does not overfill it. */
  lemma StepWithinQuota(step: Step, policy: Policy, l: seq<Object>)
    requires policy.quotaBytes > 0 && TotalSize(l) <= policy.quotaBytes
    ensures TotalSize(Apply(step, policy, l)) <= policy.quotaBytes <==> !Overfills(step, policy.quotaBytes, l)
  {
    hide Put, PutAll, MergeIn, MapObjects, Filter, ReplaceFirst, TotalSize, MergedSize;
    match step
    case UploadFiles(files, _) =>
      if WithinQuota(l, policy.quotaBytes, files) {
        QuotaHolds(l, policy, files, |Started(step)|);
      }
    case RetryUpload(c) => PutSize(l, policy.versioning, c);
    case CreateFolder(key, at) => TotalSnoc(l, Marker(key, at));
    case DeleteObject(key) => FilterSmaller(l, KeyIsNot(key));
    case BulkDelete(keys) => FilterSmaller(l, KeyNotIn(keys));
    case TogglePin(key, flag) => MapKeepsSize(l, Repin(key, flag));
    case RestoreVersion(key, cid, at) => RestoredSize(l, key, cid, at);
    case RenameObject(from, to) => MapKeepsSize(l, Rekey(from, to));
    case ImportManifest(objs) => MergeSize(l, objs);
    case RestoreObjects(objs) => MergeSize(l, objs);
    case RenameBack(from, to) => MapKeepsSize(l, Rekey(from, to));
  }

  lemma RestoredSize(l: seq<Object>, key: string, cid: string, at: nat)
    ensures var o := Find(l, key);
            TotalSize(RestoreIn(l, key, cid, at)) ==
            if o.Some? && FindVersion(History(o.value), cid).Some?
            then TotalSize(l) - o.value.size + FindVersion(History(o.value), cid).value.size
            else TotalSize(l)
  {
    hide TotalSize, ReplaceFirst, FindVersion, OtherVersions;
    var o := Find(l, key);
    if o.Some? {
      RestoredKey(o.value, cid, at);
      ReplaceSize(l, Restored(o.value, cid, at));
    }
  }

  /** A retried upload is not checked: it exceeds the quota exactly when its size does not fit. */
  lemma RetryWithinQuotaIff(policy: Policy, l: seq<Object>, c: Content)
    requires policy.quotaBytes > 0
    ensures TotalSize(Apply(RetryUpload(c), policy, l)) <= policy.quotaBytes <==>
            TotalSize(Filter(l, KeyIsNot(c.key))) + c.size <= policy.quotaBytes
  {
    hide Filter, TotalSize, Put;
    PutSize(l, policy.versioning, c);
  }

  /** Content larger than the quota is turned down as a batch and stored by a retry. */
  lemma RetryIgnoresQuota(policy: Policy, l: seq<Object>, c: Content)
    requires policy.quotaBytes > 0 && TotalSize(l) <= policy.quotaBytes < c.size
    ensures Apply(UploadFiles([Stored(c)], 1), policy, l) == l
    ensures TotalSize(Apply(RetryUpload(c), policy, l)) > policy.quotaBytes
  {
    hide Filter, TotalSize, Put;
    var files := [Stored(c)];
    assert files[..0] == [] && Incoming(files) == c.size;
    RetryWithinQuotaIff(policy, l, c);
  }

  /** No step of the run overfills the bucket where it is taken. */
  predicate NoOverfill(steps: seq<Step>, policy: Policy, l: seq<Object>) {
    forall i :: 0 <= i < |steps| ==> !Overfills(steps[i], policy.quotaBytes, Run(steps[..i], policy, l))
  }

  predicate AlwaysWithin(steps: seq<Step>, policy: Policy, l: seq<Object>) {
    forall i :: 0 <= i <= |steps| ==> TotalSize(Run(steps[..i], policy, l)) <= policy.quotaBytes
  }

  lemma LastWithin(steps: seq<Step>, policy: Policy, l: seq<Object>)
    requires steps != []
    ensures var n := |steps| - 1;
            && (NoOverfill(steps, policy, l) <==>
                NoOverfill(steps[..n], policy, l) &&
                !Overfills(steps[n], policy.quotaBytes, Run(steps[..n], policy, l)))
            && (AlwaysWithin(steps, policy, l) <==>
                AlwaysWithin(steps[..n], policy, l) && TotalSize(Run(steps, policy, l)) <= policy.quotaBytes)
  {
    hide Run, Overfills, TotalSize;
    var n := |steps| - 1;
    assert forall i :: 0 <= i <= n ==> steps[..n][..i] == steps[..i];
    assert forall i :: 0 <= i < n ==> steps[..n][i] == steps[i];
    assert steps[..|steps|] == steps;
  }

  /**
   A run from a list within the quota stays within it throughout exactly when no retry, import,
   restored object or restored version overfills the bucket where it is taken.
   */
  lemma {:induction false} RunWithinQuota(steps: seq<Step>, policy: Policy, l: seq<Object>)
    requires policy.quotaBytes > 0 && TotalSize(l) <= policy.quotaBytes
    ensures NoOverfill(steps, policy, l) <==> AlwaysWithin(steps, policy, l)
    decreases |steps|
  {
    if steps == [] {
      assert steps[..0] == [];
    } else {
      hide Apply, Overfills, TotalSize;
      var n := |steps| - 1;
      var front := steps[..n];
      RunWithinQuota(front, policy, l);
      LastWithin(steps, policy, l);
      if AlwaysWithin(front, policy, l) {
        assert front[..n] == front;
        StepWithinQuota(steps[n], policy, Run(front, policy, l));
      }
    }
  }
}

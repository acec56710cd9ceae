/** Undoing a deletion or a renaming, at once or after unrelated work. */
module StoreUndo {
  import opened Manifest
  import opened Store
  import opened StoreLocality
  import opened StoreLaws
  import opened StoreQuota

  // ----- the table of a list

  /** The object that each key stands for; of several under one key, the last. */
  function Table(l: seq<Object>): map<string, Object> {
    if l == [] then map[] else Table(l[..|l| - 1])[l[|l| - 1].key := l[|l| - 1]]
  }

  lemma TableSnoc(l: seq<Object>, o: Object)
    ensures Table(l + [o]) == Table(l)[o.key := o]
  {
    assert (l + [o])[..|l|] == l;
  }

  lemma {:induction false} TableKeys(l: seq<Object>)
    ensures forall k :: k in Table(l) <==> HasKey(l, k)
    ensures forall k :: k in Table(l) ==> Table(l)[k] in l && Table(l)[k].key == k
  {
    if l != [] {
      TableKeys(l[..|l| - 1]);
      var o := l[|l| - 1];
      assert l == l[..|l| - 1] + [o];
      forall k
        ensures HasKey(l, k) <==> HasKey(l[..|l| - 1], k) || k == o.key
      {
        if HasKey(l[..|l| - 1], k) {
          var i :| 0 <= i < |l[..|l| - 1]| && l[..|l| - 1][i].key == k;
          assert l[i].key == k;
        }
        if HasKey(l, k) && k != o.key {
          var i :| 0 <= i < |l| && l[i].key == k;
          assert l[..|l| - 1][i].key == k;
        }
        assert l[|l| - 1].key == o.key;
      }
    }
  }

  /** In a list with distinct keys the table holds every object. */
  lemma TableDistinct(l: seq<Object>, o: Object)
    requires DistinctKeys(l) && o in l
    ensures o.key in Table(l) && Table(l)[o.key] == o
  {
    TableKeys(l);
    var i :| 0 <= i < |l| && l[i] == o;
    assert HasKey(l, o.key);
    var j :| 0 <= j < |l| && l[j] == Table(l)[o.key];
    assert i == j;
  }

  lemma TableSetKey(l: seq<Object>, o: Object)
    requires DistinctKeys(l)
    ensures Table(SetKey(l, o)) == Table(l)[o.key := o]
  {
    if HasKey(l, o.key) {
      TableReplace(l, o);
    } else {
      TableSnoc(l, o);
    }
  }

  lemma TableReplaceAt(l: seq<Object>, o: Object, i: nat)
    requires DistinctKeys(l) && i < |l|
    ensures var k, r := l[i].key, ReplaceFirst(l, o);
            && k in Table(r) && k in Table(l)
            && Table(r)[k] == if k == o.key then o else Table(l)[k]
  {
    hide Table, ReplaceFirst;
    var r := ReplaceFirst(l, o);
    ReplaceAt(l, o);
    TableDistinct(l, l[i]);
    TableDistinct(r, r[i]);
  }

  lemma SameTableKeys(l: seq<Object>, r: seq<Object>)
    requires |l| == |r| && forall i :: 0 <= i < |l| ==> r[i].key == l[i].key
    ensures forall k :: k in Table(l) <==> k in Table(r)
  {
    hide Table;
    TableKeys(l);
    TableKeys(r);
  }

  lemma TableReplace(l: seq<Object>, o: Object)
    requires DistinctKeys(l) && HasKey(l, o.key)
    ensures Table(ReplaceFirst(l, o)) == Table(l)[o.key := o]
  {
    hide Table, ReplaceFirst;
    var r := ReplaceFirst(l, o);
    ReplaceKeepsKeys(l, o);
    SameTableKeys(l, r);
    TableKeys(l);
    forall k | k in Table(l)
      ensures k in Table(r) && Table(r)[k] == if k == o.key then o else Table(l)[k]
    {
      var i :| 0 <= i < |l| && l[i].key == k;
      TableReplaceAt(l, o, i);
    }
  }

  /** In a list with distinct keys, exactly the object with the key is replaced. */
  lemma {:induction false} ReplaceAt(l: seq<Object>, o: Object)
    requires DistinctKeys(l)
    ensures |ReplaceFirst(l, o)| == |l|
    ensures forall i :: 0 <= i < |l| ==> ReplaceFirst(l, o)[i] == if l[i].key == o.key then o else l[i]
  {
    if l != [] && l[0].key != o.key {
      ReplaceAt(l[1..], o);
    }
  }

  lemma {:induction false} TableSetKeys(l: seq<Object>, objs: seq<Object>)
    requires DistinctKeys(l)
    ensures Table(SetKeys(l, objs)) == Table(l) + Table(objs)
    decreases |objs|
  {
    hide SetKey;
    if objs != [] {
      var front, o := objs[..|objs| - 1], objs[|objs| - 1];
      TableSetKeys(l, front);
      SetKeysDistinct(l, front);
      TableSetKey(SetKeys(l, front), o);
      assert Table(l) + Table(objs) == (Table(l) + Table(front))[o.key := o];
    }
  }

  /** Merging puts the incoming objects over those of the list. */
  lemma TableMerge(l: seq<Object>, objs: seq<Object>)
    ensures Table(MergeIn(l, objs)) == Table(l) + Table(objs)
  {
    hide SetKeys;
    SetKeysDistinct([], l);
    TableSetKeys([], l);
    TableSetKeys(SetKeys([], l), objs);
    assert Table([]) == map[];
    assert map[] + Table(l) == Table(l);
  }

  lemma UpdateSum<K, V>(x: map<K, V>, y: map<K, V>, k: K, v: V)
    ensures (x + y)[k := v] == x + y[k := v]
    ensures k !in y ==> (x + y)[k := v] == x[k := v] + y
  {
  }

  /** The table of a list is made of the tables of its two parts. */
  lemma {:induction false} TableParts(l: seq<Object>, keys: set<string>)
    ensures Table(l) == Table(Part(l, keys, false)) + Table(Part(l, keys, true))
    ensures forall k :: k in Table(Part(l, keys, true)) ==> k in keys
    ensures forall k :: k in Table(Part(l, keys, false)) ==> k !in keys
  {
    hide Part, Table;
    if l == [] {
      EmptyParts(keys);
    } else {
      var front, o := l[..|l| - 1], l[|l| - 1];
      var x, y := Part(front, keys, false), Part(front, keys, true);
      assert l == front + [o];
      TableParts(front, keys);
      TableSnoc(front, o);
      PartSnoc(front, o, keys, true);
      PartSnoc(front, o, keys, false);
      UpdateSum(Table(x), Table(y), o.key, o);
      if o.key in keys {
        TableSnoc(y, o);
      } else {
        TableSnoc(x, o);
      }
    }
  }

  lemma EmptyParts(keys: set<string>)
    ensures Part([], keys, true) == [] && Part([], keys, false) == [] && Table([]) == map[]
  {
  }

  // ----- undoing a deletion

  /** What is taken out by a deletion of some keys. */
  function Removed(l: seq<Object>, keys: set<string>): seq<Object> { Filter(l, KeyIn(keys)) }

  lemma DeletionParts(l: seq<Object>, keys: set<string>)
    ensures Filter(l, KeyNotIn(keys)) == Part(l, keys, false)
    ensures Removed(l, keys) == Part(l, keys, true)
  {
    FilterSame(l, KeyNotIn(keys), InClass(keys, false));
    FilterSame(l, KeyIn(keys), InClass(keys, true));
  }

  lemma FirstTwoDiffer(r: seq<Object>)
    requires DistinctKeys(r) && |r| > 1
    ensures r[0].key != r[1].key
  {
  }

  lemma SameKeyOnce(r: seq<Object>, key: string)
    requires DistinctKeys(r) && forall i :: 0 <= i < |r| ==> r[i].key == key
    ensures |r| <= 1
  {
    if |r| > 1 {
      FirstTwoDiffer(r);
      assert false;
    }
  }

  /** The selection that is deleted and logged by a single deletion is that of its key. */
  lemma SingleDeletion(l: seq<Object>, key: string)
    requires DistinctKeys(l)
    ensures Filter(l, KeyIsNot(key)) == Filter(l, KeyNotIn({key}))
    ensures Find(l, key).Some? ==> [Find(l, key).value] == Removed(l, {key})
    ensures Find(l, key).None? ==> Removed(l, {key}) == []
  {
    hide Filter, Find;
    FilterSame(l, KeyIsNot(key), KeyNotIn({key}));
    var r := Removed(l, {key});
    FilterMembers(l, KeyIn({key}));
    FilterDistinct(l, KeyIn({key}));
    forall i | 0 <= i < |r|
      ensures r[i].key == key
    {
      assert r[i] in r;
      assert KeyIn({key})(r[i]);
    }
    SameKeyOnce(r, key);
    if Find(l, key).Some? {
      assert Find(l, key).value in r;
      assert r == [r[0]];
    } else if r != [] {
      assert r[0] in l;
      assert HasKey(l, key);
    }
  }

  /**
   Deleting some keys, doing some work, and then putting the deleted objects back gives the table
   that the same work gives without the deletion.
   */
  predicate UndoAgrees(l: seq<Object>, keys: set<string>, steps: seq<Step>, policy: Policy) {
    var deleted := Run(steps, policy, Apply(BulkDelete(keys), policy, l));
    Table(Apply(RestoreObjects(Removed(l, keys)), policy, deleted)) == Table(Run(steps, policy, l))
  }

  /** What putting the objects back gives, from the run without them. */
  lemma UndoneTable(l: seq<Object>, keys: set<string>, steps: seq<Step>, policy: Policy)
    ensures UndoAgrees(l, keys, steps, policy) <==>
            Table(Run(steps, policy, Part(l, keys, false))) + Table(Part(l, keys, true)) == Table(Run(steps, policy, l))
  {
    hide Part, Run, Table, MergeIn, Filter;
    DeletionParts(l, keys);
    TableMerge(Run(steps, policy, Part(l, keys, false)), Part(l, keys, true));
  }

  /** Work on other keys agrees if the quota makes no difference in it. */
  lemma UndoDeletion(l: seq<Object>, keys: set<string>, steps: seq<Step>, policy: Policy)
    requires DistinctKeys(l) && NeverTouches(steps, keys) && Harmless(steps, policy, l, keys)
    ensures UndoAgrees(l, keys, steps, policy)
  {
    hide Part, Run, Table, NeverTouches, Harmless, UndoAgrees;
    RunInside(steps, policy, l, keys);
    PartIsDistinct(l, keys);
    RunOutside(steps, policy, l, keys);
    TableParts(Run(steps, policy, l), keys);
    UndoneTable(l, keys, steps, policy);
  }

  lemma PartIsDistinct(l: seq<Object>, keys: set<string>)
    requires DistinctKeys(l)
    ensures DistinctKeys(Part(l, keys, true))
  {
    FilterDistinct(l, InClass(keys, true));
  }

  /** In particular when the quota turns down none of the work, or there is no quota. */
  lemma UndoDeletionAdmitted(l: seq<Object>, keys: set<string>, steps: seq<Step>, policy: Policy)
    requires DistinctKeys(l) && NeverTouches(steps, keys)
    requires AllAdmitted(steps, policy, l) || policy.quotaBytes == 0
    ensures UndoAgrees(l, keys, steps, policy)
  {
    hide Run, UndoAgrees, NeverTouches, AllAdmitted, Harmless;
    if policy.quotaBytes == 0 {
      NoQuotaIsHarmless(steps, policy, l, keys);
    } else {
      AdmittedIsHarmless(steps, policy, l, keys);
    }
    UndoDeletion(l, keys, steps, policy);
  }

  // ----- exactly when undoing a deletion is neutral

  /** No file that the step stores carries the time of the object it replaces. */
  predicate FreshStep(step: Step, table: map<string, Object>) {
    step.UploadFiles? ==>
      var files := Started(step);
      forall j :: 0 <= j < |files| && files[j].Stored? && files[j].content.key in table ==>
        table[files[j].content.key].lastModified != files[j].content.now
  }

  /** The clock has moved on since the objects that a batch replaces were stored. */
  predicate FreshStamps(steps: seq<Step>, policy: Policy, l: seq<Object>) {
    forall i :: 0 <= i < |steps| ==> FreshStep(steps[i], Table(Run(steps[..i], policy, l)))
  }

  /** The last file that a batch stores is in the table afterwards, with its time. */
  lemma {:induction false} LastStored(l: seq<Object>, versioning: bool, files: seq<FileStep>) returns (j: nat)
    requires StoredKeys(files) != {}
    ensures j < |files| && files[j].Stored?
    ensures var c, table := files[j].content, Table(PutAll(l, versioning, files));
            c.key in StoredKeys(files) && c.key in table && table[c.key].lastModified == c.now
    decreases |files|
  {
    hide Table, Filter, Put;
    SomeStoredFile(files);
    var front, f := files[..|files| - 1], files[|files| - 1];
    assert files == front + [f];
    if f.Stored? {
      j := |files| - 1;
      assert f in files;
      StoredStamp(PutAll(l, versioning, front), versioning, f.content);
    } else {
      assert forall x :: x in files && x.Stored? ==> x in front;
      assert StoredKeys(front) == StoredKeys(files);
      j := LastStored(l, versioning, front);
    }
  }

  lemma SomeStoredFile(files: seq<FileStep>)
    requires StoredKeys(files) != {}
    ensures files != []
  {
    var k :| k in StoredKeys(files);
  }

  lemma StoredStamp(l: seq<Object>, versioning: bool, c: Content)
    ensures var table := Table(Put(l, versioning, c)); c.key in table && table[c.key].lastModified == c.now
  {
    hide Filter;
    TableSnoc(Filter(l, KeyIsNot(c.key)), NewObject(l, versioning, c));
  }

  /** An upload that is admitted only without the deleted objects shows. */
  lemma HarmShows(l: seq<Object>, keys: set<string>, step: Step, policy: Policy, out: seq<Object>)
    requires !HarmlessStep(step, policy, l, Part(l, keys, false)) && Touches(step) !! keys
    requires FreshStep(step, Table(l)) && forall k :: k in Table(out) ==> k in keys
    ensures Table(Apply(step, policy, Part(l, keys, false))) + Table(out) != Table(Apply(step, policy, l))
  {
    hide Part, Table, PutAll, StoredKeys;
    var rest := Part(l, keys, false);
    if Admitted(step, policy, l) {
      AdmittedInPart(step, policy, l, keys, false);
    }
    assert Apply(step, policy, l) == l;
    assert Apply(step, policy, rest) == PutAll(rest, policy.versioning, Started(step));
    var j := LastStored(rest, policy.versioning, Started(step));
    var c := Started(step)[j].content;
    var sum := Table(Apply(step, policy, rest)) + Table(out);
    assert c.key !in Table(out);
    assert c.key in sum && sum[c.key].lastModified == c.now;
  }

  /** After every prefix of the work, putting the objects back would agree. */
  predicate AlwaysAgrees(l: seq<Object>, keys: set<string>, steps: seq<Step>, policy: Policy) {
    forall i :: 0 <= i <= |steps| ==> UndoAgrees(l, keys, steps[..i], policy)
  }

  lemma AgreesFront(l: seq<Object>, keys: set<string>, steps: seq<Step>, policy: Policy)
    requires steps != []
    ensures AlwaysAgrees(l, keys, steps, policy) <==>
            AlwaysAgrees(l, keys, steps[..|steps| - 1], policy) && UndoAgrees(l, keys, steps, policy)
  {
    hide UndoAgrees;
    var n := |steps| - 1;
    assert forall i :: 0 <= i <= n ==> steps[..n][..i] == steps[..i];
    assert steps[..|steps|] == steps;
  }

  lemma FreshFront(steps: seq<Step>, policy: Policy, l: seq<Object>)
    requires steps != [] && FreshStamps(steps, policy, l)
    ensures FreshStamps(steps[..|steps| - 1], policy, l)
    ensures FreshStep(steps[|steps| - 1], Table(Run(steps[..|steps| - 1], policy, l)))
  {
    hide Run, FreshStep, Table;
    var n := |steps| - 1;
    assert forall i :: 0 <= i < n ==> steps[..n][..i] == steps[..i];
  }

  /**
   Undoing a deletion after work on other keys agrees at every moment of that work exactly when
   the quota makes no difference at any of its steps.
   */
  lemma {:induction false} UndoNeutralIff(l: seq<Object>, keys: set<string>, steps: seq<Step>, policy: Policy)
    requires DistinctKeys(l) && NeverTouches(steps, keys) && FreshStamps(steps, policy, l)
    ensures AlwaysAgrees(l, keys, steps, policy) <==> Harmless(steps, policy, l, keys)
    decreases |steps|
  {
    hide DistinctKeys, FreshStamps, AlwaysAgrees, Harmless, UndoAgrees, Run, HarmlessStep, Touches;
    if steps == [] {
      NoStepsAgree(l, keys, policy);
    } else {
      var front := steps[..|steps| - 1];
      FreshFront(steps, policy, l);
      UndoNeutralIff(l, keys, front, policy);
      AgreesFront(l, keys, steps, policy);
      HarmlessFront(steps, policy, l, keys);
      if Harmless(steps, policy, l, keys) {
        UndoDeletion(l, keys, steps, policy);
      } else if Harmless(front, policy, l, keys) {
        LastStepShows(l, keys, steps, policy);
      }
    }
  }

  lemma NoStepsAgree(l: seq<Object>, keys: set<string>, policy: Policy)
    requires DistinctKeys(l)
    ensures AlwaysAgrees(l, keys, [], policy) && Harmless([], policy, l, keys)
  {
    hide DistinctKeys, UndoAgrees;
    UndoDeletion(l, keys, [], policy);
    var none: seq<Step> := [];
    assert none[..0] == none;
  }

  lemma LastStepShows(l: seq<Object>, keys: set<string>, steps: seq<Step>, policy: Policy)
    requires steps != [] && NeverTouches(steps, keys)
    requires var front, step := steps[..|steps| - 1], steps[|steps| - 1];
             && Harmless(front, policy, l, keys)
             && FreshStep(step, Table(Run(front, policy, l)))
             && !HarmlessStep(step, policy, Run(front, policy, l), Run(front, policy, Part(l, keys, false)))
    ensures !UndoAgrees(l, keys, steps, policy)
  {
    hide Part, Table, Harmless, HarmlessStep, Apply, UndoAgrees, FreshStep, Touches;
    var front, step := steps[..|steps| - 1], steps[|steps| - 1];
    RunInside(front, policy, l, keys);
    TableParts(l, keys);
    HarmShows(Run(front, policy, l), keys, step, policy, Part(l, keys, true));
    UndoneTable(l, keys, steps, policy);
  }

  // ----- the same for a single deletion, with the object that it logs

  predicate UndoSingleAgrees(l: seq<Object>, key: string, steps: seq<Step>, policy: Policy)
    requires Find(l, key).Some?
  {
    var deleted := Run(steps, policy, Apply(DeleteObject(key), policy, l));
    Table(Apply(RestoreObjects([Find(l, key).value]), policy, deleted)) == Table(Run(steps, policy, l))
  }

  lemma SingleAgrees(l: seq<Object>, key: string, steps: seq<Step>, policy: Policy)
    requires DistinctKeys(l) && Find(l, key).Some?
    ensures UndoSingleAgrees(l, key, steps, policy) <==> UndoAgrees(l, {key}, steps, policy)
  {
    hide Run, Table, MergeIn, Filter, Find;
    SingleDeletion(l, key);
  }

  lemma UndoSingleDeletion(l: seq<Object>, key: string, steps: seq<Step>, policy: Policy)
    requires DistinctKeys(l) && NeverTouches(steps, {key}) && Find(l, key).Some?
    ensures Harmless(steps, policy, l, {key}) ==> UndoSingleAgrees(l, key, steps, policy)
    ensures FreshStamps(steps, policy, l) ==>
              (Harmless(steps, policy, l, {key}) <==>
               forall i :: 0 <= i <= |steps| ==> UndoSingleAgrees(l, key, steps[..i], policy))
  {
    hide UndoSingleAgrees, UndoAgrees, Find, Harmless, FreshStamps, DistinctKeys, NeverTouches;
    SingleAgrees(l, key, steps, policy);
    if Harmless(steps, policy, l, {key}) {
      UndoDeletion(l, {key}, steps, policy);
    }
    forall i | 0 <= i <= |steps|
      ensures UndoSingleAgrees(l, key, steps[..i], policy) <==> UndoAgrees(l, {key}, steps[..i], policy)
    {
      SingleAgrees(l, key, steps[..i], policy);
    }
    if FreshStamps(steps, policy, l) {
      UndoNeutralIff(l, {key}, steps, policy);
    }
  }

  lemma RunOne(step: Step, policy: Policy, l: seq<Object>)
    ensures Run([step], policy, l) == Apply(step, policy, l)
  {
    hide Apply;
    assert [step][..0] == [];
  }

  lemma OneFile(l: seq<Object>, policy: Policy, c: Content)
    ensures Apply(UploadFiles([Stored(c)], 1), policy, l) ==
            if policy.quotaBytes == 0 || TotalSize(l) + c.size <= policy.quotaBytes
            then Put(l, policy.versioning, c) else l
  {
    hide Put, TotalSize;
    var files := [Stored(c)];
    assert Started(UploadFiles(files, 1)) == files;
    assert files[..0] == [];
    assert Incoming(files[..0]) == 0 && PutAll(l, policy.versioning, files[..0]) == l;
  }

  /** With a quota, a deletion can make room for an upload that is otherwise turned down. */
  lemma QuotaBreaksUndo(o: Object, c: Content, policy: Policy)
    requires o.key != c.key && c.size <= policy.quotaBytes < o.size + c.size && policy.quotaBytes > 0
    ensures var steps := [UploadFiles([Stored(c)], 1)];
            var deleted := Run(steps, policy, Apply(BulkDelete({o.key}), policy, [o]));
            && c.key in Table(Apply(RestoreObjects([o]), policy, deleted))
            && c.key !in Table(Run(steps, policy, [o]))
  {
    hide MergeIn, Put, Run, Table, Filter, TotalSize, Started, PutAll, WithinQuota;
    var step := UploadFiles([Stored(c)], 1);
    RunOne(step, policy, []);
    RunOne(step, policy, [o]);
    OneFile([], policy, c);
    OneFile([o], policy, c);
    SizesOfOne(o);
    FilterNone([o], KeyNotIn({o.key}));
    TableMerge(Put([], policy.versioning, c), [o]);
    TablesOfOne(o, c, policy.versioning);
  }

  lemma SizesOfOne(o: Object)
    ensures TotalSize([]) == 0 && TotalSize([o]) == o.size
  {
    assert [o] == [] + [o];
    TotalSnoc([], o);
  }

  lemma TablesOfOne(o: Object, c: Content, versioning: bool)
    requires o.key != c.key
    ensures c.key !in Table([o]) && c.key in Table(Put([], versioning, c))
  {
    TableKeys([o]);
    TableKeys(Put([], versioning, c));
    assert Put([], versioning, c)[0].key == c.key;
  }

  // ----- undoing a renaming

  lemma {:induction false} MapFilter(l: seq<Object>, f: Object -> Object, p: Object -> bool)
    requires forall o: Object :: p(f(o)) == p(o)
    ensures Filter(MapObjects(l, f), p) == MapObjects(Filter(l, p), f)
  {
    hide MapObjects;
    if l == [] {
      assert MapObjects(l, f) == [] && MapObjects([], f) == [];
    } else {
      var front, o := l[..|l| - 1], l[|l| - 1];
      assert l == front + [o];
      MapFilter(front, f, p);
      MapSnoc(front, o, f);
      FilterSnoc(MapObjects(front, f), f(o), p);
      MapSnoc(Filter(front, p), o, f);
    }
  }

  lemma {:induction false} MapFind(l: seq<Object>, a: string, b: string, key: string)
    requires key != a && key != b
    ensures Find(MapObjects(l, Rekey(a, b)), key) == Find(l, key)
  {
    hide MapObjects;
    var r := MapObjects(l, Rekey(a, b));
    if l != [] {
      MapFind(l[1..], a, b, key);
      assert r[1..] == MapObjects(l[1..], Rekey(a, b));
    }
  }

  lemma {:induction false} MapReplace(l: seq<Object>, a: string, b: string, o: Object)
    requires o.key != a && o.key != b
    ensures ReplaceFirst(MapObjects(l, Rekey(a, b)), o) == MapObjects(ReplaceFirst(l, o), Rekey(a, b))
  {
    hide MapObjects;
    var f := Rekey(a, b);
    if l == [] {
      assert MapObjects(l, f) == [] && MapObjects([], f) == [];
    } else {
      var h, t := l[0], l[1..];
      assert l == [h] + t;
      MapReplace(t, a, b, o);
      MapCons(h, t, f);
      ReplaceCons(f(h), MapObjects(t, f), o);
      if h.key == o.key {
        MapCons(o, t, f);
      } else {
        MapCons(h, ReplaceFirst(t, o), f);
      }
    }
  }

  lemma MapHasKey(l: seq<Object>, a: string, b: string, key: string)
    requires key != a && key != b
    ensures HasKey(MapObjects(l, Rekey(a, b)), key) <==> HasKey(l, key)
  {
    MapFind(l, a, b, key);
  }

  lemma MapPut(l: seq<Object>, a: string, b: string, versioning: bool, c: Content)
    requires c.key != a && c.key != b
    ensures Put(MapObjects(l, Rekey(a, b)), versioning, c) == MapObjects(Put(l, versioning, c), Rekey(a, b))
  {
    hide MapObjects, Filter;
    MapFilter(l, Rekey(a, b), KeyIsNot(c.key));
    MapFind(l, a, b, c.key);
    MapSnoc(Filter(l, KeyIsNot(c.key)), NewObject(l, versioning, c), Rekey(a, b));
  }

  lemma {:induction false} MapPutAll(l: seq<Object>, a: string, b: string, versioning: bool, files: seq<FileStep>)
    requires a !in StoredKeys(files) && b !in StoredKeys(files)
    ensures PutAll(MapObjects(l, Rekey(a, b)), versioning, files) ==
            MapObjects(PutAll(l, versioning, files), Rekey(a, b))
    decreases |files|
  {
    hide MapObjects, Put;
    if files != [] {
      var front, f := files[..|files| - 1], files[|files| - 1];
      assert files == front + [f];
      assert forall k :: k in StoredKeys(front) ==> k in StoredKeys(files);
      assert f.Stored? ==> f.content.key in StoredKeys(files);
      MapPutAll(l, a, b, versioning, front);
      if f.Stored? {
        MapPut(PutAll(l, versioning, front), a, b, versioning, f.content);
      }
    }
  }

  /** Setting an object before or after the renaming, with no object under the new key. */
  lemma MapSetKey(l: seq<Object>, a: string, b: string, o: Object)
    requires a != b && o.key != b && !HasKey(l, b)
    ensures SetKey(MapObjects(l, Rekey(a, b)), Rekey(a, b)(o)) == MapObjects(SetKey(l, o), Rekey(a, b))
  {
    hide MapObjects, ReplaceFirst;
    MapSnoc(l, o, Rekey(a, b));
    if o.key == a {
      MapReplaceRenamed(l, a, b, o);
      MapHasRenamed(l, a, b);
    } else {
      MapHasKey(l, a, b, o.key);
      MapReplace(l, a, b, o);
    }
  }

  lemma {:induction false} MapReplaceRenamed(l: seq<Object>, a: string, b: string, o: Object)
    requires a != b && o.key == a && forall i :: 0 <= i < |l| ==> l[i].key != b
    ensures ReplaceFirst(MapObjects(l, Rekey(a, b)), o.(key := b)) == MapObjects(ReplaceFirst(l, o), Rekey(a, b))
  {
    hide MapObjects;
    var f, o' := Rekey(a, b), o.(key := b);
    if l == [] {
      assert MapObjects(l, f) == [] && MapObjects([], f) == [];
    } else {
      var h, t := l[0], l[1..];
      MapReplaceRenamed(t, a, b, o);
      MapCons(h, t, f);
      assert l == [h] + t;
      ReplaceCons(f(h), MapObjects(t, f), o');
      if h.key == a {
        MapCons(o, t, f);
      } else {
        MapCons(h, ReplaceFirst(t, o), f);
      }
    }
  }

  lemma MapCons(h: Object, t: seq<Object>, f: Object -> Object)
    ensures MapObjects([h] + t, f) == [f(h)] + MapObjects(t, f)
  {
    hide MapObjects;
  }

  lemma ReplaceCons(h: Object, t: seq<Object>, o: Object)
    ensures ReplaceFirst([h] + t, o) == if h.key == o.key then [o] + t else [h] + ReplaceFirst(t, o)
  {
    assert ([h] + t)[1..] == t;
  }

  lemma MapHasRenamed(l: seq<Object>, a: string, b: string)
    requires a != b && !HasKey(l, b)
    ensures HasKey(MapObjects(l, Rekey(a, b)), b) <==> HasKey(l, a)
  {
    hide MapObjects;
    var r := MapObjects(l, Rekey(a, b));
    if HasKey(l, a) {
      var i :| 0 <= i < |l| && l[i].key == a;
      assert r[i].key == b;
    }
    if HasKey(r, b) {
      var i :| 0 <= i < |r| && r[i].key == b;
      assert l[i].key == a;
    }
  }

  lemma {:induction false} SetKeysAvoid(l: seq<Object>, objs: seq<Object>, b: string)
    requires !HasKey(l, b) && !HasKey(objs, b)
    ensures !HasKey(SetKeys(l, objs), b)
    decreases |objs|
  {
    hide ReplaceFirst;
    if objs != [] {
      var front, o := objs[..|objs| - 1], objs[|objs| - 1];
      assert forall i :: 0 <= i < |front| ==> front[i] == objs[i];
      SetKeysAvoid(l, front, b);
      ReplaceKeepsKeys(SetKeys(l, front), o);
    }
  }

  lemma {:induction false} MapSetKeys(l: seq<Object>, objs: seq<Object>, a: string, b: string)
    requires a != b && !HasKey(l, b) && !HasKey(objs, b)
    ensures SetKeys(MapObjects(l, Rekey(a, b)), MapObjects(objs, Rekey(a, b))) ==
            MapObjects(SetKeys(l, objs), Rekey(a, b))
    decreases |objs|
  {
    hide MapObjects, SetKey;
    var f := Rekey(a, b);
    if objs == [] {
      assert MapObjects(objs, f) == [];
    } else {
      var front, o := objs[..|objs| - 1], objs[|objs| - 1];
      assert objs == front + [o];
      assert forall i :: 0 <= i < |front| ==> front[i] == objs[i];
      assert o.key != b;
      MapSetKeys(l, front, a, b);
      SetKeysAvoid(l, front, b);
      MapSnoc(front, o, f);
      SetKeysSnoc(MapObjects(l, f), MapObjects(front, f), f(o));
      MapSetKey(SetKeys(l, front), a, b, o);
    }
  }

  lemma MapMerge(l: seq<Object>, objs: seq<Object>, a: string, b: string)
    requires a != b && !HasKey(l, b) && a !in KeysOf(objs) && b !in KeysOf(objs)
    ensures MergeIn(MapObjects(l, Rekey(a, b)), objs) == MapObjects(MergeIn(l, objs), Rekey(a, b))
  {
    hide MapObjects, SetKeys;
    var f := Rekey(a, b);
    forall i | 0 <= i < |objs|
      ensures objs[i].key != a && objs[i].key != b
    {
      assert objs[i].key in KeysOf(objs);
    }
    MapElsewhere(objs, f);
    MapElsewhere([], f);
    MapSetKeys([], l, a, b);
    SetKeysAvoid([], l, b);
    MapSetKeys(SetKeys([], l), objs, a, b);
  }

  lemma MapMap(l: seq<Object>, f: Object -> Object, g: Object -> Object)
    requires forall o: Object :: f(g(o)) == g(f(o))
    ensures MapObjects(MapObjects(l, f), g) == MapObjects(MapObjects(l, g), f)
  {
    hide MapObjects;
  }

  /** A step on other keys does the same before and after a renaming to a free key. */
  lemma RenamingCommutes(step: Step, policy: Policy, l: seq<Object>, a: string, b: string)
    requires a != b && !HasKey(l, b) && a !in Touches(step) && b !in Touches(step)
    ensures Apply(step, policy, MapObjects(l, Rekey(a, b))) == MapObjects(Apply(step, policy, l), Rekey(a, b))
  {
    hide MapObjects, Put, PutAll, MergeIn, Filter, ReplaceFirst, TotalSize, Find;
    var f := Rekey(a, b);
    match step
    case UploadFiles(_, _) =>
      MapKeepsSize(l, f);
      MapPutAll(l, a, b, policy.versioning, Started(step));
    case RetryUpload(c) => MapPut(l, a, b, policy.versioning, c);
    case CreateFolder(key, at) =>
      MapHasKey(l, a, b, key);
      MapSnoc(l, Marker(key, at), f);
    case DeleteObject(key) => MapFilter(l, f, KeyIsNot(key));
    case BulkDelete(keys) => MapFilter(l, f, KeyNotIn(keys));
    case TogglePin(key, flag) => MapMap(l, f, Repin(key, flag));
    case RestoreVersion(key, cid, at) =>
      MapFind(l, a, b, key);
      if Find(l, key).Some? {
        RestoredKey(Find(l, key).value, cid, at);
        MapReplace(l, a, b, Restored(Find(l, key).value, cid, at));
      }
    case RenameObject(from, to) =>
      MapHasKey(l, a, b, to);
      MapMap(l, f, Rekey(from, to));
    case ImportManifest(objs) => MapMerge(l, objs, a, b);
    case RestoreObjects(objs) => MapMerge(l, objs, a, b);
    case RenameBack(from, to) => MapMap(l, f, Rekey(from, to));
  }

  lemma FreeKeyStaysFree(step: Step, policy: Policy, l: seq<Object>, b: string)
    requires !HasKey(l, b) && b !in Touches(step)
    ensures !HasKey(Apply(step, policy, l), b)
  {
    hide Apply, Find;
    var l' := Apply(step, policy, l);
    FindInPart(l, b, {b}, true);
    FindInPart(l', b, {b}, true);
    OnlyFree(l, b);
    StepOutside(step, policy, l, {b}, true);
  }

  lemma OnlyFree(l: seq<Object>, b: string)
    requires !HasKey(l, b)
    ensures Part(l, {b}, true) == []
  {
    FilterNone(l, InClass({b}, true));
  }

  lemma RenameThereAndBack(l: seq<Object>, a: string, b: string)
    requires !HasKey(l, b)
    ensures MapObjects(MapObjects(l, Rekey(a, b)), Rekey(b, a)) == l
  {
    hide MapObjects;
    forall i | 0 <= i < |l|
      ensures Rekey(b, a)(Rekey(a, b)(l[i])) == l[i]
    {
      assert l[i].key != b;
    }
  }

  lemma {:induction false} RenamingCommutesWithRuns(steps: seq<Step>, policy: Policy, l: seq<Object>,
                                                    a: string, b: string)
    requires a != b && !HasKey(l, b) && NeverTouches(steps, {a, b})
    ensures !HasKey(Run(steps, policy, l), b)
    ensures Run(steps, policy, MapObjects(l, Rekey(a, b))) == MapObjects(Run(steps, policy, l), Rekey(a, b))
    decreases |steps|
  {
    hide MapObjects, Apply, HasKey;
    if steps != [] {
      var front, step := steps[..|steps| - 1], steps[|steps| - 1];
      RenamingCommutesWithRuns(front, policy, l, a, b);
      assert Touches(step) !! {a, b};
      RenamingCommutes(step, policy, Run(front, policy, l), a, b);
      FreeKeyStaysFree(step, policy, Run(front, policy, l), b);
    }
  }

  /**
   Renaming an object, doing any work on keys other than its two, and undoing the renaming gives
   the very list that the work gives without it. With no work in between, the list is unchanged.
   */
  lemma UndoRenaming(l: seq<Object>, a: string, b: string, steps: seq<Step>, policy: Policy)
    requires !HasKey(l, b) && NeverTouches(steps, {a, b})
    ensures var renamed := Run(steps, policy, Apply(RenameObject(a, b), policy, l));
            Apply(RenameBack(b, a), policy, renamed) == Run(steps, policy, l)
  {
    hide MapObjects, Run;
    if a == b {
      MapElsewhereSame(l, a);
      MapElsewhereSame(Run(steps, policy, l), a);
    } else {
      RenamingCommutesWithRuns(steps, policy, l, a, b);
      RenameThereAndBack(Run(steps, policy, l), a, b);
    }
  }

  lemma MapElsewhereSame(l: seq<Object>, a: string)
    ensures MapObjects(l, Rekey(a, a)) == l
  {
    MapElsewhere(l, Rekey(a, a));
  }
}

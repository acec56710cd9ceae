/**
 What the console's operations on lists of objects mean, position by position and field by field:
 which objects stay and in which order, what a stored, restored or merged object holds.
 */
module StoreContents {
  import opened Prelude
  import opened Text
  import opened Manifest
  import opened Store

  // ----- finding and filtering

  /** The first object with the key stands at this position. */
  predicate FirstAt(l: seq<Object>, key: string, i: nat) {
    i < |l| && l[i].key == key && forall k :: 0 <= k < i ==> l[k].key != key
  }

  lemma {:induction false} FindIsFirst(l: seq<Object>, key: string) returns (i: nat)
    ensures Find(l, key).Some? ==> FirstAt(l, key, i) && l[i] == Find(l, key).value
  {
    i := 0;
    if l != [] && l[0].key != key {
      var j := FindIsFirst(l[1..], key);
      i := j + 1;
    }
  }

  lemma FirstIsFound(l: seq<Object>, key: string, i: nat)
    requires FirstAt(l, key, i)
    ensures Find(l, key) == Some(l[i])
  {
    var j := FindIsFirst(l, key);
  }

  /** The positions picked are exactly those of the objects that satisfy the condition. */
  predicate Exactly(l: seq<Object>, at: seq<nat>, keep: Object -> bool) {
    forall i: nat :: i < |l| ==> (i in at <==> keep(l[i]))
  }

  lemma {:induction false} FilterPicks(l: seq<Object>, keep: Object -> bool) returns (at: seq<nat>)
    ensures Picked(l, Filter(l, keep), at) && Exactly(l, at, keep)
  {
    if l == [] {
      at := [];
    } else {
      var front, o := l[..|l| - 1], l[|l| - 1];
      assert l == front + [o];
      at := FilterPicks(front, keep);
      PickedSnoc(front, Filter(front, keep), at, o);
      if keep(o) {
        at := at + [|front|];
      }
    }
  }

  /** The objects of `l` whose keys are not among some, in order. */
  ghost predicate Without(l: seq<Object>, r: seq<Object>, keys: set<string>) {
    exists at :: Picked(l, r, at) && forall i: nat :: i < |l| ==> (i in at <==> l[i].key !in keys)
  }

  /** The objects of `l` whose keys are among some, in order. */
  ghost predicate Those(l: seq<Object>, r: seq<Object>, keys: set<string>) {
    exists at :: Picked(l, r, at) && forall i: nat :: i < |l| ==> (i in at <==> l[i].key in keys)
  }

  lemma DeletionLeaves(l: seq<Object>, keys: set<string>)
    ensures Without(l, Filter(l, KeyNotIn(keys)), keys) && Those(l, Filter(l, KeyIn(keys)), keys)
  {
    var at := FilterPicks(l, KeyNotIn(keys));
    var bt := FilterPicks(l, KeyIn(keys));
  }

  lemma DeletionOfOneLeaves(l: seq<Object>, key: string)
    ensures Without(l, Filter(l, KeyIsNot(key)), {key})
  {
    var at := FilterPicks(l, KeyIsNot(key));
  }

  // ----- uploads

  /** An upload of this content to a bucket: its fields, and in front of its versions what it replaces. */
  predicate UploadOf(l: seq<Object>, o: Object, versioning: bool, c: Content) {
    && o.key == c.key && o.cid == c.cid && o.size == c.size && o.contentType == c.contentType
    && o.lastModified == c.now && o.pinned == c.pinned
    && (!versioning || !HasKey(l, c.key) ==> o.versions == None)
    && (forall i :: 0 <= i < |l| && FirstAt(l, c.key, i) && versioning ==>
          var current := Version(l[i].cid, l[i].size, l[i].contentType, l[i].lastModified);
          o.versions == Some([current] + if l[i].versions.Some? then l[i].versions.value else []))
  }

  /** The other objects in order, then the new one. */
  ghost predicate Uploaded(l: seq<Object>, r: seq<Object>, versioning: bool, c: Content) {
    r != [] && Without(l, r[..|r| - 1], {c.key}) && UploadOf(l, r[|r| - 1], versioning, c)
  }

  lemma NewObjectIs(l: seq<Object>, versioning: bool, c: Content)
    ensures UploadOf(l, NewObject(l, versioning, c), versioning, c)
  {
    var o := NewObject(l, versioning, c);
    forall i | 0 <= i < |l| && FirstAt(l, c.key, i) && versioning
      ensures var current := Version(l[i].cid, l[i].size, l[i].contentType, l[i].lastModified);
              o.versions == Some([current] + if l[i].versions.Some? then l[i].versions.value else [])
    {
      FirstIsFound(l, c.key, i);
    }
  }

  lemma PutUploads(l: seq<Object>, versioning: bool, c: Content)
    ensures Uploaded(l, Put(l, versioning, c), versioning, c)
  {
    hide Filter, NewObject, UploadOf;
    var r := Put(l, versioning, c);
    assert r[..|r| - 1] == Filter(l, KeyIsNot(c.key));
    DeletionOfOneLeaves(l, c.key);
    NewObjectIs(l, versioning, c);
  }

  /** A batch: each stored file is uploaded in turn, failed ones change nothing. */
  ghost predicate BatchStates(l: seq<Object>, r: seq<Object>, versioning: bool, files: seq<FileStep>,
                              states: seq<seq<Object>>) {
    && |states| == |files| + 1 && states[0] == l && states[|files|] == r
    && forall i :: 0 <= i < |files| ==>
         if files[i].Stored? then Uploaded(states[i], states[i + 1], versioning, files[i].content)
         else states[i + 1] == states[i]
  }

  lemma {:induction false} PutAllIsBatch(l: seq<Object>, versioning: bool, files: seq<FileStep>)
    returns (states: seq<seq<Object>>)
    ensures BatchStates(l, PutAll(l, versioning, files), versioning, files, states)
    decreases |files|
  {
    hide Put, Uploaded;
    if files == [] {
      states := [l];
    } else {
      var front, f := files[..|files| - 1], files[|files| - 1];
      states := PutAllIsBatch(l, versioning, front);
      var l' := PutAll(l, versioning, front);
      if f.Stored? {
        PutUploads(l', versioning, f.content);
      }
      states := states + [PutAll(l, versioning, files)];
    }
  }

  /** Sizes add up: used space over objects, incoming space over all files, failed ones included. */
  lemma {:induction false} SizesAdd(a: seq<Object>, b: seq<Object>, o: Object)
    ensures TotalSize(a + b) == TotalSize(a) + TotalSize(b)
    ensures TotalSize([]) == 0 && TotalSize([o]) == o.size
    decreases |b|
  {
    assert [o][..0] == [];
    if b == [] {
      assert a + b == a;
    } else {
      SizesAdd(a, b[..|b| - 1], o);
      assert (a + b)[..|a + b| - 1] == a + b[..|b| - 1];
    }
  }

  lemma {:induction false} IncomingAdds(a: seq<FileStep>, b: seq<FileStep>, c: Content, n: nat)
    ensures Incoming(a + b) == Incoming(a) + Incoming(b)
    ensures Incoming([]) == 0 && Incoming([Stored(c)]) == c.size && Incoming([Failed(n)]) == n
    decreases |b|
  {
    assert [Stored(c)][..0] == [] && [Failed(n)][..0] == [];
    if b == [] {
      assert a + b == a;
    } else {
      IncomingAdds(a, b[..|b| - 1], c, n);
      assert (a + b)[..|a + b| - 1] == a + b[..|b| - 1];
    }
  }

  // ----- restored versions

  predicate FirstVersionAt(vs: seq<Version>, cid: string, j: nat) {
    j < |vs| && vs[j].cid == cid && forall k :: 0 <= k < j ==> vs[k].cid != cid
  }

  predicate HasVersion(o: Object, cid: string) {
    o.versions.Some? && exists j :: 0 <= j < |o.versions.value| && o.versions.value[j].cid == cid
  }

  /** The versions with another CID, in order. */
  ghost predicate OthersOf(vs: seq<Version>, r: seq<Version>, cid: string) {
    exists at :: Picked(vs, r, at) && forall i: nat :: i < |vs| ==> (i in at <==> vs[i].cid != cid)
  }

  /** The version is current now, and what was current is in front of the other versions. */
  ghost predicate Promoted(o: Object, o': Object, cid: string, now: nat) {
    && o.versions.Some? && o'.key == o.key && o'.pinned == o.pinned && o'.cid == cid && o'.lastModified == now
    && (exists j: nat :: FirstVersionAt(o.versions.value, cid, j)
                         && o'.size == o.versions.value[j].size && o'.contentType == o.versions.value[j].contentType)
    && o'.versions.Some? && o'.versions.value != []
    && o'.versions.value[0] == Version(o.cid, o.size, o.contentType, o.lastModified)
    && OthersOf(o.versions.value, o'.versions.value[1..], cid)
  }

  lemma {:induction false} FirstVersion(vs: seq<Version>, cid: string) returns (j: nat)
    requires FindVersion(vs, cid).Some?
    ensures FirstVersionAt(vs, cid, j) && FindVersion(vs, cid) == Some(vs[j])
  {
    if vs[0].cid == cid {
      j := 0;
    } else {
      var k := FirstVersion(vs[1..], cid);
      j := k + 1;
    }
  }

  lemma {:induction false} OtherVersionsPicks(vs: seq<Version>, cid: string) returns (at: seq<nat>)
    ensures Picked(vs, OtherVersions(vs, cid), at) && forall i: nat :: i < |vs| ==> (i in at <==> vs[i].cid != cid)
  {
    if vs == [] {
      at := [];
    } else {
      var h, t := vs[0], vs[1..];
      assert vs == [h] + t;
      var bt := OtherVersionsPicks(t, cid);
      at := PickedCons(h, t, OtherVersions(t, cid), bt, h.cid != cid);
      assert [] + OtherVersions(t, cid) == OtherVersions(t, cid);
    }
  }

  lemma RestoredPromotes(o: Object, cid: string, now: nat)
    requires HasVersion(o, cid)
    ensures Promoted(o, Restored(o, cid, now), cid, now)
  {
    hide OtherVersions, Picked;
    var vs := o.versions.value;
    var j := FirstVersion(vs, cid);
    var at := OtherVersionsPicks(vs, cid);
    var r := Restored(o, cid, now);
    assert r.versions.value[1..] == OtherVersions(vs, cid);
  }

  lemma NoVersionNoChange(o: Object, cid: string, now: nat)
    requires !HasVersion(o, cid)
    ensures Restored(o, cid, now) == o && FindVersion(History(o), cid).None?
  {
  }

  lemma {:induction false} ReplacedOnce(l: seq<Object>, o: Object, i: nat)
    requires FirstAt(l, o.key, i)
    ensures ReplaceFirst(l, o) == l[i := o]
  {
    if i > 0 {
      ReplacedOnce(l[1..], o, i - 1);
      assert l == [l[0]] + l[1..];
    }
  }

  /** One position of the list changes, and there the version is promoted. */
  ghost predicate VersionRestored(l: seq<Object>, r: seq<Object>, i: nat, cid: string, now: nat)
    requires i < |l|
  {
    |r| == |l| && (forall k :: 0 <= k < |l| && k != i ==> r[k] == l[k]) && Promoted(l[i], r[i], cid, now)
  }

  lemma RestoreInPromotes(l: seq<Object>, key: string, cid: string, now: nat, i: nat)
    requires FirstAt(l, key, i) && HasVersion(l[i], cid)
    ensures VersionRestored(l, RestoreIn(l, key, cid, now), i, cid, now)
  {
    hide Restored, Promoted, HasVersion, Find;
    FirstIsFound(l, key, i);
    RestoredPromotes(l[i], cid, now);
    KeyKept(l[i], cid, now);
    ReplacedOnce(l, Restored(l[i], cid, now), i);
  }

  lemma KeyKept(o: Object, cid: string, now: nat)
    ensures Restored(o, cid, now).key == o.key
  {
  }

  // ----- merging

  /**
   The insertion-ordered table of a sequence of objects: keys in the order of their first
   appearance, each with its last object.
   */
  ghost predicate TableOf(s: seq<Object>, r: seq<Object>, first: seq<nat>, last: seq<nat>) {
    && |first| == |r| && |last| == |r|
    && (forall k :: 0 <= k < |r| ==>
          FirstAt(s, r[k].key, first[k]) && LastAt(s, r[k].key, last[k]) && s[last[k]] == r[k])
    && (forall k, m :: 0 <= k < m < |r| ==> first[k] < first[m])
    && (forall i :: 0 <= i < |s| ==> HasKey(r, s[i].key))
  }

  predicate LastAt(s: seq<Object>, key: string, i: nat) {
    i < |s| && s[i].key == key && forall k :: i < k < |s| ==> s[k].key != key
  }

  lemma TableDistinct(s: seq<Object>, r: seq<Object>, first: seq<nat>, last: seq<nat>)
    requires TableOf(s, r, first, last)
    ensures DistinctKeys(r)
  {
    forall k, m | 0 <= k < m < |r|
      ensures r[k].key != r[m].key
    {
      assert first[k] < first[m];
    }
  }

  lemma FirstAtSnoc(s: seq<Object>, o: Object, key: string, i: nat)
    requires FirstAt(s, key, i)
    ensures FirstAt(s + [o], key, i)
  {
  }

  lemma LastAtSnoc(s: seq<Object>, o: Object, key: string, i: nat)
    ensures LastAt(s, key, i) && o.key != key ==> LastAt(s + [o], key, i)
    ensures LastAt(s + [o], o.key, |s|)
  {
  }

  lemma TableNew(s: seq<Object>, r: seq<Object>, first: seq<nat>, last: seq<nat>, o: Object)
    requires TableOf(s, r, first, last) && !HasKey(r, o.key)
    ensures TableOf(s + [o], r + [o], first + [|s|], last + [|s|])
  {
    var s', r' := s + [o], r + [o];
    NewFirst(s, r, o);
    forall k | 0 <= k < |r|
      ensures first[k] < |s|
    {
      assert FirstAt(s, r[k].key, first[k]);
    }
    hide FirstAt;
    forall k | 0 <= k < |r|
      ensures FirstAt(s', r[k].key, first[k]) && LastAt(s', r[k].key, last[k]) && s'[last[k]] == r[k]
    {
      FirstAtSnoc(s, o, r[k].key, first[k]);
      LastAtSnoc(s, o, r[k].key, last[k]);
    }
    LastAtSnoc(s, o, o.key, 0);
    forall i | 0 <= i < |s'|
      ensures HasKey(r', s'[i].key)
    {
      if i < |s| {
        assert HasKey(r, s[i].key);
        var k :| 0 <= k < |r| && r[k].key == s[i].key;
        assert r'[k].key == s'[i].key;
      } else {
        assert r'[|r|].key == o.key;
      }
    }
  }

  lemma NewFirst(s: seq<Object>, r: seq<Object>, o: Object)
    requires (forall i :: 0 <= i < |s| ==> HasKey(r, s[i].key)) && !HasKey(r, o.key)
    ensures FirstAt(s + [o], o.key, |s|)
  {
    assert forall i :: 0 <= i < |s| ==> (s + [o])[i] == s[i];
  }

  lemma TableAgain(s: seq<Object>, r: seq<Object>, first: seq<nat>, last: seq<nat>, o: Object, k: nat)
    requires TableOf(s, r, first, last) && FirstAt(r, o.key, k)
    ensures TableOf(s + [o], r[k := o], first, last[k := |s|])
  {
    TableDistinct(s, r, first, last);
    var s', r', last' := s + [o], r[k := o], last[k := |s|];
    forall m | 0 <= m < |r|
      ensures FirstAt(s', r'[m].key, first[m]) && LastAt(s', r'[m].key, last'[m]) && s'[last'[m]] == r'[m]
    {
      FirstAtSnoc(s, o, r[m].key, first[m]);
      LastAtSnoc(s, o, r[m].key, last[m]);
    }
    forall i | 0 <= i < |s'|
      ensures HasKey(r', s'[i].key)
    {
      if i < |s| {
        var m :| 0 <= m < |r| && r[m].key == s[i].key;
        assert r'[m].key == s'[i].key;
      } else {
        assert r'[k].key == o.key;
      }
    }
  }

  lemma {:induction false} SetKeysIsTable(s: seq<Object>) returns (first: seq<nat>, last: seq<nat>)
    ensures TableOf(s, SetKeys([], s), first, last) && |last| == |SetKeys([], s)|
  {
    hide TableOf, Find, ReplaceFirst;
    if s == [] {
      first, last := [], [];
      EmptyTable();
    } else {
      var front, o := s[..|s| - 1], s[|s| - 1];
      assert s == front + [o];
      first, last := SetKeysIsTable(front);
      var r := SetKeys([], front);
      if HasKey(r, o.key) {
        var k := FindIsFirst(r, o.key);
        ReplacedOnce(r, o, k);
        TableAgain(front, r, first, last, o, k);
        last := last[k := |front|];
      } else {
        TableNew(front, r, first, last, o);
        first, last := first + [|front|], last + [|front|];
      }
    }
  }

  lemma EmptyTable()
    ensures TableOf([], [], [], [])
  {
  }

  lemma {:induction false} SetKeysConcat(l: seq<Object>, a: seq<Object>, b: seq<Object>)
    ensures SetKeys(l, a + b) == SetKeys(SetKeys(l, a), b)
    decreases |b|
  {
    hide SetKey;
    if b == [] {
      assert a + b == a;
    } else {
      SetKeysConcat(l, a, b[..|b| - 1]);
      assert (a + b)[..|a + b| - 1] == a + b[..|b| - 1];
    }
  }

  /** A merge is the table of the list followed by the incoming objects. */
  lemma MergeIsTable(l: seq<Object>, objs: seq<Object>) returns (first: seq<nat>, last: seq<nat>)
    ensures TableOf(l + objs, MergeIn(l, objs), first, last)
  {
    hide TableOf, SetKeys;
    SetKeysConcat([], l, objs);
    first, last := SetKeysIsTable(l + objs);
  }

  /** What is found under a key after a merge: the last incoming object with it, or what was there before. */
  lemma MergeFinds(l: seq<Object>, objs: seq<Object>, key: string)
    ensures forall i :: 0 <= i < |objs| && LastAt(objs, key, i) ==> Find(MergeIn(l, objs), key) == Some(objs[i])
    ensures DistinctKeys(l) && !HasKey(objs, key) ==> Find(MergeIn(l, objs), key) == Find(l, key)
  {
    hide Find, MergeIn;
    var s, r := l + objs, MergeIn(l, objs);
    var first, last := MergeIsTable(l, objs);
    forall i: nat | i < |objs| && LastAt(objs, key, i)
      ensures Find(r, key) == Some(objs[i])
    {
      assert LastAt(s, key, |l| + i);
      FoundInTable(s, r, first, last, key, |l| + i);
    }
    if DistinctKeys(l) && !HasKey(objs, key) {
      if HasKey(l, key) {
        var i := FindIsFirst(l, key);
        assert LastAt(s, key, i);
        FoundInTable(s, r, first, last, key, i);
      } else {
        NotInTable(s, r, first, last, key);
      }
    }
  }

  lemma FoundInTable(s: seq<Object>, r: seq<Object>, first: seq<nat>, last: seq<nat>, key: string, i: nat)
    requires TableOf(s, r, first, last) && LastAt(s, key, i)
    ensures Find(r, key) == Some(s[i])
  {
    hide Find;
    assert HasKey(r, s[i].key);
    var k := FindIsFirst(r, key);
    assert last[k] == i;
  }

  lemma NotInTable(s: seq<Object>, r: seq<Object>, first: seq<nat>, last: seq<nat>, key: string)
    requires TableOf(s, r, first, last) && forall i :: 0 <= i < |s| ==> s[i].key != key
    ensures Find(r, key) == None
  {
    hide Find;
    forall k | 0 <= k < |r|
      ensures r[k].key != key
    {
      KeyFromTable(s, r, first, last, k);
    }
  }

  lemma KeyFromTable(s: seq<Object>, r: seq<Object>, first: seq<nat>, last: seq<nat>, k: nat)
    requires TableOf(s, r, first, last) && k < |r|
    ensures HasKey(s, r[k].key)
  {
    assert s[last[k]].key == r[k].key;
  }

  // ----- imported manifests

  function Somes(r: seq<Object>): (list: seq<Option<Object>>)
    ensures |list| == |r| && forall k :: 0 <= k < |r| ==> list[k] == Some(r[k])
  {
    seq(|r|, k requires 0 <= k < |r| => Some(r[k]))
  }

  /** The entries that are objects, in order. */
  ghost predicate Objects(list: seq<Option<Object>>, r: seq<Object>, at: seq<nat>) {
    Picked(list, Somes(r), at) && forall i: nat :: i < |list| ==> (i in at <==> list[i].Some?)
  }

  lemma {:induction false} ValidPicks(list: seq<Option<Object>>) returns (at: seq<nat>)
    ensures Objects(list, ValidOf(list), at)
  {
    hide Somes, Picked;
    if list == [] {
      at := [];
      NothingPicked(Somes([]));
    } else {
      var h, t := list[0], list[1..];
      assert list == [h] + t;
      var bt := ValidPicks(t);
      at := PickedCons(h, t, Somes(ValidOf(t)), bt, h.Some?);
      assert Somes(ValidOf(list)) == (if h.Some? then [h] else []) + Somes(ValidOf(t));
    }
  }

  lemma NothingPicked(r: seq<Option<Object>>)
    requires r == []
    ensures Picked([], r, [])
  {
  }

  /** The last object with a key in a parsed manifest. */
  predicate LastEntryAt(list: seq<Option<Object>>, key: string, i: nat) {
    && i < |list| && list[i].Some? && list[i].value.key == key
    && forall k :: i < k < |list| && list[k].Some? ==> list[k].value.key != key
  }

  predicate NoEntry(list: seq<Option<Object>>, key: string) {
    forall k :: 0 <= k < |list| && list[k].Some? ==> list[k].value.key != key
  }

  /** What is found under a key after an import. */
  lemma ImportFinds(l: seq<Object>, list: seq<Option<Object>>, key: string)
    ensures forall i :: 0 <= i < |list| && LastEntryAt(list, key, i) ==>
              Find(MergeIn(l, ValidOf(list)), key) == Some(list[i].value)
    ensures DistinctKeys(l) && NoEntry(list, key) ==> Find(MergeIn(l, ValidOf(list)), key) == Find(l, key)
  {
    hide Find, MergeIn, ValidOf;
    var objs := ValidOf(list);
    var at := ValidPicks(list);
    MergeFinds(l, objs, key);
    forall i: nat | i < |list| && LastEntryAt(list, key, i)
      ensures Find(MergeIn(l, objs), key) == Some(list[i].value)
    {
      var k := EntryPicked(list, objs, at, key, i);
    }
    if NoEntry(list, key) {
      assert forall k :: 0 <= k < |objs| ==> list[at[k]] == Somes(objs)[k];
    }
  }

  lemma EntryPicked(list: seq<Option<Object>>, objs: seq<Object>, at: seq<nat>, key: string, i: nat) returns (k: nat)
    requires Objects(list, objs, at) && LastEntryAt(list, key, i)
    ensures LastAt(objs, key, k) && objs[k] == list[i].value
  {
    assert i in at;
    k :| k < |at| && at[k] == i;
    assert list[i] == Somes(objs)[k];
    forall m | k < m < |objs|
      ensures objs[m].key != key
    {
      assert at[m] > i && list[at[m]] == Somes(objs)[m];
    }
  }

  // ----- names

  lemma {:induction false} NoSlashesPicks(s: string) returns (at: seq<nat>)
    ensures Picked(s, NoSlashes(s), at) && forall i: nat :: i < |s| ==> (i in at <==> s[i] != '/')
  {
    if s == [] {
      at := [];
    } else {
      var h, t := s[0], s[1..];
      assert s == [h] + t;
      var bt := NoSlashesPicks(t);
      at := PickedCons(h, t, NoSlashes(t), bt, h != '/');
      assert [] + NoSlashes(t) == NoSlashes(t);
    }
  }

  /**
   The new key of a renamed object: what stands up to the last slash of the old one, then the
   trimmed name with exactly its slashes left out; none if nothing is left.
   */
  lemma RenamedKeyIs(oldKey: string, newName: string) returns (at: seq<nat>)
    ensures var name := NoSlashes(Trim(newName));
            && Picked(Trim(newName), name, at)
            && (forall i: nat :: i < |Trim(newName)| ==> (i in at <==> Trim(newName)[i] != '/'))
            && RenamedKey(oldKey, newName) ==
               if name == [] then None else Some(oldKey[..LastSlash(oldKey) + 1] + name)
    ensures RenamedKey(oldKey, newName).None? <==> forall i :: 0 <= i < |Trim(newName)| ==> Trim(newName)[i] == '/'
  {
    hide NoSlashes, Trim;
    at := NoSlashesPicks(Trim(newName));
    var t := Trim(newName);
    if NoSlashes(t) == [] {
      assert forall i: nat :: i < |t| ==> i !in at;
    } else {
      assert at[0] in at;
    }
  }

  predicate Slashes(s: string) { forall i :: 0 <= i < |s| ==> s[i] == '/' }

  lemma {:induction false} StripLeftIs(s: string) returns (a: string)
    ensures s == a + StripLeft(s) && Slashes(a) && (StripLeft(s) != [] ==> StripLeft(s)[0] != '/')
  {
    if s != [] && s[0] == '/' {
      var b := StripLeftIs(s[1..]);
      a := ['/'] + b;
      assert s == ['/'] + s[1..];
    } else {
      a := [];
    }
  }

  lemma {:induction false} StripRightIs(s: string) returns (b: string)
    ensures s == StripRight(s) + b && Slashes(b)
    ensures StripRight(s) != [] ==> StripRight(s)[|StripRight(s)| - 1] != '/' && StripRight(s)[0] == s[0]
  {
    if s != [] && s[|s| - 1] == '/' {
      var c := StripRightIs(s[..|s| - 1]);
      b := c + ['/'];
      assert s == s[..|s| - 1] + ['/'];
    } else {
      b := [];
    }
  }

  /** A folder's name is the trimmed text without the slashes at its two ends. */
  lemma FolderNameIs(prefix: string, name: string) returns (a: string, clean: string, b: string)
    ensures Trim(name) == a + clean + b && Slashes(a) && Slashes(b)
    ensures clean != [] ==> clean[0] != '/' && clean[|clean| - 1] != '/'
    ensures MarkerKey(prefix, name) == if clean == [] then None else Some(prefix + clean + "/.keep")
  {
    hide StripLeft, StripRight, Trim;
    a := StripLeftIs(Trim(name));
    b := StripRightIs(StripLeft(Trim(name)));
    clean := StripRight(StripLeft(Trim(name)));
  }

  /** An empty folder is an object without content. */
  predicate IsMarker(o: Object, key: string, now: nat) {
    o == Object(key, [], 0, "application/x-directory", now, false, None)
  }
}

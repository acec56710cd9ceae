/**
 The console's bucket store: what each handler does to the list of objects, as functions of
 the list.
 */
module Store {
  import opened Prelude
  import opened Text
  import opened Manifest

  datatype Policy = Policy(versioning: bool, quotaBytes: nat)

  // ----- keys

  function LastSlash(s: string): (r: int)
    ensures -1 <= r < |s|
  {
    if s == [] then -1 else if s[|s| - 1] == '/' then |s| - 1 else LastSlash(s[..|s| - 1])
  }

  function NoSlashes(s: string): string {
    if s == [] then [] else (if s[0] == '/' then [] else [s[0]]) + NoSlashes(s[1..])
  }

  function StripLeft(s: string): string { if s != [] && s[0] == '/' then StripLeft(s[1..]) else s }

  function StripRight(s: string): string { if s != [] && s[|s| - 1] == '/' then StripRight(s[..|s| - 1]) else s }

  /** Key of a renamed object: same folder, new name without slashes. */
  function RenamedKey(oldKey: string, newName: string): Option<string> {
    var name := NoSlashes(Trim(newName));
    if name == [] then None
    else Some(oldKey[..LastSlash(oldKey) + 1] + name)
  }

  lemma {:induction false} LastSlashInside(s: string)
    ensures LastSlash(s) != -1 ==> s[LastSlash(s)] == '/'
    ensures '/' !in s[LastSlash(s) + 1..]
  {
    if s != [] && s[|s| - 1] != '/' {
      var s' := s[..|s| - 1];
      LastSlashInside(s');
      assert s[LastSlash(s) + 1..] == s'[LastSlash(s) + 1..] + [s[|s| - 1]];
    }
  }

  lemma {:induction false} NoSlashesHasNone(s: string)
    ensures '/' !in NoSlashes(s)
  {
    if s != [] {
      NoSlashesHasNone(s[1..]);
    }
  }

  lemma {:induction false} LastSlashOfConcat(folder: string, name: string)
    requires '/' !in name && (folder == [] || folder[|folder| - 1] == '/')
    ensures LastSlash(folder + name) == |folder| - 1
    decreases |name|
  {
    var key := folder + name;
    if name == [] {
      assert key == folder;
    } else {
      LastSlashOfConcat(folder, name[..|name| - 1]);
      assert key[..|key| - 1] == folder + name[..|name| - 1];
    }
  }

  /** A renamed object stays in its folder. */
  lemma RenamedStaysInFolder(oldKey: string, newName: string)
    requires RenamedKey(oldKey, newName).Some?
    ensures var newKey := RenamedKey(oldKey, newName).value;
            && LastSlash(newKey) == LastSlash(oldKey)
            && newKey[..LastSlash(newKey) + 1] == oldKey[..LastSlash(oldKey) + 1]
            && newKey[LastSlash(newKey) + 1..] == NoSlashes(Text.Trim(newName)) != []
  {
    LastSlashInside(oldKey);
    var folder, name := oldKey[..LastSlash(oldKey) + 1], NoSlashes(Text.Trim(newName));
    NoSlashesHasNone(Text.Trim(newName));
    LastSlashOfConcat(folder, name);
    assert (folder + name)[..|folder|] == folder && (folder + name)[|folder|..] == name;
  }

  /** Key of the marker that makes an empty folder. */
  function MarkerKey(prefix: string, name: string): Option<string> {
    var clean := StripRight(StripLeft(Trim(name)));
    if clean == [] then None else Some(prefix + clean + "/.keep")
  }

  // ----- uploads

  datatype Content = Content(key: string, cid: string, size: nat, contentType: string, now: nat, pinned: bool)

  /** A file of a batch: stored under its key, or failed on the way. */
  datatype FileStep = Stored(content: Content) | Failed(size: nat)

  function SizeOf(f: FileStep): nat { if f.Stored? then f.content.size else f.size }

  function Incoming(files: seq<FileStep>): nat {
    if files == [] then 0 else Incoming(files[..|files| - 1]) + SizeOf(files[|files| - 1])
  }

  function KeyIsNot(key: string): Object -> bool { (o: Object) => o.key != key }

  function Snapshot(o: Object): Version { Version(o.cid, o.size, o.contentType, o.lastModified) }

  function History(o: Object): seq<Version> { if o.versions.Some? then o.versions.value else [] }

  /** With versioning on, the object that is replaced goes to the front of the history. */
  function NewObject(l: seq<Object>, versioning: bool, c: Content): Object {
    var prev := Find(l, c.key);
    Object(c.key, c.cid, c.size, c.contentType, c.now, c.pinned,
           if versioning && prev.Some? then Some([Snapshot(prev.value)] + History(prev.value)) else None)
  }

  function Put(l: seq<Object>, versioning: bool, c: Content): seq<Object> {
    Filter(l, KeyIsNot(c.key)) + [NewObject(l, versioning, c)]
  }

  function PutAll(l: seq<Object>, versioning: bool, files: seq<FileStep>): seq<Object> {
    if files == [] then l
    else
      var l' := PutAll(l, versioning, files[..|files| - 1]);
      var f := files[|files| - 1];
      if f.Stored? then Put(l', versioning, f.content) else l'
  }

  predicate WithinQuota(l: seq<Object>, quota: nat, files: seq<FileStep>) {
    quota == 0 || TotalSize(l) + Incoming(files) <= quota
  }

  // ----- the other handlers

  function Marker(key: string, now: nat): Object {
    Object(key, "", 0, "application/x-directory", now, false, None)
  }

  function KeyNotIn(keys: set<string>): Object -> bool { (o: Object) => o.key !in keys }

  function KeyIn(keys: set<string>): Object -> bool { (o: Object) => o.key in keys }

  function Repin(key: string, flag: bool): Object -> Object {
    (o: Object) => if o.key == key then o.(pinned := flag) else o
  }

  function Rekey(from: string, to: string): Object -> Object {
    (o: Object) => if o.key == from then o.(key := to) else o
  }

  function FindVersion(vs: seq<Version>, cid: string): (r: Option<Version>)
    ensures r.Some? ==> r.value in vs && r.value.cid == cid
    ensures r.None? ==> forall i :: 0 <= i < |vs| ==> vs[i].cid != cid
  {
    if vs == [] then None
    else if vs[0].cid == cid then Some(vs[0])
    else
      var r := FindVersion(vs[1..], cid);
      assert vs == [vs[0]] + vs[1..];
      r
  }

  function OtherVersions(vs: seq<Version>, cid: string): seq<Version> {
    if vs == [] then [] else (if vs[0].cid != cid then [vs[0]] else []) + OtherVersions(vs[1..], cid)
  }

  /** The chosen version becomes current and the current content goes to the front of the history. */
  function Restored(o: Object, cid: string, now: nat): Object {
    match FindVersion(History(o), cid)
    case None => o
    case Some(v) =>
      o.(cid := v.cid, size := v.size, contentType := v.contentType, lastModified := now,
         versions := Some([Snapshot(o)] + OtherVersions(History(o), cid)))
  }

  function RestoreIn(l: seq<Object>, key: string, cid: string, now: nat): seq<Object> {
    match Find(l, key)
    case None => l
    case Some(o) => ReplaceFirst(l, Restored(o, cid, now))
  }

  /** The entries of a parsed manifest that have a key and a CID, in order. */
  function ValidOf(list: seq<Option<Object>>): seq<Object> {
    if list == [] then [] else (if list[0].Some? then [list[0].value] else []) + ValidOf(list[1..])
  }

  // ----- steps of the console

  /** `cancelAt` is the number of files that were started before the batch was cancelled. */
  datatype Step =
    | UploadFiles(files: seq<FileStep>, cancelAt: nat)
    | RetryUpload(content: Content)
    | CreateFolder(marker: string, at: nat)
    | DeleteObject(key: string)
    | BulkDelete(keys: set<string>)
    | TogglePin(key: string, flag: bool)
    | RestoreVersion(key: string, cid: string, at: nat)
    | RenameObject(from: string, to: string)
    | ImportManifest(objs: seq<Object>)
    | RestoreObjects(objs: seq<Object>)
    | RenameBack(from: string, to: string)

  function Started(step: Step): seq<FileStep>
    requires step.UploadFiles?
  {
    step.files[..Min(step.cancelAt, |step.files|)]
  }

  function Apply(step: Step, policy: Policy, l: seq<Object>): seq<Object> {
    match step
    case UploadFiles(files, _) =>
      if WithinQuota(l, policy.quotaBytes, files) then PutAll(l, policy.versioning, Started(step)) else l
    case RetryUpload(c) => Put(l, policy.versioning, c)
    case CreateFolder(key, at) => if HasKey(l, key) then l else l + [Marker(key, at)]
    case DeleteObject(key) => Filter(l, KeyIsNot(key))
    case BulkDelete(keys) => Filter(l, KeyNotIn(keys))
    case TogglePin(key, flag) => MapObjects(l, Repin(key, flag))
    case RestoreVersion(key, cid, at) => RestoreIn(l, key, cid, at)
    case RenameObject(from, to) => if HasKey(l, to) then l else MapObjects(l, Rekey(from, to))
    case ImportManifest(objs) => MergeIn(l, objs)
    case RestoreObjects(objs) => MergeIn(l, objs)
    case RenameBack(from, to) => MapObjects(l, Rekey(from, to))
  }

  function Run(steps: seq<Step>, policy: Policy, l: seq<Object>): seq<Object> {
    if steps == [] then l else Apply(steps[|steps| - 1], policy, Run(steps[..|steps| - 1], policy, l))
  }

  function KeysOf(objs: seq<Object>): set<string> { set o | o in objs :: o.key }

  function StoredKeys(files: seq<FileStep>): set<string> {
    set f | f in files && f.Stored? :: f.content.key
  }

  /** The keys that a step reads or writes. */
  function Touches(step: Step): set<string> {
    match step
    case UploadFiles(_, _) => StoredKeys(Started(step))
    case RetryUpload(c) => {c.key}
    case CreateFolder(key, _) => {key}
    case DeleteObject(key) => {key}
    case BulkDelete(keys) => keys
    case TogglePin(key, _) => {key}
    case RestoreVersion(key, _, _) => {key}
    case RenameObject(from, to) => {from, to}
    case ImportManifest(objs) => KeysOf(objs)
    case RestoreObjects(objs) => KeysOf(objs)
    case RenameBack(from, to) => {from, to}
  }
}

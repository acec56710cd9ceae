/**
 Virtual folders over flat keys: the browser rows under a prefix, and what is reached by
 following the folder rows from the root.
 */
module Folders {
  import opened Prelude
  import opened Sorting
  import opened Manifest

  // ----- where a key stands under a prefix

  predicate StartsWith(key: string, prefix: string) { |prefix| <= |key| && key[..|prefix|] == prefix }

  function FirstSlash(s: string): (r: int)
    ensures -1 <= r < |s|
    ensures r != -1 ==> s[r] == '/'
    ensures forall i :: 0 <= i < (if r == -1 then |s| else r) ==> s[i] != '/'
  {
    if s == [] then -1
    else if s[0] == '/' then 0
    else
      var r := FirstSlash(s[1..]);
      if r == -1 then -1 else r + 1
  }

  datatype Place = Outside | Marker | Direct | Inside(folder: string)

  function PlaceOf(key: string, prefix: string): Place {
    if !StartsWith(key, prefix) then Outside
    else
      var rest := key[|prefix|..];
      var slash := FirstSlash(rest);
      if slash == -1 then if rest == ".keep" then Marker else Direct
      else Inside(rest[..slash])
  }

  function SubPrefix(prefix: string, name: string): string { prefix + name + "/" }

  predicate NoSlash(s: string) { '/' !in s }

  /** A text with its first slash right after a name. */
  lemma SlashAfterName(rest: string, name: string)
    requires NoSlash(name)
    ensures FirstSlash(rest) == |name| && rest[..|name|] == name <==>
            |name| < |rest| && rest[..|name|] == name && rest[|name|] == '/'
  {
    if |name| < |rest| && rest[..|name|] == name && rest[|name|] == '/' {
      assert forall i :: 0 <= i < |name| ==> rest[i] == name[i];
    }
  }

  lemma StartsTwice(key: string, prefix: string, name: string)
    ensures StartsWith(key, SubPrefix(prefix, name)) <==>
            && StartsWith(key, prefix)
            && var rest := key[|prefix|..];
               |name| < |rest| && rest[..|name|] == name && rest[|name|] == '/'
  {
    var sub := SubPrefix(prefix, name);
    var n := |prefix| + |name|;
    assert |sub| == n + 1;
    if |sub| <= |key| {
      var front := key[..n + 1];
      assert front[..|prefix|] == key[..|prefix|];
      assert front[|prefix|..n] == key[|prefix|..][..|name|];
      assert front == front[..|prefix|] + front[|prefix|..n] + [front[n]];
      assert sub[..|prefix|] == prefix && sub[|prefix|..n] == name && sub[n] == '/';
    }
  }

  /** A key stands inside a folder iff it starts with the folder's own prefix. */
  lemma InsideIffStarts(key: string, prefix: string, name: string)
    requires NoSlash(name)
    ensures PlaceOf(key, prefix) == Inside(name) <==> StartsWith(key, SubPrefix(prefix, name))
  {
    hide SubPrefix, NoSlash, FirstSlash;
    StartsTwice(key, prefix, name);
    if StartsWith(key, prefix) {
      SlashAfterName(key[|prefix|..], name);
    }
  }

  lemma InsideNameHasNoSlash(key: string, prefix: string)
    requires PlaceOf(key, prefix).Inside?
    ensures NoSlash(PlaceOf(key, prefix).folder)
  {
  }

  // ----- the rows under a prefix

  datatype Entry =
    | Folder(name: string, prefix: string, count: nat, size: nat)
    | File(name: string, obj: Object)

  function IsUnder(prefix: string): Object -> bool { (o: Object) => StartsWith(o.key, prefix) }

  function IsInside(prefix: string, name: string): Object -> bool {
    (o: Object) => PlaceOf(o.key, prefix) == Inside(name)
  }

  function IsDirect(prefix: string): Object -> bool { (o: Object) => PlaceOf(o.key, prefix).Direct? }

  function Under(objects: seq<Object>, prefix: string): seq<Object> {
    Filter(objects, IsUnder(prefix))
  }

  function InFolder(objects: seq<Object>, prefix: string, name: string): seq<Object> {
    Filter(objects, IsInside(prefix, name))
  }

  function Files(objects: seq<Object>, prefix: string): seq<Object> {
    Filter(objects, IsDirect(prefix))
  }

  /** Folder names, each once, in the order in which they first appear. */
  function Names(objects: seq<Object>, prefix: string): seq<string> {
    if objects == [] then []
    else
      var names := Names(objects[..|objects| - 1], prefix);
      var place := PlaceOf(objects[|objects| - 1].key, prefix);
      if place.Inside? && place.folder !in names then names + [place.folder] else names
  }

  /** A locale's comparison of names. */
  type Collation = (string, string) -> bool

  function ByKey(leq: Collation): (Object, Object) -> bool { (a: Object, b: Object) => leq(a.key, b.key) }

  function SortedNames(objects: seq<Object>, prefix: string, leq: Collation): seq<string> {
    Sort(Names(objects, prefix), leq)
  }

  function FolderRow(objects: seq<Object>, prefix: string, name: string): Entry {
    var l := InFolder(objects, prefix, name);
    Folder(name, SubPrefix(prefix, name), |l|, TotalSize(l))
  }

  function FileRow(o: Object, prefix: string): Entry {
    File(if |prefix| <= |o.key| then o.key[|prefix|..] else [], o)
  }

  function FolderRows(objects: seq<Object>, prefix: string, names: seq<string>): (r: seq<Entry>)
    ensures |r| == |names| && forall i :: 0 <= i < |names| ==> r[i] == FolderRow(objects, prefix, names[i])
  {
    seq(|names|, i requires 0 <= i < |names| => FolderRow(objects, prefix, names[i]))
  }

  function FileRows(files: seq<Object>, prefix: string): (r: seq<Entry>)
    ensures |r| == |files| && forall i :: 0 <= i < |files| ==> r[i] == FileRow(files[i], prefix)
  {
    seq(|files|, i requires 0 <= i < |files| => FileRow(files[i], prefix))
  }

  function Entries(objects: seq<Object>, prefix: string, leq: Collation): seq<Entry> {
    FolderRows(objects, prefix, SortedNames(objects, prefix, leq))
    + FileRows(Sort(Files(objects, prefix), ByKey(leq)), prefix)
  }

  datatype Agg = Agg(count: nat, size: nat)

  function AggOf(objects: seq<Object>, prefix: string, name: string): Agg {
    var l := InFolder(objects, prefix, name);
    Agg(|l|, TotalSize(l))
  }

  /** The aggregates are those of the objects seen so far. */
  ghost predicate Aggregated(aggs: map<string, Agg>, objects: seq<Object>, prefix: string) {
    && (forall n :: n in aggs <==> n in Names(objects, prefix))
    && (forall n :: n in aggs ==> aggs[n] == AggOf(objects, prefix, n))
  }

  lemma InFolderSnoc(l: seq<Object>, o: Object, prefix: string, name: string)
    ensures InFolder(l + [o], prefix, name) ==
            if PlaceOf(o.key, prefix) == Inside(name) then InFolder(l, prefix, name) + [o]
            else InFolder(l, prefix, name)
  {
    FilterSnoc(l, o, IsInside(prefix, name));
  }

  lemma FilesSnoc(l: seq<Object>, o: Object, prefix: string)
    ensures Files(l + [o], prefix) ==
            if PlaceOf(o.key, prefix).Direct? then Files(l, prefix) + [o] else Files(l, prefix)
  {
    FilterSnoc(l, o, IsDirect(prefix));
  }

  lemma NamesSnoc(l: seq<Object>, o: Object, prefix: string)
    ensures Names(l + [o], prefix) ==
            var names := Names(l, prefix);
            var place := PlaceOf(o.key, prefix);
            if place.Inside? && place.folder !in names then names + [place.folder] else names
  {
    assert (l + [o])[..|l|] == l;
  }

  /** A folder without a name yet has no objects. */
  lemma {:induction false} UnnamedIsEmpty(l: seq<Object>, prefix: string, name: string)
    requires name !in Names(l, prefix)
    ensures InFolder(l, prefix, name) == []
  {
    if l != [] {
      var l', o := l[..|l| - 1], l[|l| - 1];
      assert l == l' + [o];
      NamesSnoc(l', o, prefix);
      UnnamedIsEmpty(l', prefix, name);
      InFolderSnoc(l', o, prefix, name);
    }
  }

  lemma AggSnoc(l: seq<Object>, o: Object, prefix: string, name: string)
    ensures var agg := AggOf(l, prefix, name);
            AggOf(l + [o], prefix, name) ==
            if PlaceOf(o.key, prefix) == Inside(name) then Agg(agg.count + 1, agg.size + o.size) else agg
  {
    hide InFolder, PlaceOf, TotalSize;
    InFolderSnoc(l, o, prefix, name);
    TotalSnoc(InFolder(l, prefix, name), o);
  }

  lemma AggUnnamed(l: seq<Object>, prefix: string, name: string)
    requires name !in Names(l, prefix)
    ensures AggOf(l, prefix, name) == Agg(0, 0)
  {
    UnnamedIsEmpty(l, prefix, name);
  }

  lemma AggregatedSame(aggs: map<string, Agg>, l: seq<Object>, o: Object, prefix: string)
    requires Aggregated(aggs, l, prefix) && !PlaceOf(o.key, prefix).Inside?
    ensures Aggregated(aggs, l + [o], prefix)
  {
    hide AggOf, Names, PlaceOf;
    NamesSnoc(l, o, prefix);
    forall n | n in aggs
      ensures AggOf(l + [o], prefix, n) == AggOf(l, prefix, n)
    {
      AggSnoc(l, o, prefix, n);
    }
  }

  lemma AggregatedMore(aggs: map<string, Agg>, l: seq<Object>, o: Object, prefix: string)
    requires Aggregated(aggs, l, prefix) && PlaceOf(o.key, prefix).Inside?
    ensures var f := PlaceOf(o.key, prefix).folder;
            var agg := if f in aggs then aggs[f] else Agg(0, 0);
            Aggregated(aggs[f := Agg(agg.count + 1, agg.size + o.size)], l + [o], prefix)
  {
    hide AggOf, Names, PlaceOf;
    var f := PlaceOf(o.key, prefix).folder;
    NamesSnoc(l, o, prefix);
    if f !in aggs {
      AggUnnamed(l, prefix, f);
    }
    forall n {
      AggSnoc(l, o, prefix, n);
    }
  }

  /** The browser rows: one pass that fills a table of folders and a list of files, then sorting. */
  method DeriveEntries(objects: seq<Object>, prefix: string, leq: Collation) returns (entries: seq<Entry>)
    ensures entries == Entries(objects, prefix, leq)
    ensures FoldersFirst(entries) && FilesNamed(entries, prefix) && RowsComplete(entries, objects, prefix)
    ensures TotalPreorder(leq) ==> RowsSorted(entries, leq)
  {
    hide InFolder, Names, PlaceOf, Files, Sort, FoldersFirst, FilesNamed, RowsComplete, RowsSorted;
    RowsAre(objects, prefix, leq);
    var order: seq<string>, aggs: map<string, Agg>, files: seq<Object> := [], map[], [];
    NothingYet(prefix);
    for i := 0 to |objects|
      invariant order == Names(objects[..i], prefix) && files == Files(objects[..i], prefix)
      invariant Aggregated(aggs, objects[..i], prefix)
    {
      var o := objects[i];
      assert objects[..i + 1] == objects[..i] + [o];
      NamesSnoc(objects[..i], o, prefix);
      FilesSnoc(objects[..i], o, prefix);
      var place := PlaceOf(o.key, prefix);
      if place.Inside? {
        AggregatedMore(aggs, objects[..i], o, prefix);
        if place.folder !in aggs {
          order := order + [place.folder];
        }
        var agg := if place.folder in aggs then aggs[place.folder] else Agg(0, 0);
        aggs := aggs[place.folder := Agg(agg.count + 1, agg.size + o.size)];
      } else {
        AggregatedSame(aggs, objects[..i], o, prefix);
        if place.Direct? {
          files := files + [o];
        }
      }
    }
    assert objects[..|objects|] == objects;
    var names := Sort(order, leq);
    SortKeeps(order, leq);
    assert forall i :: 0 <= i < |names| ==> names[i] in order;
    var folderRows := seq(|names|, i requires 0 <= i < |names| =>
      Folder(names[i], SubPrefix(prefix, names[i]), aggs[names[i]].count, aggs[names[i]].size));
    assert folderRows == FolderRows(objects, prefix, names);
    entries := folderRows + FileRows(Sort(files, ByKey(leq)), prefix);
  }

  lemma NothingYet(prefix: string)
    ensures Names([], prefix) == [] && Files([], prefix) == [] && Aggregated(map[], [], prefix)
  {
  }

  // ----- what the rows say

  /** Every folder row stands before every file row. */
  predicate FoldersFirst(rows: seq<Entry>) {
    forall i, j :: 0 <= i < j < |rows| && rows[i].File? ==> rows[j].File?
  }

  /** A file row is named by what its key has after the prefix: one segment, not the folder marker. */
  predicate FilesNamed(rows: seq<Entry>, prefix: string) {
    forall i :: 0 <= i < |rows| && rows[i].File? ==>
      rows[i].obj.key == prefix + rows[i].name && NoSlash(rows[i].name) && rows[i].name != ".keep"
  }

  predicate HasFolderRow(rows: seq<Entry>, name: string) {
    exists i :: 0 <= i < |rows| && rows[i].Folder? && rows[i].name == name
  }

  predicate HasFileRow(rows: seq<Entry>, o: Object) {
    exists i :: 0 <= i < |rows| && rows[i].File? && rows[i].obj == o
  }

  /** The key has one segment after the prefix, and it is not the folder marker. */
  predicate DirectlyUnder(key: string, prefix: string) {
    StartsWith(key, prefix) && NoSlash(key[|prefix|..]) && key[|prefix|..] != ".keep"
  }

  /** Every object directly under the prefix has a row, and every first segment before a slash, and no others. */
  ghost predicate RowsComplete(rows: seq<Entry>, objects: seq<Object>, prefix: string) {
    && (forall o :: HasFileRow(rows, o) <==> o in objects && DirectlyUnder(o.key, prefix))
    && (forall name :: HasFolderRow(rows, name) <==>
          NoSlash(name) && exists i :: 0 <= i < |objects| && StartsWith(objects[i].key, SubPrefix(prefix, name)))
  }

  /** Folder rows by name and file rows by key, in the order of the collation. */
  predicate RowsSorted(rows: seq<Entry>, leq: Collation) {
    forall i, j :: 0 <= i < j < |rows| ==>
      && (rows[i].Folder? && rows[j].Folder? ==> leq(rows[i].name, rows[j].name))
      && (rows[i].File? && rows[j].File? ==> leq(rows[i].obj.key, rows[j].obj.key))
  }

  lemma DirectIff(key: string, prefix: string)
    ensures PlaceOf(key, prefix).Direct? <==> DirectlyUnder(key, prefix)
    ensures PlaceOf(key, prefix).Direct? ==> key == prefix + key[|prefix|..]
  {
    if StartsWith(key, prefix) {
      var rest := key[|prefix|..];
      assert key == prefix + rest;
      var slash := FirstSlash(rest);
      assert slash != -1 ==> rest[slash] == '/';
    }
  }

  lemma FileMembers(objects: seq<Object>, prefix: string, leq: Collation, o: Object)
    ensures o in Sort(Files(objects, prefix), ByKey(leq)) <==> o in objects && DirectlyUnder(o.key, prefix)
  {
    hide Sort, PlaceOf, Filter, DirectlyUnder;
    SortKeeps(Files(objects, prefix), ByKey(leq));
    FilterMembers(objects, IsDirect(prefix));
    DirectIff(o.key, prefix);
  }

  /** A name is shown iff some key stands inside the folder of that name. */
  lemma ShownIff(objects: seq<Object>, prefix: string, leq: Collation, name: string)
    ensures name in SortedNames(objects, prefix, leq) <==>
            NoSlash(name) && exists i :: 0 <= i < |objects| && StartsWith(objects[i].key, SubPrefix(prefix, name))
  {
    hide Sort, Names, PlaceOf, StartsWith, SubPrefix, NoSlash;
    SortKeeps(Names(objects, prefix), leq);
    if name in Names(objects, prefix) {
      NameHasNoSlash(objects, prefix, name);
      var o :| o in objects && PlaceOf(o.key, prefix) == Inside(name);
      InsideIffStarts(o.key, prefix, name);
      var i :| 0 <= i < |objects| && objects[i] == o;
      assert StartsWith(objects[i].key, SubPrefix(prefix, name));
    }
    if NoSlash(name) && exists i :: 0 <= i < |objects| && StartsWith(objects[i].key, SubPrefix(prefix, name)) {
      var i :| 0 <= i < |objects| && StartsWith(objects[i].key, SubPrefix(prefix, name));
      InsideIffStarts(objects[i].key, prefix, name);
      NamedInside(objects, prefix, name, objects[i]);
    }
  }

  lemma NamedInside(objects: seq<Object>, prefix: string, name: string, o: Object)
    requires o in objects && PlaceOf(o.key, prefix) == Inside(name)
    ensures name in Names(objects, prefix)
  {
    InFolderHas(objects, prefix, name, o);
    if name !in Names(objects, prefix) {
      UnnamedIsEmpty(objects, prefix, name);
      assert false;
    }
  }

  lemma FolderRowIff(objects: seq<Object>, prefix: string, names: seq<string>, files: seq<Object>, name: string)
    ensures HasFolderRow(FolderRows(objects, prefix, names) + FileRows(files, prefix), name) <==> name in names
  {
    hide FolderRows, FileRows, InFolder;
    var rows := FolderRows(objects, prefix, names) + FileRows(files, prefix);
    if name in names {
      var i :| 0 <= i < |names| && names[i] == name;
      assert rows[i] == FolderRow(objects, prefix, names[i]);
    }
    if HasFolderRow(rows, name) {
      var i :| 0 <= i < |rows| && rows[i].Folder? && rows[i].name == name;
      assert i < |names| && rows[i] == FolderRow(objects, prefix, names[i]);
    }
  }

  lemma FileRowIff(objects: seq<Object>, prefix: string, names: seq<string>, files: seq<Object>, o: Object)
    ensures HasFileRow(FolderRows(objects, prefix, names) + FileRows(files, prefix), o) <==> o in files
  {
    hide FolderRows, FileRows, InFolder;
    var rows := FolderRows(objects, prefix, names) + FileRows(files, prefix);
    if o in files {
      var i :| 0 <= i < |files| && files[i] == o;
      assert rows[|names| + i] == FileRow(files[i], prefix);
    }
    if HasFileRow(rows, o) {
      var i :| 0 <= i < |rows| && rows[i].File? && rows[i].obj == o;
      assert i >= |names| && rows[i] == FileRow(files[i - |names|], prefix);
    }
  }

  lemma RowsAreComplete(objects: seq<Object>, prefix: string, leq: Collation)
    ensures RowsComplete(Entries(objects, prefix, leq), objects, prefix)
  {
    hide SortedNames, Files, Sort, HasFileRow, HasFolderRow, NoSlash, StartsWith, DirectlyUnder;
    var names, files := SortedNames(objects, prefix, leq), Sort(Files(objects, prefix), ByKey(leq));
    var rows := Entries(objects, prefix, leq);
    forall o
      ensures HasFileRow(rows, o) <==> o in objects && DirectlyUnder(o.key, prefix)
    {
      FileRowIff(objects, prefix, names, files, o);
      FileMembers(objects, prefix, leq, o);
    }
    forall name
      ensures HasFolderRow(rows, name) <==>
              NoSlash(name) && exists i :: 0 <= i < |objects| && StartsWith(objects[i].key, SubPrefix(prefix, name))
    {
      FolderRowIff(objects, prefix, names, files, name);
      ShownIff(objects, prefix, leq, name);
    }
  }

  lemma RowsAreNamed(objects: seq<Object>, prefix: string, leq: Collation)
    ensures FoldersFirst(Entries(objects, prefix, leq)) && FilesNamed(Entries(objects, prefix, leq), prefix)
  {
    hide SortedNames, Files, Sort, FolderRows, FileRows, InFolder;
    var names, files := SortedNames(objects, prefix, leq), Sort(Files(objects, prefix), ByKey(leq));
    var rows := Entries(objects, prefix, leq);
    forall i | 0 <= i < |rows| && rows[i].File?
      ensures rows[i].obj.key == prefix + rows[i].name && NoSlash(rows[i].name) && rows[i].name != ".keep"
    {
      var o := files[i - |names|];
      assert rows[i] == FileRow(o, prefix);
      assert o in files;
      FileMembers(objects, prefix, leq, o);
      DirectIff(o.key, prefix);
    }
  }

  lemma RowsAreSorted(objects: seq<Object>, prefix: string, leq: Collation)
    requires TotalPreorder(leq)
    ensures RowsSorted(Entries(objects, prefix, leq), leq)
  {
    hide Names, Files, Sort, FolderRows, FileRows, InFolder;
    SortSorted(Names(objects, prefix), leq);
    KeysPreordered(leq);
    SortSorted(Files(objects, prefix), ByKey(leq));
  }

  lemma KeysPreordered(leq: Collation)
    requires TotalPreorder(leq)
    ensures TotalPreorder(ByKey(leq))
  {
    forall x: Object, y: Object
      ensures ByKey(leq)(x, y) || ByKey(leq)(y, x)
    {
      assert leq(x.key, y.key) || leq(y.key, x.key);
    }
    forall x: Object, y: Object, z: Object | ByKey(leq)(x, y) && ByKey(leq)(y, z)
      ensures ByKey(leq)(x, z)
    {
      assert leq(x.key, y.key) && leq(y.key, z.key);
    }
  }

  lemma RowsAre(objects: seq<Object>, prefix: string, leq: Collation)
    ensures var rows := Entries(objects, prefix, leq);
            && FoldersFirst(rows) && FilesNamed(rows, prefix) && RowsComplete(rows, objects, prefix)
            && (TotalPreorder(leq) ==> RowsSorted(rows, leq))
  {
    hide Entries, FoldersFirst, FilesNamed, RowsComplete, RowsSorted, TotalPreorder;
    RowsAreNamed(objects, prefix, leq);
    RowsAreComplete(objects, prefix, leq);
    if TotalPreorder(leq) {
      RowsAreSorted(objects, prefix, leq);
    }
  }

  // ----- a folder row counts everything under its prefix

  lemma NameHasNoSlash(objects: seq<Object>, prefix: string, name: string)
    requires name in Names(objects, prefix)
    ensures NoSlash(name) && exists o :: o in objects && PlaceOf(o.key, prefix) == Inside(name)
  {
    if objects != [] {
      var l, o := objects[..|objects| - 1], objects[|objects| - 1];
      assert objects == l + [o];
      NamesSnoc(l, o, prefix);
      if name in Names(l, prefix) {
        NameHasNoSlash(l, prefix, name);
        var x :| x in l && PlaceOf(x.key, prefix) == Inside(name);
        assert x in objects;
      } else {
        InsideNameHasNoSlash(o.key, prefix);
        assert o in objects;
      }
    }
  }

  lemma FolderIsUnder(objects: seq<Object>, prefix: string, name: string)
    requires NoSlash(name)
    ensures InFolder(objects, prefix, name) == Under(objects, SubPrefix(prefix, name))
  {
    forall o | o in objects
      ensures PlaceOf(o.key, prefix) == Inside(name) <==> StartsWith(o.key, SubPrefix(prefix, name))
    {
      InsideIffStarts(o.key, prefix, name);
    }
    FilterSame(objects, IsInside(prefix, name), IsUnder(SubPrefix(prefix, name)));
  }

  /** Count and size of a folder row are those of all objects, markers included, under its prefix. */
  lemma FolderRowCounts(objects: seq<Object>, prefix: string, leq: Collation, e: Entry)
    requires e in Entries(objects, prefix, leq) && e.Folder?
    ensures e.prefix == SubPrefix(prefix, e.name) && NoSlash(e.name)
    ensures e.count == |Under(objects, e.prefix)| > 0 && e.size == TotalSize(Under(objects, e.prefix))
  {
    hide PlaceOf, InFolder, Under, Names, Sort, Files;
    var names := SortedNames(objects, prefix, leq);
    SortKeeps(Names(objects, prefix), leq);
    var rows := Entries(objects, prefix, leq);
    var i :| 0 <= i < |rows| && rows[i] == e;
    assert i < |names| && e == FolderRow(objects, prefix, names[i]);
    assert names[i] in Names(objects, prefix);
    NameHasNoSlash(objects, prefix, e.name);
    FolderIsUnder(objects, prefix, e.name);
    var o :| o in objects && PlaceOf(o.key, prefix) == Inside(e.name);
    InFolderHas(objects, prefix, e.name, o);
  }

  lemma InFolderHas(objects: seq<Object>, prefix: string, name: string, o: Object)
    requires o in objects && PlaceOf(o.key, prefix) == Inside(name)
    ensures o in InFolder(objects, prefix, name)
  {
    FilterMembers(objects, IsInside(prefix, name));
  }

  // ----- the walk

  function LongestKey(objects: seq<Object>): nat {
    if objects == [] then 0 else Max(LongestKey(objects[..|objects| - 1]), |objects[|objects| - 1].key|)
  }

  lemma {:induction false} KeyLength(objects: seq<Object>, o: Object)
    requires o in objects
    ensures |o.key| <= LongestKey(objects)
  {
    var l := objects[..|objects| - 1];
    if o in l {
      KeyLength(l, o);
    } else {
      assert objects == l + [objects[|objects| - 1]];
    }
  }

  /** Folder prefixes get longer and stay within the longest key. */
  lemma FolderIsDeeper(objects: seq<Object>, prefix: string, name: string)
    requires name in Names(objects, prefix)
    ensures |prefix| < |SubPrefix(prefix, name)| <= LongestKey(objects)
  {
    NameHasNoSlash(objects, prefix, name);
    var o :| o in objects && PlaceOf(o.key, prefix) == Inside(name);
    InsideIffStarts(o.key, prefix, name);
    KeyLength(objects, o);
  }

  /** The folder rows lead to longer prefixes, within the longest key. */
  predicate LeadDeeper(objects: seq<Object>, prefix: string, rows: seq<Entry>) {
    forall i :: 0 <= i < |rows| && rows[i].Folder? ==> |prefix| < |rows[i].prefix| <= LongestKey(objects)
  }

  lemma RowsLeadDeeper(objects: seq<Object>, prefix: string, names: seq<string>, files: seq<Object>)
    requires forall i :: 0 <= i < |names| ==> names[i] in Names(objects, prefix)
    ensures LeadDeeper(objects, prefix, FolderRows(objects, prefix, names) + FileRows(files, prefix))
  {
    hide Names, InFolder, SubPrefix, LongestKey, FolderRows, FileRows;
    forall i | 0 <= i < |names|
      ensures |prefix| < |SubPrefix(prefix, names[i])| <= LongestKey(objects)
    {
      FolderIsDeeper(objects, prefix, names[i]);
    }
  }

  lemma EntriesLeadDeeper(objects: seq<Object>, prefix: string, leq: Collation)
    ensures LeadDeeper(objects, prefix, Entries(objects, prefix, leq))
  {
    hide LeadDeeper;
    var names := SortedNames(objects, prefix, leq);
    SortKeeps(Names(objects, prefix), leq);
    assert forall i :: 0 <= i < |names| ==> names[i] in names;
    RowsLeadDeeper(objects, prefix, names, Sort(Files(objects, prefix), ByKey(leq)));
  }

  /** Going through the rows of a prefix: into every folder row, and taking the object of every file row. */
  function Walk(objects: seq<Object>, prefix: string, leq: Collation): seq<Object>
    decreases Max(0, LongestKey(objects) - |prefix|), 1, 0
  {
    EntriesLeadDeeper(objects, prefix, leq);
    WalkRows(objects, prefix, Entries(objects, prefix, leq), leq)
  }

  function WalkRows(objects: seq<Object>, prefix: string, rows: seq<Entry>, leq: Collation): seq<Object>
    requires LeadDeeper(objects, prefix, rows)
    decreases Max(0, LongestKey(objects) - |prefix|), 0, |rows|
  {
    if rows == [] then []
    else
      (match rows[0]
       case Folder(_, sub, _, _) => Walk(objects, sub, leq)
       case File(_, o) => [o])
      + WalkRows(objects, prefix, rows[1..], leq)
  }

  /** What comes after the last slash. */
  function LastSegment(key: string): string {
    if key == [] || key[|key| - 1] == '/' then [] else LastSegment(key[..|key| - 1]) + [key[|key| - 1]]
  }

  predicate Visible(o: Object, prefix: string) { StartsWith(o.key, prefix) && LastSegment(o.key) != ".keep" }

  function IsVisible(prefix: string): Object -> bool { (o: Object) => Visible(o, prefix) }

  function IsNoMarker(): Object -> bool { (o: Object) => LastSegment(o.key) != ".keep" }

  function VisibleUnder(objects: seq<Object>, prefix: string): seq<Object> {
    Filter(objects, IsVisible(prefix))
  }

  /** The prefixes that the browser can be at. */
  predicate IsFolderPrefix(prefix: string) { prefix == [] || prefix[|prefix| - 1] == '/' }

  lemma {:induction false} LastSegmentAfter(prefix: string, rest: string)
    requires IsFolderPrefix(prefix) && NoSlash(rest)
    ensures LastSegment(prefix + rest) == rest
    decreases |rest|
  {
    var key := prefix + rest;
    if rest != [] {
      LastSegmentAfter(prefix, rest[..|rest| - 1]);
      assert key[..|key| - 1] == prefix + rest[..|rest| - 1];
    } else {
      assert key == prefix;
    }
  }

  /** Directly under a prefix, visible means not the marker. */
  lemma DirectIsVisible(o: Object, prefix: string)
    requires IsFolderPrefix(prefix)
    ensures PlaceOf(o.key, prefix).Direct? ==> Visible(o, prefix)
    ensures PlaceOf(o.key, prefix).Marker? ==> !Visible(o, prefix)
  {
    if StartsWith(o.key, prefix) && FirstSlash(o.key[|prefix|..]) == -1 {
      LastSegmentAfter(prefix, o.key[|prefix|..]);
      assert prefix + o.key[|prefix|..] == o.key;
    }
  }

  /** Visible objects of several folders, with multiplicity. */
  function VisibleIn(objects: seq<Object>, prefix: string, names: seq<string>): multiset<Object> {
    if names == [] then multiset{}
    else multiset(VisibleUnder(objects, SubPrefix(prefix, names[0]))) + VisibleIn(objects, prefix, names[1..])
  }

  lemma VisibleSnoc(l: seq<Object>, o: Object, prefix: string)
    ensures VisibleUnder(l + [o], prefix) ==
            if Visible(o, prefix) then VisibleUnder(l, prefix) + [o] else VisibleUnder(l, prefix)
  {
    FilterSnoc(l, o, IsVisible(prefix));
  }

  lemma VisibleInside(o: Object, prefix: string, name: string)
    requires NoSlash(name)
    ensures Visible(o, SubPrefix(prefix, name)) <==> PlaceOf(o.key, prefix) == Inside(name) && Visible(o, prefix)
  {
    InsideIffStarts(o.key, prefix, name);
  }

  predicate Contributes(o: Object, prefix: string, names: seq<string>) {
    Visible(o, prefix) && PlaceOf(o.key, prefix).Inside? && PlaceOf(o.key, prefix).folder in names
  }

  lemma VisibleOneSnoc(l: seq<Object>, o: Object, prefix: string, name: string)
    requires NoSlash(name)
    ensures multiset(VisibleUnder(l + [o], SubPrefix(prefix, name))) ==
            multiset(VisibleUnder(l, SubPrefix(prefix, name)))
            + if PlaceOf(o.key, prefix) == Inside(name) && Visible(o, prefix) then multiset{o} else multiset{}
  {
    hide PlaceOf, Visible, VisibleUnder, NoSlash;
    VisibleSnoc(l, o, SubPrefix(prefix, name));
    VisibleInside(o, prefix, name);
  }

  /** One more object adds itself to exactly the folder it stands in. */
  lemma {:induction false} VisibleInSnoc(l: seq<Object>, o: Object, prefix: string, names: seq<string>)
    requires Distinct(names) && forall i :: 0 <= i < |names| ==> NoSlash(names[i])
    ensures VisibleIn(l + [o], prefix, names) ==
            VisibleIn(l, prefix, names) + if Contributes(o, prefix, names) then multiset{o} else multiset{}
    decreases |names|
  {
    hide PlaceOf, Visible, VisibleUnder, NoSlash;
    if names != [] {
      VisibleInSnoc(l, o, prefix, names[1..]);
      VisibleOneSnoc(l, o, prefix, names[0]);
      assert names == [names[0]] + names[1..];
      assert names[0] !in names[1..];
    }
  }

  lemma {:induction false} VisibleInNothing(prefix: string, names: seq<string>)
    ensures VisibleIn([], prefix, names) == multiset{}
  {
    if names != [] {
      VisibleInNothing(prefix, names[1..]);
    }
  }

  /** The visible objects under a prefix are its files and the visible objects of its folders. */
  lemma {:induction false} VisibleSplits(l: seq<Object>, prefix: string, names: seq<string>)
    requires IsFolderPrefix(prefix) && Distinct(names)
    requires forall i :: 0 <= i < |names| ==> NoSlash(names[i])
    requires forall n :: n in Names(l, prefix) ==> n in names
    ensures multiset(VisibleUnder(l, prefix)) == multiset(Files(l, prefix)) + VisibleIn(l, prefix, names)
    decreases |l|
  {
    if l == [] {
      VisibleInNothing(prefix, names);
    } else {
      var l', o := l[..|l| - 1], l[|l| - 1];
      assert l == l' + [o];
      NamesSnoc(l', o, prefix);
      VisibleSplits(l', prefix, names);
      VisibleSplitsStep(l', o, prefix, names);
    }
  }

  lemma VisibleSplitsStep(l: seq<Object>, o: Object, prefix: string, names: seq<string>)
    requires IsFolderPrefix(prefix) && Distinct(names)
    requires forall i :: 0 <= i < |names| ==> NoSlash(names[i])
    requires PlaceOf(o.key, prefix).Inside? ==> PlaceOf(o.key, prefix).folder in names
    requires multiset(VisibleUnder(l, prefix)) == multiset(Files(l, prefix)) + VisibleIn(l, prefix, names)
    ensures multiset(VisibleUnder(l + [o], prefix)) ==
            multiset(Files(l + [o], prefix)) + VisibleIn(l + [o], prefix, names)
  {
    hide PlaceOf, VisibleUnder, NoSlash, VisibleIn, Files, IsFolderPrefix;
    VisibleSnoc(l, o, prefix);
    FilesSnoc(l, o, prefix);
    VisibleInSnoc(l, o, prefix, names);
    DirectIsVisible(o, prefix);
    OutsideIsInvisible(o, prefix);
  }

  lemma OutsideIsInvisible(o: Object, prefix: string)
    ensures PlaceOf(o.key, prefix).Outside? ==> !Visible(o, prefix)
  {
  }

  lemma {:induction false} NamesDistinct(l: seq<Object>, prefix: string)
    ensures Distinct(Names(l, prefix))
  {
    if l != [] {
      NamesDistinct(l[..|l| - 1], prefix);
    }
  }

  /** The names that the browser shows: each once, none with a slash, and no folder missing. */
  lemma ShownNames(objects: seq<Object>, prefix: string, leq: Collation)
    ensures var names := SortedNames(objects, prefix, leq);
            && Distinct(names)
            && (forall i :: 0 <= i < |names| ==> NoSlash(names[i]))
            && (forall n :: n in names <==> n in Names(objects, prefix))
  {
    hide Names, Sort, NoSlash;
    var names := SortedNames(objects, prefix, leq);
    NamesDistinct(objects, prefix);
    SortDistinct(Names(objects, prefix), leq);
    SortKeeps(Names(objects, prefix), leq);
    forall i | 0 <= i < |names|
      ensures NoSlash(names[i])
    {
      assert names[i] in Names(objects, prefix);
      NameHasNoSlash(objects, prefix, names[i]);
    }
  }

  lemma {:induction false} WalkVisitsUnder(objects: seq<Object>, prefix: string, leq: Collation)
    requires IsFolderPrefix(prefix)
    ensures multiset(Walk(objects, prefix, leq)) == multiset(VisibleUnder(objects, prefix))
    decreases Max(0, LongestKey(objects) - |prefix|), 1, 0
  {
    hide Names, Sort, NoSlash, Files, VisibleUnder, VisibleIn, FolderRows, FileRows, WalkRows, LeadDeeper;
    var names, files := SortedNames(objects, prefix, leq), Sort(Files(objects, prefix), ByKey(leq));
    ShownNames(objects, prefix, leq);
    assert forall i :: 0 <= i < |names| ==> names[i] in names;
    WalkVisitsRows(objects, prefix, names, files, leq);
    VisibleSplits(objects, prefix, names);
    SortMembers(Files(objects, prefix), ByKey(leq));
  }

  lemma {:induction false} WalkVisitsRows(objects: seq<Object>, prefix: string, names: seq<string>,
                                          files: seq<Object>, leq: Collation)
    requires forall i :: 0 <= i < |names| ==> names[i] in Names(objects, prefix)
    ensures var rows := FolderRows(objects, prefix, names) + FileRows(files, prefix);
            && LeadDeeper(objects, prefix, rows)
            && multiset(WalkRows(objects, prefix, rows, leq)) == VisibleIn(objects, prefix, names) + multiset(files)
    decreases Max(0, LongestKey(objects) - |prefix|), 0, |names|
  {
    hide Names, VisibleUnder, Walk, WalkRows, FolderRows, FileRows, InFolder, LeadDeeper, VisibleIn, LongestKey;
    var rows := FolderRows(objects, prefix, names) + FileRows(files, prefix);
    RowsLeadDeeper(objects, prefix, names, files);
    if names == [] {
      assert rows == FileRows(files, prefix);
      WalkFileRows(objects, prefix, files, leq);
      VisibleInNone(objects, prefix);
    } else {
      VisibleInCons(objects, prefix, names);
      FolderIsDeeper(objects, prefix, names[0]);
      WalkVisitsUnder(objects, SubPrefix(prefix, names[0]), leq);
      WalkVisitsRows(objects, prefix, names[1..], files, leq);
      assert rows[0] == FolderRow(objects, prefix, names[0]);
      assert rows[1..] == FolderRows(objects, prefix, names[1..]) + FileRows(files, prefix);
      WalkFolderRow(objects, prefix, rows, leq);
    }
  }

  lemma VisibleInNone(objects: seq<Object>, prefix: string)
    ensures VisibleIn(objects, prefix, []) == multiset{}
  {
  }

  lemma VisibleInCons(objects: seq<Object>, prefix: string, names: seq<string>)
    requires names != []
    ensures VisibleIn(objects, prefix, names) ==
            multiset(VisibleUnder(objects, SubPrefix(prefix, names[0]))) + VisibleIn(objects, prefix, names[1..])
  {
  }

  lemma WalkFolderRow(objects: seq<Object>, prefix: string, rows: seq<Entry>, leq: Collation)
    requires rows != [] && rows[0].Folder? && LeadDeeper(objects, prefix, rows)
    ensures LeadDeeper(objects, prefix, rows[1..])
    ensures WalkRows(objects, prefix, rows, leq) ==
            Walk(objects, rows[0].prefix, leq) + WalkRows(objects, prefix, rows[1..], leq)
  {
  }

  lemma {:induction false} WalkFileRows(objects: seq<Object>, prefix: string, files: seq<Object>, leq: Collation)
    ensures LeadDeeper(objects, prefix, FileRows(files, prefix))
    ensures WalkRows(objects, prefix, FileRows(files, prefix), leq) == files
    decreases |files|
  {
    hide FileRows, Walk;
    var rows := FileRows(files, prefix);
    if files != [] {
      WalkFileRows(objects, prefix, files[1..], leq);
      assert rows[0] == FileRow(files[0], prefix);
      assert rows[1..] == FileRows(files[1..], prefix);
      assert files == [files[0]] + files[1..];
    }
  }

  /**
   Following the folder rows from the root ends, and visits every object whose last segment is
   not the folder marker exactly as often as the manifest holds it.
   */
  lemma WalkVisitsAll(objects: seq<Object>, leq: Collation)
    ensures multiset(Walk(objects, [], leq)) == multiset(Filter(objects, IsNoMarker()))
  {
    WalkVisitsUnder(objects, [], leq);
    FilterSame(objects, IsVisible([]), IsNoMarker());
  }
}

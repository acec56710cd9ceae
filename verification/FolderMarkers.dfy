/** Creating an empty folder: the marker makes the folder row appear and is itself never visited. */
module FolderMarkers {
  import opened Manifest
  import opened Store
  import opened Folders
  import opened StoreContents
  import opened Text

  lemma {:induction false} SegmentAfterSlash(folder: string, name: string)
    requires NoSlash(name)
    ensures LastSegment(folder + "/" + name) == name
    decreases |name|
  {
    var key := folder + "/" + name;
    if name != [] {
      SegmentAfterSlash(folder, name[..|name| - 1]);
      assert key[..|key| - 1] == folder + "/" + name[..|name| - 1];
    }
  }

  /** The marker's last segment is the marker's name. */
  lemma MarkerSegment(prefix: string, name: string)
    requires MarkerKey(prefix, name).Some?
    ensures LastSegment(MarkerKey(prefix, name).value) == ".keep"
  {
    var folder := prefix + StripRight(StripLeft(Text.Trim(name)));
    SegmentAfterSlash(folder, ".keep");
    assert MarkerKey(prefix, name).value == folder + "/" + ".keep";
  }

  /** What comes before the first slash. */
  function FirstSegment(s: string): (r: string)
    ensures NoSlash(r) && r <= s && (|r| < |s| ==> s[|r|] == '/')
  {
    if s == [] || s[0] == '/' then [] else [s[0]] + FirstSegment(s[1..])
  }

  /** The marker stands inside the folder that the first segment of the name gives. */
  lemma MarkerPlace(prefix: string, clean: string, key: string)
    requires clean != [] && key == prefix + clean + "/.keep"
    ensures PlaceOf(key, prefix) == Inside(FirstSegment(clean))
  {
    hide FirstSegment;
    var name := FirstSegment(clean);
    var sub := SubPrefix(prefix, name);
    assert |sub| <= |key|;
    assert key[..|sub|] == sub by {
      assert clean[..|name|] == name;
      assert key[|prefix| + |name|] == '/';
    }
    InsideIffStarts(key, prefix, name);
  }

  lemma NameIsShown(objects: seq<Object>, prefix: string, name: string, leq: Collation)
    requires name in Names(objects, prefix)
    ensures HasFolderRow(Entries(objects, prefix, leq), name)
  {
    hide Names, FolderRows, FileRows, InFolder;
    var names := SortedNames(objects, prefix, leq);
    ShownNames(objects, prefix, leq);
    var i :| 0 <= i < |names| && names[i] == name;
    assert Entries(objects, prefix, leq)[i] == FolderRow(objects, prefix, name);
  }

  /**
   After a folder is created under a prefix, the browser shows there a folder row named by the
   first segment of the trimmed name without its outer slashes, and a walk from the root visits
   exactly what it visited before.
   */
  lemma CreatedFolderShows(l: seq<Object>, policy: Policy, prefix: string, name: string, now: nat, leq: Collation)
    returns (a: string, clean: string, b: string)
    requires MarkerKey(prefix, name).Some? && !HasKey(l, MarkerKey(prefix, name).value)
    ensures var key := MarkerKey(prefix, name).value;
            var l' := Apply(CreateFolder(key, now), policy, l);
            && Trim(name) == a + clean + b && Slashes(a) && Slashes(b) && clean != []
            && clean[0] != '/' && clean[|clean| - 1] != '/' && key == prefix + clean + "/.keep"
            && HasFolderRow(Entries(l', prefix, leq), FirstSegment(clean))
            && multiset(Walk(l', [], leq)) == multiset(Walk(l, [], leq))
  {
    hide PlaceOf, Names, Walk, LastSegment, MarkerKey, Entries, HasFolderRow, Slashes, Trim, FirstSegment;
    var key := MarkerKey(prefix, name).value;
    a, clean, b := FolderNameIs(prefix, name);
    MarkerPlace(prefix, clean, key);
    MarkerSegment(prefix, name);
    NamesSnoc(l, Store.Marker(key, now), prefix);
    NameIsShown(l + [Store.Marker(key, now)], prefix, PlaceOf(key, prefix).folder, leq);
    WalkVisitsAll(l, leq);
    WalkVisitsAll(l + [Store.Marker(key, now)], leq);
    FilterSnoc(l, Store.Marker(key, now), IsNoMarker());
  }
}

/**
 * The documentation sidebar: a tree of folders and files, the facets derived from a
 * file's path, and the pruning of the tree by the active facets.
 */
module DocsFilter {
  import opened Prelude

  datatype DocFile = DocFile(name: string, relpath: string, sizeBytes: nat)
  datatype Folder = Folder(name: string, relpath: string, folders: seq<Folder>, files: seq<DocFile>)
  datatype Tree = Tree(projectId: string, folders: seq<Folder>, files: seq<DocFile>)

  // ------------------------------------------------------------------
  // Facets of a path
  // ------------------------------------------------------------------

  datatype Category = Overview | GettingStarted | Guides | Reference | Decisions | Runbooks | Changelog | OtherCategory
  datatype DocType = Adr | ChangelogEntry | Runbook | Readme | Doc

  /** The non-empty segments of a path; segment holds what was read of the one under way. */
  function Segments(path: string, segment: string): seq<string>
    decreases |path|
  {
    if path == [] then (if segment == [] then [] else [segment])
    else if path[0] == '/' then (if segment == [] then [] else [segment]) + Segments(path[1..], [])
    else Segments(path[1..], segment + [path[0]])
  }

  function CanonicalFolder(name: string): Category {
    if name == "01-overview" then Overview
    else if name == "02-getting-started" then GettingStarted
    else if name == "03-guides" then Guides
    else if name == "04-reference" then Reference
    else if name == "05-architecture-decisions" then Decisions
    else if name == "06-runbooks" then Runbooks
    else if name == "07-changelog" then Changelog
    else OtherCategory
  }

  function CategoryOf(relpath: string): Category {
    var segments := Segments(relpath, []);
    var start := if segments != [] && segments[0] == "docs" then 1 else 0;
    if start < |segments| then CanonicalFolder(segments[start]) else OtherCategory
  }

  predicate Digits(s: string, n: nat) {
    n <= |s| && forall i :: 0 <= i < n ==> '0' <= s[i] <= '9'
  }

  /** Three or four digits and a dash. */
  predicate Numbered(filename: string) {
    || (|filename| > 3 && Digits(filename, 3) && filename[3] == '-')
    || (|filename| > 4 && Digits(filename, 4) && filename[4] == '-')
  }

  function TypeOf(relpath: string): DocType {
    var category := CategoryOf(relpath);
    var segments := Segments(relpath, []);
    var filename := if segments == [] then "" else segments[|segments| - 1];
    if LowerAscii(filename) == "readme.md" || LowerAscii(filename) == "index.md" then Readme
    else if category == Decisions || Numbered(filename) then Adr
    else if category == Changelog then ChangelogEntry
    else if category == Runbooks then Runbook
    else Doc
  }

  lemma {:induction false} SegmentEnds(path: string, read: string, rest: string)
    requires '/' !in path && read + path != []
    ensures Segments(path + "/" + rest, read) == [read + path] + Segments(rest, [])
    decreases |path|
  {
    var whole := path + "/" + rest;
    if path == [] {
      assert whole[1..] == rest && read + path == read;
    } else {
      assert whole[1..] == path[1..] + "/" + rest;
      assert read + [path[0]] + path[1..] == read + path;
      SegmentEnds(path[1..], read + [path[0]], rest);
    }
  }

  /** A segment without slashes is one segment, and an empty one is none. */
  lemma {:induction false} OneSegment(name: string, read: string)
    requires '/' !in name
    ensures Segments(name, read) == if read + name == [] then [] else [read + name]
    decreases |name|
  {
    if name == [] {
      assert read + name == read;
    } else {
      OneSegment(name[1..], read + [name[0]]);
      assert read + [name[0]] + name[1..] == read + name;
    }
  }

  lemma {:induction false} LastSegment(folder: string, filename: string, read: string)
    requires '/' !in filename && filename != []
    ensures var segments := Segments(folder + "/" + filename, read);
      segments != [] && segments[|segments| - 1] == filename
    decreases |folder|
  {
    var path := folder + "/" + filename;
    if folder == [] {
      assert path[1..] == filename;
      OneSegment(filename, []);
      assert [] + filename == filename;
    } else if folder[0] == '/' {
      LastSegment(folder[1..], filename, []);
      assert path[1..] == folder[1..] + "/" + filename;
    } else {
      LastSegment(folder[1..], filename, read + [folder[0]]);
      assert path[1..] == folder[1..] + "/" + filename;
    }
  }

  const FOLDERS := [
    ("01-overview", Overview), ("02-getting-started", GettingStarted), ("03-guides", Guides),
    ("04-reference", Reference), ("05-architecture-decisions", Decisions), ("06-runbooks", Runbooks),
    ("07-changelog", Changelog)]

  /** The category of a path is that of its first folder, docs aside; any other folder, and no folder, has none. */
  lemma {:induction false} CategoryOfPath(folder: string, rest: string)
    requires folder != "" && folder != "docs" && '/' !in folder
    ensures forall i :: 0 <= i < |FOLDERS| && folder == FOLDERS[i].0 ==>
      CategoryOf(folder + "/" + rest) == CategoryOf("docs/" + folder + "/" + rest) == FOLDERS[i].1
    ensures (forall i :: 0 <= i < |FOLDERS| ==> folder != FOLDERS[i].0) ==>
      CategoryOf(folder + "/" + rest) == CategoryOf("docs/" + folder + "/" + rest) == OtherCategory
  {
    SegmentEnds(folder, [], rest);
    assert [] + folder == folder;
    DocsPrefixIgnored(folder + "/" + rest);
    assert "docs/" + (folder + "/" + rest) == "docs/" + folder + "/" + rest;
    var segments := Segments(folder + "/" + rest, []);
    assert segments[0] == folder;
    ListedFolder(folder);
  }

  lemma {:induction false} ListedFolder(folder: string)
    ensures forall i :: 0 <= i < |FOLDERS| && folder == FOLDERS[i].0 ==> CanonicalFolder(folder) == FOLDERS[i].1
    ensures (forall i :: 0 <= i < |FOLDERS| ==> folder != FOLDERS[i].0) ==> CanonicalFolder(folder) == OtherCategory
  {
    assert FOLDERS[0].0[1] == '1' && FOLDERS[1].0[1] == '2' && FOLDERS[2].0[1] == '3' && FOLDERS[3].0[1] == '4';
    assert FOLDERS[4].0[1] == '5' && FOLDERS[5].0[1] == '6' && FOLDERS[6].0[1] == '7';
  }

  /** What decides the type of a document: its file name first, then the category of its path. */
  lemma {:induction false} TypeOfPath(folder: string, filename: string)
    requires '/' !in filename && filename != ""
    ensures var path := folder + "/" + filename;
      && (TypeOf(path) == Readme <==> ReadsAs(filename, "readme.md") || ReadsAs(filename, "index.md"))
      && (TypeOf(path) == Adr <==>
            TypeOf(path) != Readme && (CategoryOf(path) == Decisions || Numbered(filename)))
      && (TypeOf(path) == ChangelogEntry <==>
            TypeOf(path) != Readme && TypeOf(path) != Adr && CategoryOf(path) == Changelog)
      && (TypeOf(path) == Runbook <==>
            TypeOf(path) != Readme && TypeOf(path) != Adr && CategoryOf(path) == Runbooks)
  {
    LastSegment(folder, filename, []);
    LowerAsciiIff(filename, "readme.md");
    LowerAsciiIff(filename, "index.md");
  }

  /** A number of three or four digits, then a dash. */
  lemma {:induction false} NumberedIff(filename: string)
    ensures Numbered(filename) <==> exists digits, rest :: NumberThen(digits, rest, filename)
  {
    if digits, rest :| NumberThen(digits, rest, filename) {
      assert forall i :: 0 <= i < |digits| ==> filename[i] == digits[i] && digits[i] in digits;
      assert filename[|digits|] == '-';
    }
    if |filename| > 3 && Digits(filename, 3) && filename[3] == '-' {
      assert filename == filename[..3] + "-" + filename[4..];
      assert NumberThen(filename[..3], filename[4..], filename);
    } else if |filename| > 4 && Digits(filename, 4) && filename[4] == '-' {
      assert filename == filename[..4] + "-" + filename[5..];
      assert NumberThen(filename[..4], filename[5..], filename);
    }
  }

  ghost predicate NumberThen(digits: string, rest: string, filename: string) {
    && 3 <= |digits| <= 4 && (forall c :: c in digits ==> '0' <= c <= '9')
    && filename == digits + "-" + rest
  }

  /** A leading docs/ changes no category, unless the path already had one. */
  lemma {:induction false} DocsPrefixIgnored(relpath: string)
    ensures !(["docs"] <= Segments(relpath, [])) ==> CategoryOf("docs/" + relpath) == CategoryOf(relpath)
  {
    SegmentEnds("docs", [], relpath);
    assert "docs/" + relpath == "docs" + "/" + relpath;
    assert [] + "docs" == "docs";
    var segments := Segments(relpath, []);
    assert Segments("docs/" + relpath, []) == ["docs"] + segments;
    assert segments != [] ==> (["docs"] + segments)[1] == segments[0];
  }

  // ------------------------------------------------------------------
  // The filter
  // ------------------------------------------------------------------

  /** An empty facet constrains nothing. */
  datatype Filter = Filter(categories: set<Category>, types: set<DocType>)

  predicate IsFilterActive(filter: Filter) {
    filter.categories != {} || filter.types != {}
  }

  predicate MatchesFilter(relpath: string, filter: Filter) {
    && (filter.categories == {} || CategoryOf(relpath) in filter.categories)
    && (filter.types == {} || TypeOf(relpath) in filter.types)
  }

  type Keep = DocFile -> bool

  function Matching(filter: Filter): Keep {
    (file: DocFile) => MatchesFilter(file.relpath, filter)
  }

  function FilterFiles(files: seq<DocFile>, keep: Keep): seq<DocFile> {
    if files == [] then []
    else if keep(files[0]) then [files[0]] + FilterFiles(files[1..], keep)
    else FilterFiles(files[1..], keep)
  }

  /** The folder with only the files kept, or nothing if it would be empty. */
  function FilterFolder(folder: Folder, keep: Keep): Option<Folder>
    decreases folder, 1
  {
    var files := FilterFiles(folder.files, keep);
    var folders := FilterFolders(folder.folders, keep);
    if files == [] && folders == [] then None
    else Some(folder.(folders := folders, files := files))
  }

  function FilterFolders(folders: seq<Folder>, keep: Keep): seq<Folder>
    decreases folders, 0
  {
    if folders == [] then []
    else
      var rest := FilterFolders(folders[1..], keep);
      match FilterFolder(folders[0], keep)
      case None => rest
      case Some(folder) => [folder] + rest
  }

  function FilterTree(tree: Tree, filter: Filter): Tree {
    if !IsFilterActive(filter) then tree
    else tree.(folders := FilterFolders(tree.folders, Matching(filter)),
      files := FilterFiles(tree.files, Matching(filter)))
  }

  // ------------------------------------------------------------------
  // The files of a tree, and where they stand
  // ------------------------------------------------------------------

  /** A file and the names and paths of the folders around it, outermost first. */
  datatype Shelved = Shelved(trail: seq<(string, string)>, file: DocFile)

  ghost function Shelve(files: seq<DocFile>, trail: seq<(string, string)>): seq<Shelved> {
    if files == [] then [] else [Shelved(trail, files[0])] + Shelve(files[1..], trail)
  }

  /** All files in the order the sidebar lists them. */
  ghost function FlattenFolder(folder: Folder, trail: seq<(string, string)>): seq<Shelved>
    decreases folder, 1
  {
    var inside := trail + [(folder.name, folder.relpath)];
    Shelve(folder.files, inside) + FlattenFolders(folder.folders, inside)
  }

  ghost function FlattenFolders(folders: seq<Folder>, trail: seq<(string, string)>): seq<Shelved>
    decreases folders, 0
  {
    if folders == [] then [] else FlattenFolder(folders[0], trail) + FlattenFolders(folders[1..], trail)
  }

  ghost function Flatten(tree: Tree): seq<Shelved> {
    Shelve(tree.files, []) + FlattenFolders(tree.folders, [])
  }

  lemma {:induction false} ShelveLength(files: seq<DocFile>, trail: seq<(string, string)>)
    ensures |Shelve(files, trail)| == |files|
  {
    if files != [] {
      ShelveLength(files[1..], trail);
    }
  }

  /** Counts the files of a tree or folder, recursively. */
  method CountDocFiles(folders: seq<Folder>, files: seq<DocFile>, ghost trail: seq<(string, string)>)
    returns (total: nat)
    ensures total == |Shelve(files, trail) + FlattenFolders(folders, trail)|
    decreases folders
  {
    total := |files|;
    ShelveLength(files, trail);
    var i := 0;
    while i < |folders|
      invariant 0 <= i <= |folders|
      invariant total + |FlattenFolders(folders[i..], trail)| == |files| + |FlattenFolders(folders, trail)|
    {
      assert folders[i..][1..] == folders[i + 1..];
      var inside := CountDocFiles(folders[i].folders, folders[i].files,
        trail + [(folders[i].name, folders[i].relpath)]);
      total := total + inside;
      i := i + 1;
    }
  }

  // ------------------------------------------------------------------
  // What pruning keeps
  // ------------------------------------------------------------------

  ghost function Kept(all: seq<Shelved>, keep: Keep): seq<Shelved> {
    if all == [] then []
    else if keep(all[0].file) then [all[0]] + Kept(all[1..], keep)
    else Kept(all[1..], keep)
  }

  lemma {:induction false} KeptJoin(a: seq<Shelved>, b: seq<Shelved>, keep: Keep)
    ensures Kept(a + b, keep) == Kept(a, keep) + Kept(b, keep)
    decreases |a|
  {
    if a == [] {
      assert a + b == b;
    } else {
      assert (a + b)[1..] == a[1..] + b;
      KeptJoin(a[1..], b, keep);
    }
  }

  lemma {:induction false} ShelveFiltered(files: seq<DocFile>, trail: seq<(string, string)>, keep: Keep)
    ensures Shelve(FilterFiles(files, keep), trail) == Kept(Shelve(files, trail), keep)
    decreases |files|
  {
    if files != [] {
      ShelveFiltered(files[1..], trail, keep);
      var rest := FilterFiles(files[1..], keep);
      assert ([files[0]] + rest)[1..] == rest;
      assert ([Shelved(trail, files[0])] + Shelve(files[1..], trail))[1..] == Shelve(files[1..], trail);
    }
  }

  lemma {:induction false} FlattenFilteredFolder(folder: Folder, trail: seq<(string, string)>, keep: Keep)
    ensures match FilterFolder(folder, keep)
            case None => Kept(FlattenFolder(folder, trail), keep) == []
            case Some(pruned) => FlattenFolder(pruned, trail) == Kept(FlattenFolder(folder, trail), keep)
    decreases folder, 1
  {
    var inside := trail + [(folder.name, folder.relpath)];
    ShelveFiltered(folder.files, inside, keep);
    FlattenFilteredFolders(folder.folders, inside, keep);
    KeptJoin(Shelve(folder.files, inside), FlattenFolders(folder.folders, inside), keep);
  }

  lemma {:induction false} FlattenFilteredFolders(folders: seq<Folder>, trail: seq<(string, string)>, keep: Keep)
    ensures FlattenFolders(FilterFolders(folders, keep), trail) == Kept(FlattenFolders(folders, trail), keep)
    decreases folders, 0
  {
    if folders != [] {
      FlattenFilteredFolder(folders[0], trail, keep);
      FlattenFilteredFolders(folders[1..], trail, keep);
      KeptJoin(FlattenFolder(folders[0], trail), FlattenFolders(folders[1..], trail), keep);
      var pruned := FilterFolder(folders[0], keep);
      var rest := FilterFolders(folders[1..], keep);
      if pruned.Some? {
        assert ([pruned.value] + rest)[1..] == rest;
      }
    }
  }

  lemma {:induction false} KeepAll(all: seq<Shelved>, keep: Keep)
    requires forall s :: s in all ==> keep(s.file)
    ensures Kept(all, keep) == all
    decreases |all|
  {
    if all != [] {
      KeepAll(all[1..], keep);
    }
  }

  /** The pruned sidebar lists exactly the matching files, in the same order and the same folders. */
  lemma {:induction false} FilterKeepsMatches(tree: Tree, filter: Filter)
    ensures Flatten(FilterTree(tree, filter)) == Kept(Flatten(tree), Matching(filter))
  {
    if IsFilterActive(filter) {
      ShelveFiltered(tree.files, [], Matching(filter));
      FlattenFilteredFolders(tree.folders, [], Matching(filter));
      KeptJoin(Shelve(tree.files, []), FlattenFolders(tree.folders, []), Matching(filter));
    } else {
      KeepAll(Flatten(tree), Matching(filter));
    }
  }

  /** The number shown beside the pruned sidebar is the number of matches. */
  method CountMatches(tree: Tree, filter: Filter) returns (total: nat)
    ensures total == |Kept(Flatten(tree), Matching(filter))|
  {
    var pruned := FilterTree(tree, filter);
    total := CountDocFiles(pruned.folders, pruned.files, []);
    FilterKeepsMatches(tree, filter);
  }

  /** Some file below every folder, at every depth. */
  ghost predicate Inhabited(folders: seq<Folder>)
    decreases folders, 0
  {
    folders == [] || (InhabitedFolder(folders[0]) && Inhabited(folders[1..]))
  }

  ghost predicate InhabitedFolder(folder: Folder)
    decreases folder, 1
  {
    FlattenFolder(folder, []) != [] && Inhabited(folder.folders)
  }

  /** A list of inhabited folders holds a file. */
  lemma {:induction false} InhabitedHoldsFile(folders: seq<Folder>, trail: seq<(string, string)>)
    requires folders != [] && Inhabited(folders)
    ensures FlattenFolders(folders, trail) != []
  {
    TrailIndifferent(folders[0], [], trail);
  }

  lemma {:induction false} TrailIndifferent(folder: Folder, a: seq<(string, string)>, b: seq<(string, string)>)
    ensures |FlattenFolder(folder, a)| == |FlattenFolder(folder, b)|
    decreases folder, 1
  {
    ShelveLength(folder.files, a + [(folder.name, folder.relpath)]);
    ShelveLength(folder.files, b + [(folder.name, folder.relpath)]);
    TrailsIndifferent(folder.folders, a + [(folder.name, folder.relpath)], b + [(folder.name, folder.relpath)]);
  }

  lemma {:induction false} TrailsIndifferent(folders: seq<Folder>, a: seq<(string, string)>, b: seq<(string, string)>)
    ensures |FlattenFolders(folders, a)| == |FlattenFolders(folders, b)|
    decreases folders, 0
  {
    if folders != [] {
      TrailIndifferent(folders[0], a, b);
      TrailsIndifferent(folders[1..], a, b);
    }
  }

  lemma {:induction false} PrunedInhabited(folder: Folder, keep: Keep)
    ensures FilterFolder(folder, keep).Some? ==> InhabitedFolder(FilterFolder(folder, keep).value)
    decreases folder, 1
  {
    FoldersInhabited(folder.folders, keep);
    var pruned := FilterFolder(folder, keep);
    if pruned.Some? {
      var inside := [] + [(folder.name, folder.relpath)];
      ShelveLength(pruned.value.files, inside);
      if pruned.value.files == [] {
        InhabitedHoldsFile(pruned.value.folders, inside);
      }
    }
  }

  /** No folder survives the prune without a file somewhere below it. */
  lemma {:induction false} FoldersInhabited(folders: seq<Folder>, keep: Keep)
    ensures Inhabited(FilterFolders(folders, keep))
    decreases folders, 0
  {
    if folders != [] {
      PrunedInhabited(folders[0], keep);
      FoldersInhabited(folders[1..], keep);
      var pruned := FilterFolder(folders[0], keep);
      var rest := FilterFolders(folders[1..], keep);
      if pruned.Some? {
        assert ([pruned.value] + rest)[1..] == rest;
      }
    }
  }

  lemma {:induction false} NoDeadBranch(tree: Tree, filter: Filter)
    requires IsFilterActive(filter)
    ensures Inhabited(FilterTree(tree, filter).folders)
  {
    FoldersInhabited(tree.folders, Matching(filter));
  }

  // ------------------------------------------------------------------
  // Pruning twice
  // ------------------------------------------------------------------

  function Both(first: Keep, second: Keep): Keep {
    (file: DocFile) => first(file) && second(file)
  }

  lemma {:induction false} FilesTwice(files: seq<DocFile>, first: Keep, second: Keep)
    ensures FilterFiles(FilterFiles(files, first), second) == FilterFiles(files, Both(first, second))
    decreases |files|
  {
    if files != [] {
      FilesTwice(files[1..], first, second);
      var rest := FilterFiles(files[1..], first);
      assert ([files[0]] + rest)[1..] == rest;
    }
  }

  lemma {:induction false} FolderTwice(folder: Folder, first: Keep, second: Keep)
    ensures (match FilterFolder(folder, first)
             case None => None
             case Some(pruned) => FilterFolder(pruned, second)) == FilterFolder(folder, Both(first, second))
    decreases folder, 1
  {
    FilesTwice(folder.files, first, second);
    FoldersTwice(folder.folders, first, second);
  }

  /** Pruning twice is pruning once by both conditions. */
  lemma {:induction false} FoldersTwice(folders: seq<Folder>, first: Keep, second: Keep)
    ensures FilterFolders(FilterFolders(folders, first), second) == FilterFolders(folders, Both(first, second))
    decreases folders, 0
  {
    if folders != [] {
      FolderTwice(folders[0], first, second);
      FoldersTwice(folders[1..], first, second);
      var pruned := FilterFolder(folders[0], first);
      var rest := FilterFolders(folders[1..], first);
      if pruned.Some? {
        assert ([pruned.value] + rest)[1..] == rest;
      }
    }
  }

  lemma {:induction false} SameFiles(files: seq<DocFile>, a: Keep, b: Keep)
    requires forall file :: a(file) == b(file)
    ensures FilterFiles(files, a) == FilterFiles(files, b)
    decreases |files|
  {
    if files != [] {
      SameFiles(files[1..], a, b);
    }
  }

  lemma {:induction false} SameFolder(folder: Folder, a: Keep, b: Keep)
    requires forall file :: a(file) == b(file)
    ensures FilterFolder(folder, a) == FilterFolder(folder, b)
    decreases folder, 1
  {
    SameFiles(folder.files, a, b);
    SameFolders(folder.folders, a, b);
  }

  lemma {:induction false} SameFolders(folders: seq<Folder>, a: Keep, b: Keep)
    requires forall file :: a(file) == b(file)
    ensures FilterFolders(folders, a) == FilterFolders(folders, b)
    decreases folders, 0
  {
    if folders != [] {
      SameFolder(folders[0], a, b);
      SameFolders(folders[1..], a, b);
    }
  }

  /** The order in which two filters are applied does not matter. */
  lemma {:induction false} FiltersCommute(tree: Tree, first: Filter, second: Filter)
    ensures FilterTree(FilterTree(tree, first), second) == FilterTree(FilterTree(tree, second), first)
  {
    if IsFilterActive(first) && IsFilterActive(second) {
      var a, b := Matching(first), Matching(second);
      FilesTwice(tree.files, a, b);
      FilesTwice(tree.files, b, a);
      FoldersTwice(tree.folders, a, b);
      FoldersTwice(tree.folders, b, a);
      SameFiles(tree.files, Both(a, b), Both(b, a));
      SameFolders(tree.folders, Both(a, b), Both(b, a));
    }
  }

  /** Two facets together are one after the other; within a facet, more choices keep what either keeps. */
  lemma {:induction false} FacetsCompose(tree: Tree, categories: set<Category>, types: set<DocType>)
    ensures FilterTree(tree, Filter(categories, types))
         == FilterTree(FilterTree(tree, Filter(categories, {})), Filter({}, types))
  {
    var c, t, both := Filter(categories, {}), Filter({}, types), Filter(categories, types);
    if IsFilterActive(c) && IsFilterActive(t) {
      FilesTwice(tree.files, Matching(c), Matching(t));
      FoldersTwice(tree.folders, Matching(c), Matching(t));
      SameFiles(tree.files, Both(Matching(c), Matching(t)), Matching(both));
      SameFolders(tree.folders, Both(Matching(c), Matching(t)), Matching(both));
    }
  }

  lemma {:induction false} KeptMembers(all: seq<Shelved>, keep: Keep, s: Shelved)
    ensures s in Kept(all, keep) <==> s in all && keep(s.file)
    decreases |all|
  {
    if all != [] {
      KeptMembers(all[1..], keep, s);
      assert all == [all[0]] + all[1..];
    }
  }

  /** One facet keeps exactly the files that have one of the chosen values. */
  lemma {:induction false} OneFacetKeeps(tree: Tree, categories: set<Category>, types: set<DocType>, s: Shelved)
    ensures categories != {} ==> (s in Flatten(FilterTree(tree, Filter(categories, {}))) <==>
      s in Flatten(tree) && CategoryOf(s.file.relpath) in categories)
    ensures types != {} ==> (s in Flatten(FilterTree(tree, Filter({}, types))) <==>
      s in Flatten(tree) && TypeOf(s.file.relpath) in types)
  {
    FilterKeepsMatches(tree, Filter(categories, {}));
    FilterKeepsMatches(tree, Filter({}, types));
    KeptMembers(Flatten(tree), Matching(Filter(categories, {})), s);
    KeptMembers(Flatten(tree), Matching(Filter({}, types)), s);
  }

  /** Filtering a filtered tree again changes nothing. */
  lemma {:induction false} FilterIdempotent(tree: Tree, filter: Filter)
    ensures FilterTree(FilterTree(tree, filter), filter) == FilterTree(tree, filter)
  {
    if IsFilterActive(filter) {
      var a := Matching(filter);
      FilesTwice(tree.files, a, a);
      FoldersTwice(tree.folders, a, a);
      SameFiles(tree.files, Both(a, a), a);
      SameFolders(tree.folders, Both(a, a), a);
    }
  }
}

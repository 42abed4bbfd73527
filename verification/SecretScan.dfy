/**
 * The repository check for forgotten Vault tokens: a walk over the tree with an explicit
 * stack, and a search of every text file after one known fake token is taken out.
 */
module SecretScan {
  import opened Prelude

  /** A directory, one that cannot be listed, or a file; a file that cannot be read has no text. */
  datatype Node =
    | Dir(name: string, entries: seq<Node>)
    | Unlistable(name: string)
    | File(name: string, text: Option<string>)

  predicate IsDir(node: Node) {
    !node.File?
  }

  const SKIP_DIRS := {
    ".git", ".venv", "venv", "node_modules", "__pycache__", ".mypy_cache", ".ruff_cache", ".pytest_cache",
    "htmlcov", "dist", "build", ".next", "playwright-report", "test-results", ".dev" }

  const TEXT_SUFFIXES := {
    "", ".py", ".pyi", ".sh", ".bash", ".ps1", ".psm1", ".cmd", ".bat", ".md", ".txt", ".rst", ".yml", ".yaml",
    ".json", ".toml", ".ini", ".cfg", ".env", ".example", ".hcl", ".tf", ".conf", ".js", ".jsx", ".ts", ".tsx",
    ".sql", ".dockerfile", ".tpl" }

  const SELF_NAME := "check_no_secret_artifacts.py"

  /** From the last dot on, unless the name starts or ends with that dot. */
  function Suffix(name: string, end: nat): string
    requires end <= |name|
  {
    if end == 0 then ""
    else if name[end - 1] == '.' then (if 1 < end < |name| then name[end - 1..] else "")
    else Suffix(name, end - 1)
  }

  predicate IsRuntimeEnvFile(name: string) {
    !EndsWith(name, ".example") && (name == ".env" || ".env." <= name)
  }

  /** The files whose text is searched. */
  predicate Eligible(name: string) {
    name != SELF_NAME && !IsRuntimeEnvFile(name) && LowerAscii(Suffix(name, |name|)) in TEXT_SUFFIXES
  }

  predicate SkippedDir(name: string) {
    name in SKIP_DIRS
  }

  /** The suffix of a name is its last dot with something before and behind it, and what follows. */
  lemma {:induction false} SuffixIs(stem: string, extension: string)
    requires stem != "" && extension != "" && '.' !in extension
    ensures Suffix(stem + "." + extension, |stem + "." + extension|) == "." + extension
  {
    SuffixFrom(stem, extension, |extension|);
  }

  lemma {:induction false} SuffixFrom(stem: string, extension: string, k: nat)
    requires stem != "" && extension != "" && '.' !in extension && k <= |extension|
    ensures Suffix(stem + "." + extension, |stem| + 1 + k) == "." + extension
  {
    var name := stem + "." + extension;
    if k > 0 {
      assert name[|stem| + k] == extension[k - 1];
      SuffixFrom(stem, extension, k - 1);
    } else {
      assert name[|stem|] == '.' && name[|stem|..] == "." + extension;
    }
  }

  /** A name without a dot, with only a leading one, or ending in one has none. */
  lemma {:induction false} NoSuffix(name: string)
    requires '.' !in name
    ensures Suffix(name, |name|) == "" && Suffix("." + name, |name| + 1) == ""
    ensures Suffix(name + ".", |name| + 1) == ""
  {
    NoDotBelow(name, |name|);
    NoDotBelow("." + name, |name| + 1);
  }

  lemma {:induction false} NoDotBelow(name: string, end: nat)
    requires end <= |name| && forall i :: 0 < i < end ==> name[i] != '.'
    ensures Suffix(name, end) == ""
  {
    if end > 0 && name[end - 1] != '.' {
      NoDotBelow(name, end - 1);
    }
  }

  /** A .env is left out, and so is one with more behind a second dot, unless it ends in .example. */
  lemma {:induction false} EnvFiles(rest: string)
    ensures !Eligible(".env")
    ensures Eligible(".env." + rest) <==> exists before :: ".env." + rest == before + ".example"
  {
    var name := ".env." + rest;
    EndsWithIff(name, ".example");
    if before :| name == before + ".example" {
      assert name[2] == 'n' && ".example"[2] == 'x';
      assert name[0] == before[0] == '.';
      ExampleEligible(before);
    }
  }

  lemma {:induction false} ExampleEligible(before: string)
    requires before != "" && before[0] == '.'
    ensures Eligible(before + ".example")
  {
    var name := before + ".example";
    SuffixIs(before, "example");
    assert name == before + "." + "example" && "." + "example" == ".example";
    EndsWithIff(name, ".example");
    ExampleSearched();
    assert name[0] == '.' && SELF_NAME[0] == 'c';
  }

  lemma {:induction false} ExampleSearched()
    ensures LowerAscii(".example") == ".example" && ".example" in TEXT_SUFFIXES
  {
    LowerAsciiIff(".example", ".example");
  }

  /** Capitals in the extension make no difference, and a listed extension is searched. */
  lemma {:induction false} ExtensionDecides(stem: string, extension: string)
    requires stem != "" && extension != "" && '.' !in extension
    requires stem + "." + extension != SELF_NAME && !IsRuntimeEnvFile(stem + "." + extension)
    ensures Eligible(stem + "." + extension) <==> LowerAscii("." + extension) in TEXT_SUFFIXES
  {
    SuffixIs(stem, extension);
  }

  // ------------------------------------------------------------------
  // The walk
  // ------------------------------------------------------------------

  type Path = seq<string>

  datatype Found = Found(path: Path, text: Option<string>)

  /** The eligible files below a directory, by recursion. */
  ghost function FilesOf(path: Path, dir: Node): seq<Found>
    requires IsDir(dir)
    decreases dir, 1
  {
    if dir.Dir? then FilesOfEntries(path, dir.entries) else []
  }

  ghost function FilesOfEntry(path: Path, entry: Node): seq<Found>
    decreases entry, 2
  {
    match entry
    case File(name, text) => if Eligible(name) then [Found(path + [name], text)] else []
    case _ => if SkippedDir(entry.name) then [] else FilesOf(path + [entry.name], entry)
  }

  ghost function FilesOfEntries(path: Path, entries: seq<Node>): seq<Found>
    decreases entries, 0
  {
    if entries == [] then [] else FilesOfEntry(path, entries[0]) + FilesOfEntries(path, entries[1..])
  }

  /** A directory waiting on the stack. */
  datatype Waiting = Waiting(path: Path, dir: Node)

  ghost predicate AllDirs(stack: seq<Waiting>) {
    forall k :: 0 <= k < |stack| ==> IsDir(stack[k].dir)
  }

  ghost function FilesOfStack(stack: seq<Waiting>): multiset<Found>
    requires AllDirs(stack)
  {
    if stack == [] then multiset{}
    else
      var n := |stack| - 1;
      FilesOfStack(stack[..n]) + multiset(FilesOf(stack[n].path, stack[n].dir))
  }

  ghost function Size(node: Node): nat
    decreases node, 1
  {
    match node
    case Dir(_, entries) => 1 + SizeOfEntries(entries)
    case Unlistable(_) => 1
    case File(_, _) => 0
  }

  ghost function SizeOfEntries(entries: seq<Node>): nat
    decreases entries, 0
  {
    if entries == [] then 0 else Size(entries[0]) + SizeOfEntries(entries[1..])
  }

  ghost function SizeOfStack(stack: seq<Waiting>): nat {
    if stack == [] then 0 else SizeOfStack(stack[..|stack| - 1]) + Size(stack[|stack| - 1].dir)
  }

  lemma {:induction false} Pushed(stack: seq<Waiting>, w: Waiting)
    requires AllDirs(stack) && IsDir(w.dir)
    ensures AllDirs(stack + [w])
    ensures FilesOfStack(stack + [w]) == FilesOfStack(stack) + multiset(FilesOf(w.path, w.dir))
    ensures SizeOfStack(stack + [w]) == SizeOfStack(stack) + Size(w.dir)
  {
    assert (stack + [w])[..|stack|] == stack;
  }

  /** One directory: its files are yielded, its subdirectories pushed. */
  method VisitEntries(path: Path, entries: seq<Node>, stack0: seq<Waiting>)
    returns (yielded: seq<Found>, stack: seq<Waiting>)
    requires AllDirs(stack0)
    ensures AllDirs(stack)
    ensures multiset(yielded) + FilesOfStack(stack) == FilesOfStack(stack0) + multiset(FilesOfEntries(path, entries))
    ensures SizeOfStack(stack) <= SizeOfStack(stack0) + SizeOfEntries(entries)
  {
    yielded, stack := [], stack0;
    var i := 0;
    while i < |entries|
      invariant 0 <= i <= |entries| && AllDirs(stack)
      invariant multiset(yielded) + FilesOfStack(stack) + multiset(FilesOfEntries(path, entries[i..]))
             == FilesOfStack(stack0) + multiset(FilesOfEntries(path, entries))
      invariant SizeOfStack(stack) + SizeOfEntries(entries[i..]) <= SizeOfStack(stack0) + SizeOfEntries(entries)
    {
      var entry := entries[i];
      assert entries[i..][1..] == entries[i + 1..];
      if IsDir(entry) {
        if !SkippedDir(entry.name) {
          Pushed(stack, Waiting(path + [entry.name], entry));
          stack := stack + [Waiting(path + [entry.name], entry)];
        }
      } else if Eligible(entry.name) {
        yielded := yielded + [Found(path + [entry.name], entry.text)];
      }
      i := i + 1;
    }
  }

  lemma {:induction false} MoveFound(total: multiset<Found>, found: multiset<Found>, here: multiset<Found>,
      rest: multiset<Found>, yielded: multiset<Found>, deeper: multiset<Found>)
    requires found + (rest + here) == total && yielded + deeper == rest + here
    ensures found + yielded + deeper == total
  {
  }

  /** The walk yields what the recursion lists, each file as often. */
  method IterFiles(root: Node) returns (found: seq<Found>)
    requires IsDir(root)
    ensures multiset(found) == multiset(FilesOf([], root))
  {
    found := [];
    var stack := [Waiting([], root)];
    Pushed([], Waiting([], root));
    assert [] + [Waiting([], root)] == stack;
    while stack != []
      invariant AllDirs(stack)
      invariant multiset(found) + FilesOfStack(stack) == multiset(FilesOf([], root))
      decreases SizeOfStack(stack)
    {
      var current := stack[|stack| - 1];
      stack := stack[..|stack| - 1];
      if current.dir.Dir? {
        var yielded, deeper := VisitEntries(current.path, current.dir.entries, stack);
        MoveFound(multiset(FilesOf([], root)), multiset(found), multiset(FilesOf(current.path, current.dir)),
                  FilesOfStack(stack), multiset(yielded), FilesOfStack(deeper));
        found, stack := found + yielded, deeper;
      }
    }
  }

  // ------------------------------------------------------------------
  // What the recursion lists
  // ------------------------------------------------------------------

  /** Following the names of path leads to an eligible file through readable directories, none of them skipped. */
  ghost predicate LeadsTo(entries: seq<Node>, path: Path, text: Option<string>)
    decreases path
  {
    path != [] && exists k :: 0 <= k < |entries| && EntryLeadsTo(entries[k], path, text)
  }

  ghost predicate EntryLeadsTo(entry: Node, path: Path, text: Option<string>)
    requires path != []
    decreases path, 0
  {
    && entry.name == path[0]
    && if |path| == 1 then entry.File? && entry.text == text && Eligible(entry.name)
       else entry.Dir? && !SkippedDir(entry.name) && LeadsTo(entry.entries, path[1..], text)
  }

  lemma {:induction false} EntryListed(at: Path, entry: Node, f: Found)
    ensures f in FilesOfEntry(at, entry) <==>
      at < f.path && EntryLeadsTo(entry, f.path[|at|..], f.text)
    decreases entry, 2
  {
    var rest := if at < f.path then f.path[|at|..] else [];
    if at < f.path {
      assert at + rest == f.path;
    }
    match entry
    case Dir(name, entries) =>
      EntriesListed(at + [name], entries, f);
      if at < f.path {
        assert rest[0] == name ==> at + [name] <= f.path;
        assert |f.path| > |at| + 1 ==> rest[1..] == f.path[|at| + 1..];
      }
    case Unlistable(_) =>
    case File(name, text) =>
      if at < f.path && |rest| == 1 {
        assert rest == [rest[0]];
      }
  }

  /** A file is listed exactly when its path leads to it. */
  lemma {:induction false} EntriesListed(at: Path, entries: seq<Node>, f: Found)
    ensures f in FilesOfEntries(at, entries) <==> at < f.path && LeadsTo(entries, f.path[|at|..], f.text)
    decreases entries, 0
  {
    if entries != [] {
      EntryListed(at, entries[0], f);
      EntriesListed(at, entries[1..], f);
      if at < f.path {
        var rest := f.path[|at|..];
        if LeadsTo(entries, rest, f.text) {
          var k :| 0 <= k < |entries| && EntryLeadsTo(entries[k], rest, f.text);
          assert k > 0 ==> entries[1..][k - 1] == entries[k];
        }
        if LeadsTo(entries[1..], rest, f.text) {
          var k :| 0 <= k < |entries[1..]| && EntryLeadsTo(entries[1..][k], rest, f.text);
          assert entries[k + 1] == entries[1..][k];
        }
      }
    }
  }

  /** No directory holds two entries of one name. */
  ghost predicate DistinctNames(entries: seq<Node>)
    decreases entries, 0
  {
    && (forall i, j :: 0 <= i < j < |entries| ==> entries[i].name != entries[j].name)
    && (forall i :: 0 <= i < |entries| && entries[i].Dir? ==> DistinctNames(entries[i].entries))
  }

  ghost predicate DistinctPaths(found: seq<Found>) {
    forall i, j :: 0 <= i < j < |found| ==> found[i].path != found[j].path
  }

  lemma {:induction false} JoinDistinctPaths(a: seq<Found>, b: seq<Found>)
    requires DistinctPaths(a) && DistinctPaths(b)
    requires forall i, j :: 0 <= i < |a| && 0 <= j < |b| ==> a[i].path != b[j].path
    ensures DistinctPaths(a + b)
  {
  }

  lemma {:induction false} EntriesOnce(at: Path, entries: seq<Node>)
    requires DistinctNames(entries)
    ensures DistinctPaths(FilesOfEntries(at, entries))
    decreases entries, 0
  {
    if entries != [] {
      var first, rest := FilesOfEntry(at, entries[0]), FilesOfEntries(at, entries[1..]);
      EntriesOnce(at, entries[1..]);
      if entries[0].Dir? {
        var below := at + [entries[0].name];
        EntriesOnce(below, entries[0].entries);
        assert FilesOf(below, entries[0]) == FilesOfEntries(below, entries[0].entries);
        assert first == [] || first == FilesOf(below, entries[0]);
      } else {
        assert entries[0].Unlistable? ==> FilesOf(at + [entries[0].name], entries[0]) == [];
        assert |first| <= 1;
      }
      forall i, j | 0 <= i < |first| && 0 <= j < |rest|
        ensures first[i].path != rest[j].path
      {
        EntryListed(at, entries[0], first[i]);
        EntriesListed(at, entries[1..], rest[j]);
        assert first[i] in first && rest[j] in rest;
        assert first[i].path[|at|] == entries[0].name;
        assert rest[j].path[|at|] != entries[0].name;
      }
      JoinDistinctPaths(first, rest);
    }
  }

  lemma {:induction false} SamePaths(a: seq<Found>, b: seq<Found>)
    requires multiset(a) == multiset(b) && DistinctPaths(b)
    ensures DistinctPaths(a)
  {
    forall i, j | 0 <= i < j < |a|
      ensures a[i].path != a[j].path
    {
      if a[i] == a[j] {
        TwiceInMultiset(a, i, j);
        OnceInMultiset(b, a[i]);
      } else {
        assert a[i] in multiset(a) && a[j] in multiset(a);
        assert a[i] in b && a[j] in b;
      }
    }
  }

  lemma {:induction false} TwiceInMultiset<T>(s: seq<T>, i: nat, j: nat)
    requires i < j < |s| && s[i] == s[j]
    ensures multiset(s)[s[i]] >= 2
  {
    assert s == s[..j] + s[j..];
    assert s[i] in s[..j] && s[j] in s[j..];
  }

  lemma {:induction false} OnceInMultiset(s: seq<Found>, f: Found)
    requires DistinctPaths(s)
    ensures multiset(s)[f] <= 1
  {
    if s != [] {
      OnceInMultiset(s[1..], f);
      assert s == [s[0]] + s[1..];
      if s[0] == f {
        assert f !in s[1..];
      }
    }
  }

  /** The walk yields each eligible file exactly once: those reached through readable directories,
   *  none of them skipped. */
  method EligibleFiles(root: Node) returns (found: seq<Found>)
    requires root.Dir? && DistinctNames(root.entries)
    ensures DistinctPaths(found)
    ensures forall f :: f in found <==> LeadsTo(root.entries, f.path, f.text)
  {
    found := IterFiles(root);
    var all := FilesOf([], root);
    EntriesOnce([], root.entries);
    SamePaths(found, all);
    forall f
      ensures f in found <==> LeadsTo(root.entries, f.path, f.text)
    {
      EntriesListed([], root.entries, f);
      assert f in multiset(found) <==> f in multiset(all);
      assert f.path != [] ==> f.path[0..] == f.path;
    }
  }
}

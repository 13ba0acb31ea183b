/**
 Splitting the tracked files of the repository into the Go modules that are published. Every file goes to the innermost
 module above it; modules under the top-level directory "internal" are left out.
 */
module PublishableModules {
  import opened Ordering

  /** A module's directory relative to the root ("" for the root module) and its files relative to that directory. */
  datatype ModuleSource = ModuleSource(dir: string, files: seq<string>)

  // --- Paths ---------------------------------------------------------------------------------------------------

  predicate HasPrefix(s: string, prefix: string) {
    |prefix| <= |s| && s[..|prefix|] == prefix
  }

  function TrimPrefix(s: string, prefix: string): string {
    if HasPrefix(s, prefix) then s[|prefix|..] else s
  }

  /** Where the last slash is, or -1. */
  function LastSlash(s: string): (i: int)
    ensures -1 <= i < |s| && (i >= 0 ==> s[i] == '/')
    ensures forall k :: i < k < |s| ==> s[k] != '/'
  {
    if s == "" then -1
    else if s[|s| - 1] == '/' then |s| - 1
    else LastSlash(s[..|s| - 1])
  }

  /** The directory and the last element of a path. */
  function SplitSlashPath(file: string): (r: (string, string))
    ensures '/' !in r.1
    ensures if '/' in file then file == r.0 + "/" + r.1 else r == ("", file)
  {
    var index := LastSlash(file);
    if index < 0 then ("", file) else (file[..index], file[index + 1..])
  }

  /** The file lies somewhere below the directory. */
  predicate Under(file: string, dir: string) {
    HasPrefix(file, dir + "/")
  }

  predicate IsInternal(dir: string) {
    dir == "internal" || HasPrefix(dir, "internal/")
  }

  // --- Innermost owners ----------------------------------------------------------------------------------------

  /** dir is the innermost of the nested modules above the file, or "" when there is none. */
  ghost predicate IsInnermost(file: string, dirs: seq<string>, dir: string) {
    && (dir == "" || (dir in dirs && Under(file, dir)))
    && forall other :: other in dirs && other != "" && Under(file, other) ==> |other| <= |dir|
  }

  lemma InnermostIsUnique(file: string, dirs: seq<string>, a: string, b: string)
    requires IsInnermost(file, dirs, a) && IsInnermost(file, dirs, b)
    ensures a == b
  {
    if a != "" && b != "" {
      assert a == file[..|a|] && b == file[..|b|] by {
        PrefixOf(file, a);
        PrefixOf(file, b);
      }
    }
  }

  lemma PrefixOf(file: string, dir: string)
    requires Under(file, dir)
    ensures |dir| < |file| && dir == file[..|dir|] && file[|dir|] == '/'
  {
  }

  /** The owner after looking at the given directories. */
  function Owner(file: string, dirs: seq<string>): string {
    if dirs == [] then ""
    else
      var owner, dir := Owner(file, dirs[..|dirs| - 1]), dirs[|dirs| - 1];
      if dir != "" && Under(file, dir) && |dir| > |owner| then dir else owner
  }

  lemma {:induction false} OwnerIsInnermost(file: string, dirs: seq<string>)
    ensures IsInnermost(file, dirs, Owner(file, dirs))
  {
    if dirs != [] {
      var front := dirs[..|dirs| - 1];
      OwnerIsInnermost(file, front);
      assert dirs == front + [dirs[|dirs| - 1]];
    }
  }

  /** The files a directory owns, relative to it and in their order. */
  function Owned(files: seq<string>, dirs: seq<string>, dir: string): seq<string> {
    if files == [] then []
    else
      var front, file := Owned(files[..|files| - 1], dirs, dir), files[|files| - 1];
      if Owner(file, dirs) == dir then front + [TrimPrefix(file, dir + "/")] else front
  }

  /** The root, then the directory of every nested go.mod. */
  function ModuleDirs(files: seq<string>): seq<string> {
    if files == [] then [""]
    else ModuleDirs(files[..|files| - 1]) + NestedDir(files[|files| - 1])
  }

  /** The directory a nested go.mod makes a module. */
  function NestedDir(file: string): seq<string> {
    var (dir, name) := SplitSlashPath(file);
    if name == "go.mod" && dir != "" then [dir] else []
  }

  lemma InJoined<T>(all: seq<T>, first: seq<T>, second: seq<T>, x: T)
    requires all == first + second
    ensures x in all <==> x in first || x in second
  {
  }

  lemma NestedDirIff(file: string, dir: string)
    ensures dir in NestedDir(file) <==> dir != "" && file == dir + "/" + "go.mod"
  {
    if dir != "" {
      GoModPath(file, dir);
    }
  }

  lemma {:induction false} NestedDirsHaveGoMod(files: seq<string>, dir: string)
    ensures dir in ModuleDirs(files) <==> dir == "" || dir + "/" + "go.mod" in files
  {
    if files != [] {
      var front, file, path := files[..|files| - 1], files[|files| - 1], dir + "/" + "go.mod";
      NestedDirsHaveGoMod(front, dir);
      NestedDirIff(file, dir);
      InJoined(files, front, [file], path);
      InJoined(ModuleDirs(files), ModuleDirs(front), NestedDir(file), dir);
    }
  }

  lemma GoModPath(file: string, dir: string)
    requires dir != ""
    ensures SplitSlashPath(file) == (dir, "go.mod") <==> file == dir + "/" + "go.mod"
  {
    if file == dir + "/" + "go.mod" {
      assert file[|dir|] == '/';
      assert forall k :: |dir| < k < |file| ==> file[k] == "go.mod"[k - |dir| - 1];
      assert LastSlash(file) == |dir|;
      assert file[..|dir|] == dir && file[|dir| + 1..] == "go.mod";
    }
  }

  // --- The publication -----------------------------------------------------------------------------------------

  predicate NoDuplicates(s: seq<string>) {
    forall i, j :: 0 <= i < j < |s| ==> s[i] != s[j]
  }

  predicate StrictlySorted(modules: seq<ModuleSource>) {
    forall i, j :: 0 <= i < j < |modules| ==> LexLt(modules[i].dir, modules[j].dir)
  }

  predicate SortedByDir(modules: seq<ModuleSource>) {
    forall i, j :: 0 <= i < j < |modules| ==> LexLe(modules[i].dir, modules[j].dir)
  }

  /** dir is published: a module outside internal that owns something. */
  predicate Published(files: seq<string>, dir: string) {
    var dirs := ModuleDirs(files);
    dir in dirs && !IsInternal(dir) && Owned(files, dirs, dir) != []
  }

  /** Exactly the published modules, each with exactly the files it owns. */
  ghost predicate IsPublication(files: seq<string>, modules: seq<ModuleSource>) {
    && SortedByDir(modules)
    && (forall k :: 0 <= k < |modules| ==> IsModuleOf(files, modules[k]))
    && (forall dir :: Published(files, dir) ==> exists k :: 0 <= k < |modules| && modules[k].dir == dir)
    && (NoDuplicates(files) ==> StrictlySorted(modules))
  }

  predicate IsModuleOf(files: seq<string>, m: ModuleSource) {
    Published(files, m.dir) && m.files == Owned(files, ModuleDirs(files), m.dir)
  }

  function InsertModule(m: ModuleSource, s: seq<ModuleSource>): (r: seq<ModuleSource>)
    ensures multiset(r) == multiset{m} + multiset(s)
  {
    if s == [] then [m]
    else if LexLe(m.dir, s[0].dir) then [m] + s
    else
      assert s == [s[0]] + s[1..];
      [s[0]] + InsertModule(m, s[1..])
  }

  lemma {:induction false} InsertModuleSorted(m: ModuleSource, s: seq<ModuleSource>)
    requires SortedByDir(s)
    ensures SortedByDir(InsertModule(m, s))
  {
    if s == [] {
    } else if LexLe(m.dir, s[0].dir) {
      forall i | 0 < i < |s|
        ensures LexLe(m.dir, s[i].dir)
      {
        LexTransitive(m.dir, s[0].dir, s[i].dir);
      }
    } else {
      var tail := InsertModule(m, s[1..]);
      LexTotal(m.dir, s[0].dir);
      InsertModuleSorted(m, s[1..]);
      forall i | 0 <= i < |tail|
        ensures LexLe(s[0].dir, tail[i].dir)
      {
        assert tail[i] in multiset(tail);
        assert tail[i] == m || tail[i] in s[1..];
      }
    }
  }

  /** sort.Slice by directory. */
  function SortModules(s: seq<ModuleSource>): (r: seq<ModuleSource>)
    ensures multiset(r) == multiset(s)
  {
    if s == [] then []
    else
      assert s == [s[0]] + s[1..];
      InsertModule(s[0], SortModules(s[1..]))
  }

  lemma {:induction false} SortModulesSorted(s: seq<ModuleSource>)
    ensures SortedByDir(SortModules(s))
  {
    if s != [] {
      SortModulesSorted(s[1..]);
      InsertModuleSorted(s[0], SortModules(s[1..]));
    }
  }

  method FindOwner(file: string, dirs: seq<string>) returns (owner: string)
    ensures owner == Owner(file, dirs)
  {
    owner := "";
    for i := 0 to |dirs|
      invariant owner == Owner(file, dirs[..i])
    {
      var dir := dirs[i];
      assert dirs[..i + 1][..i] == dirs[..i];
      if dir != "" && HasPrefix(file, dir + "/") && |dir| > |owner| {
        owner := dir;
      }
    }
    assert dirs[..|dirs|] == dirs;
  }

  function FilesAt(owned: map<string, seq<string>>, dir: string): seq<string> {
    if dir in owned then owned[dir] else []
  }

  method CollectDirs(files: seq<string>) returns (dirs: seq<string>)
    ensures dirs == ModuleDirs(files)
  {
    dirs := [""];
    for i := 0 to |files|
      invariant dirs == ModuleDirs(files[..i])
    {
      ghost var before := dirs;
      var (dir, name) := SplitSlashPath(files[i]);
      if name == "go.mod" && dir != "" {
        dirs := dirs + [dir];
      }
      assert dirs == before + NestedDir(files[i]);
      assert files[..i + 1][..i] == files[..i];
    }
    assert files[..|files|] == files;
  }

  method AssignFiles(files: seq<string>, dirs: seq<string>) returns (owned: map<string, seq<string>>)
    ensures forall dir :: FilesAt(owned, dir) == Owned(files, dirs, dir)
  {
    owned := map[];
    for i := 0 to |files|
      invariant forall dir :: FilesAt(owned, dir) == Owned(files[..i], dirs, dir)
    {
      var file := files[i];
      assert files[..i + 1][..i] == files[..i];
      var owner := FindOwner(file, dirs);
      owned := owned[owner := FilesAt(owned, owner) + [TrimPrefix(file, owner + "/")]];
    }
    assert files[..|files|] == files;
  }

  /** The modules of the directories seen so far, in their order. */
  function Kept(files: seq<string>, dirs: seq<string>): seq<ModuleSource> {
    if dirs == [] then []
    else
      var front, dir := Kept(files, dirs[..|dirs| - 1]), dirs[|dirs| - 1];
      var owned := Owned(files, ModuleDirs(files), dir);
      if IsInternal(dir) || owned == [] then front else front + [ModuleSource(dir, owned)]
  }

  method Publish(files: seq<string>) returns (modules: seq<ModuleSource>)
    ensures IsPublication(files, modules)
  {
    var dirs := CollectDirs(files);
    var owned := AssignFiles(files, dirs);
    modules := KeepModules(files, dirs, owned);
    KeptIsPublication(files);
    modules := SortModules(modules);
  }

  method KeepModules(ghost files: seq<string>, dirs: seq<string>, owned: map<string, seq<string>>)
    returns (modules: seq<ModuleSource>)
    requires forall dir :: FilesAt(owned, dir) == Owned(files, ModuleDirs(files), dir)
    ensures modules == Kept(files, dirs)
  {
    modules := [];
    for i := 0 to |dirs|
      invariant modules == Kept(files, dirs[..i])
    {
      assert dirs[..i + 1][..i] == dirs[..i];
      var dir := dirs[i];
      var kept := FilesAt(owned, dir);
      if dir == "internal" || HasPrefix(dir, "internal/") || |kept| == 0 {
        continue;
      }
      modules := modules + [ModuleSource(dir, kept)];
    }
    assert dirs[..|dirs|] == dirs;
  }

  // --- Sorting the kept modules gives the publication ----------------------------------------------------------

  lemma {:induction false} KeptModules(files: seq<string>, dirs: seq<string>)
    requires forall dir :: dir in dirs ==> dir in ModuleDirs(files)
    ensures forall k :: 0 <= k < |Kept(files, dirs)| ==>
              IsModuleOf(files, Kept(files, dirs)[k]) && Kept(files, dirs)[k].dir in dirs
    ensures forall dir :: dir in dirs && Published(files, dir) ==>
              ModuleSource(dir, Owned(files, ModuleDirs(files), dir)) in Kept(files, dirs)
  {
    if dirs != [] {
      var front, dir := dirs[..|dirs| - 1], dirs[|dirs| - 1];
      assert dirs == front + [dir];
      KeptModules(files, front);
    }
  }

  lemma {:induction false} KeptDirsDistinct(files: seq<string>, dirs: seq<string>)
    requires NoDuplicates(dirs)
    ensures forall k :: 0 <= k < |Kept(files, dirs)| ==> Kept(files, dirs)[k].dir in dirs
    ensures DistinctDirs(Kept(files, dirs))
  {
    if dirs != [] {
      var front, dir := dirs[..|dirs| - 1], dirs[|dirs| - 1];
      assert dirs == front + [dir] && dir !in front;
      KeptDirsDistinct(files, front);
    }
  }

  predicate DistinctDirs(modules: seq<ModuleSource>) {
    forall i, j :: 0 <= i < j < |modules| ==> modules[i].dir != modules[j].dir
  }

  lemma {:induction false} DistinctDirsOfDistinctFiles(files: seq<string>)
    requires NoDuplicates(files)
    ensures NoDuplicates(ModuleDirs(files))
  {
    if files != [] {
      var front, file := files[..|files| - 1], files[|files| - 1];
      DistinctDirsOfDistinctFiles(front);
      var (dir, name) := SplitSlashPath(file);
      if name == "go.mod" && dir != "" {
        NestedDirsHaveGoMod(front, dir);
        GoModPath(file, dir);
        assert file !in front;
      }
    }
  }

  /** A permutation of modules with distinct directories has distinct directories. */
  lemma PermutedDirsDistinct(a: seq<ModuleSource>, b: seq<ModuleSource>)
    requires multiset(a) == multiset(b) && DistinctDirs(a)
    ensures DistinctDirs(b)
  {
    forall i, j | 0 <= i < j < |b|
      ensures b[i].dir != b[j].dir
    {
      if b[i].dir == b[j].dir {
        assert b[i] in multiset(a) && b[j] in multiset(a);
        TwoOccurrences(b, i, j);
        OneOccurrence(a, b[i]);
      }
    }
  }

  lemma TwoOccurrences(b: seq<ModuleSource>, i: nat, j: nat)
    requires i < j < |b|
    ensures multiset(b)[b[i]] + (if b[i] == b[j] then 0 else 1) >= 1
    ensures b[i] == b[j] ==> multiset(b)[b[i]] >= 2
  {
    assert b == b[..i] + [b[i]] + b[i + 1..j] + [b[j]] + b[j + 1..];
  }

  lemma {:induction false} OneOccurrence(a: seq<ModuleSource>, m: ModuleSource)
    requires DistinctDirs(a)
    ensures multiset(a)[m] <= 1
  {
    if a != [] {
      assert a == [a[0]] + a[1..];
      OneOccurrence(a[1..], m);
      if a[0] == m {
        assert forall i :: 0 <= i < |a[1..]| ==> a[1..][i] != m;
        assert m !in a[1..];
      }
    }
  }

  lemma KeptIsPublication(files: seq<string>)
    ensures IsPublication(files, SortModules(Kept(files, ModuleDirs(files))))
  {
    var kept := Kept(files, ModuleDirs(files));
    var modules := SortModules(kept);
    KeptModules(files, ModuleDirs(files));
    SortModulesSorted(kept);
    forall k | 0 <= k < |modules|
      ensures IsModuleOf(files, modules[k])
    {
      assert modules[k] in multiset(modules);
      assert modules[k] in kept;
    }
    forall dir | Published(files, dir)
      ensures exists k :: 0 <= k < |modules| && modules[k].dir == dir
    {
      var m := ModuleSource(dir, Owned(files, ModuleDirs(files), dir));
      assert m in kept;
      assert m in multiset(modules);
    }
    if NoDuplicates(files) {
      DistinctDirsOfDistinctFiles(files);
      KeptDirsDistinct(files, ModuleDirs(files));
      PermutedDirsDistinct(kept, modules);
    }
  }

  // --- What a publication means --------------------------------------------------------------------------------

  /** A path put back together from a module's directory and a file of the module. */
  function Rejoin(dir: string, file: string): string {
    if dir == "" then file else dir + "/" + file
  }

  /** strings.Split on slashes: the parts of a path. */
  function Parts(path: string): (r: seq<string>)
    ensures r != []
  {
    if '/' !in path then [path]
    else
      var (dir, name) := SplitSlashPath(path);
      Parts(dir) + [name]
  }

  /** safeRelativePath: no part is empty or a dot or two. trackedSourceFiles refuses every other path. */
  predicate SafeRelativePath(path: string) {
    forall part :: part in Parts(path) ==> part != "" && part != "." && part != ".."
  }

  lemma PrefixAt(s: string, prefix: string, i: nat)
    requires HasPrefix(s, prefix) && i < |prefix|
    ensures s[i] == prefix[i]
  {
    assert s[..|prefix|][i] == s[i];
  }

  /** A directory is internal exactly when its first part is. */
  lemma {:induction false} InternalIff(dir: string)
    ensures IsInternal(dir) <==> Parts(dir)[0] == "internal"
    decreases |dir|
  {
    if '/' in dir {
      var (front, name) := SplitSlashPath(dir);
      assert dir == front + "/" + name && Parts(dir) == Parts(front) + [name];
      InternalIff(front);
      InternalFront(dir, front, name);
    } else if HasPrefix(dir, "internal/") {
      PrefixAt(dir, "internal/", 8);
    }
  }

  lemma InternalFront(dir: string, front: string, name: string)
    requires dir == front + "/" + name
    ensures IsInternal(dir) <==> IsInternal(front)
  {
    var prefix, n := "internal/", |front|;
    assert dir[n] == '/' && dir[..n] == front;
    assert forall i :: 0 <= i < 8 ==> prefix[i] != '/' && "internal"[i] == prefix[i];
    if HasPrefix(dir, prefix) {
      if n < 8 {
        PrefixAt(dir, prefix, n);
      } else {
        assert n == 8 ==> front == prefix[..8];
        assert n > 8 ==> front[..9] == dir[..9];
      }
    }
    if IsInternal(front) {
      assert n == 8 ==> dir[..9] == front + "/";
      assert n > 8 ==> dir[..9] == front[..9];
    }
  }

  lemma {:induction false} FirstPart(path: string)
    requires HasPrefix(path, "/")
    ensures "" in Parts(path)
    decreases |path|
  {
    assert path[0] == '/';
    var (dir, name) := SplitSlashPath(path);
    assert Parts(path) == Parts(dir) + [name];
    if dir != "" {
      assert path == dir + "/" + name && dir[0] == path[0];
      FirstPart(dir);
    } else {
      assert Parts(dir)[0] == "";
    }
  }

  /** Trimming an owner's directory from a path loses nothing, unless the root's empty directory meets a slash. */
  lemma RejoinRestores(file: string, dirs: seq<string>)
    ensures var dir := Owner(file, dirs);
      Rejoin(dir, TrimPrefix(file, dir + "/")) == file <==> !(dir == "" && HasPrefix(file, "/"))
  {
  }

  /** Every path that trackedSourceFiles lets through is restored by putting its module's directory back. */
  lemma SafePathsRejoin(file: string, dirs: seq<string>)
    requires SafeRelativePath(file)
    ensures !HasPrefix(file, "/") && Rejoin(Owner(file, dirs), TrimPrefix(file, Owner(file, dirs) + "/")) == file
  {
    RejoinRestores(file, dirs);
    if HasPrefix(file, "/") {
      FirstPart(file);
    }
  }

  lemma {:induction false} OwnedContents(files: seq<string>, dirs: seq<string>, dir: string)
    ensures forall file :: file in files && Owner(file, dirs) == dir ==>
              TrimPrefix(file, dir + "/") in Owned(files, dirs, dir)
    ensures forall r :: r in Owned(files, dirs, dir) ==>
              exists file :: file in files && Owner(file, dirs) == dir && r == TrimPrefix(file, dir + "/")
  {
    if files != [] {
      var front, last := files[..|files| - 1], files[|files| - 1];
      assert files == front + [last];
      OwnedContents(front, dirs, dir);
    }
  }

  /** No path starts with a slash, as none that trackedSourceFiles lets through does. */
  predicate Relative(files: seq<string>) {
    forall file :: file in files ==> !HasPrefix(file, "/")
  }

  lemma SafeFilesAreRelative(files: seq<string>)
    requires forall file :: file in files ==> SafeRelativePath(file)
    ensures Relative(files)
  {
    forall file | file in files
      ensures !HasPrefix(file, "/")
    {
      SafePathsRejoin(file, []);
    }
  }

  /** What the publication holds is a tracked file, in the module of its innermost directory, under one name there. */
  lemma PublicationIsTracked(files: seq<string>, modules: seq<ModuleSource>, k: nat, r: string)
    requires IsPublication(files, modules) && Relative(files) && k < |modules| && r in modules[k].files
    ensures var file := Rejoin(modules[k].dir, r);
      && file in files && Owner(file, ModuleDirs(files)) == modules[k].dir && r == TrimPrefix(file, modules[k].dir + "/")
  {
    var dirs, dir := ModuleDirs(files), modules[k].dir;
    assert IsModuleOf(files, modules[k]);
    OwnedContents(files, dirs, dir);
    var file :| file in files && Owner(file, dirs) == dir && r == TrimPrefix(file, dir + "/");
    RejoinRestores(file, dirs);
  }

  /** The k-th module publishes the file, under the path that the file has inside it. */
  predicate Holds(modules: seq<ModuleSource>, k: int, file: string) {
    0 <= k < |modules| && exists r :: r in modules[k].files && Rejoin(modules[k].dir, r) == file
  }

  /**
   A tracked file is published by the module of its innermost directory and by no other, or by none, and that exactly
   when its innermost module is internal. No module lists a path twice.
   */
  lemma PublicationPartitions(files: seq<string>, modules: seq<ModuleSource>, file: string)
    requires IsPublication(files, modules) && Relative(files) && NoDuplicates(files) && file in files
    ensures var owner := Owner(file, ModuleDirs(files));
      && IsInnermost(file, ModuleDirs(files), owner)
      && (forall k :: Holds(modules, k, file) ==> modules[k].dir == owner)
      && (forall j, k :: Holds(modules, j, file) && Holds(modules, k, file) ==> j == k)
      && (IsInternal(owner) <==> !exists k :: Holds(modules, k, file))
      && (forall k :: 0 <= k < |modules| ==> NoDuplicates(modules[k].files))
  {
    var dirs := ModuleDirs(files);
    var owner := Owner(file, dirs);
    PublicationAssigns(files, modules, file);
    OnlyOwnerHolds(files, modules, file);
    RejoinRestores(file, dirs);
    if !IsInternal(owner) {
      var k :| 0 <= k < |modules| && modules[k].dir == owner;
      assert Holds(modules, k, file);
    }
    forall k | 0 <= k < |modules|
      ensures NoDuplicates(modules[k].files)
    {
      assert IsModuleOf(files, modules[k]);
      OwnedOnce(files, dirs, modules[k].dir);
    }
  }

  lemma {:induction false} OwnedOnce(files: seq<string>, dirs: seq<string>, dir: string)
    requires Relative(files) && NoDuplicates(files)
    ensures NoDuplicates(Owned(files, dirs, dir))
  {
    if files != [] {
      var front, last := files[..|files| - 1], files[|files| - 1];
      assert files == front + [last] && last !in front;
      OwnedOnce(front, dirs, dir);
      OwnedContents(front, dirs, dir);
      if Owner(last, dirs) == dir && TrimPrefix(last, dir + "/") in Owned(front, dirs, dir) {
        var file :| file in front && Owner(file, dirs) == dir
                    && TrimPrefix(last, dir + "/") == TrimPrefix(file, dir + "/");
        RejoinRestores(file, dirs);
        RejoinRestores(last, dirs);
        assert false;
      }
    }
  }

  lemma OnlyOwnerHolds(files: seq<string>, modules: seq<ModuleSource>, file: string)
    requires IsPublication(files, modules) && Relative(files) && NoDuplicates(files)
    ensures forall k :: Holds(modules, k, file) ==>
              modules[k].dir == Owner(file, ModuleDirs(files)) && !IsInternal(modules[k].dir)
    ensures forall j, k :: Holds(modules, j, file) && Holds(modules, k, file) ==> j == k
  {
    forall k | Holds(modules, k, file)
      ensures modules[k].dir == Owner(file, ModuleDirs(files)) && !IsInternal(modules[k].dir)
    {
      var r :| r in modules[k].files && Rejoin(modules[k].dir, r) == file;
      PublicationIsTracked(files, modules, k, r);
      assert IsModuleOf(files, modules[k]);
    }
  }

  /** Any file is listed, trimmed, by the one module of its innermost directory, unless that is internal. */
  lemma PublicationAssigns(files: seq<string>, modules: seq<ModuleSource>, file: string)
    requires IsPublication(files, modules) && NoDuplicates(files) && file in files
    ensures var owner := Owner(file, ModuleDirs(files));
      && IsInnermost(file, ModuleDirs(files), owner)
      && (forall k :: 0 <= k < |modules| && modules[k].dir == owner ==> TrimPrefix(file, owner + "/") in modules[k].files)
      && (IsInternal(owner) <==> !exists k :: 0 <= k < |modules| && modules[k].dir == owner)
      && (forall j, k :: 0 <= j < k < |modules| ==> !(modules[j].dir == owner && modules[k].dir == owner))
  {
    var dirs := ModuleDirs(files);
    var owner := Owner(file, dirs);
    OwnerIsInnermost(file, dirs);
    OwnedContents(files, dirs, owner);
    NestedDirsHaveGoMod(files, "");
    assert owner in dirs;
    if !IsInternal(owner) {
      assert Published(files, owner);
    }
  }

  lemma GoModIsInnermost(dirs: seq<string>, dir: string)
    requires dir in dirs && dir != ""
    ensures IsInnermost(dir + "/" + "go.mod", dirs, dir)
  {
    var file := dir + "/" + "go.mod";
    assert file[..|dir| + 1] == dir + "/" && file[|dir| + 1..] == "go.mod";
    forall other | other in dirs && other != "" && Under(file, other)
      ensures |other| <= |dir|
    {
      PrefixOf(file, other);
      assert forall k :: |dir| < k < |file| ==> file[k] == "go.mod"[k - |dir| - 1];
    }
  }

  /** A nested module always owns its own go.mod, so it is never empty and is published unless it is internal. */
  lemma NestedModuleOwnsGoMod(files: seq<string>, dir: string)
    requires dir in ModuleDirs(files) && dir != ""
    ensures Owner(dir + "/" + "go.mod", ModuleDirs(files)) == dir
    ensures "go.mod" in Owned(files, ModuleDirs(files), dir)
    ensures Published(files, dir) <==> !IsInternal(dir)
  {
    var dirs, file := ModuleDirs(files), dir + "/" + "go.mod";
    NestedDirsHaveGoMod(files, dir);
    GoModIsInnermost(dirs, dir);
    OwnerIsInnermost(file, dirs);
    InnermostIsUnique(file, dirs, dir, Owner(file, dirs));
    assert TrimPrefix(file, dir + "/") == "go.mod";
    OwnedContents(files, dirs, dir);
  }

  // --- Archive names -------------------------------------------------------------------------------------------

  function ReplaceSlashes(s: string): (r: string)
    ensures |r| == |s| && forall i :: 0 <= i < |s| ==> r[i] == if s[i] == '/' then '-' else s[i]
  {
    seq(|s|, i requires 0 <= i < |s| => if s[i] == '/' then '-' else s[i])
  }

  const ARCHIVE := "cekat-event-sdk-go"

  function ArchiveStem(dir: string): string {
    if dir == "" then ARCHIVE else ARCHIVE + "-" + ReplaceSlashes(dir)
  }

  /** Two directories get the same archive name exactly when they differ only in slashes against hyphens. */
  lemma ArchiveStemCollides(a: string, b: string)
    ensures ArchiveStem(a) == ArchiveStem(b) <==>
            |a| == |b| && forall i :: 0 <= i < |a| ==> a[i] == b[i] || (a[i] in "/-" && b[i] in "/-")
  {
    var stem := ARCHIVE + "-";
    if a != "" && b != "" {
      assert ArchiveStem(a) == stem + ReplaceSlashes(a) && ArchiveStem(b) == stem + ReplaceSlashes(b);
      assert ArchiveStem(a)[|stem|..] == ReplaceSlashes(a) && ArchiveStem(b)[|stem|..] == ReplaceSlashes(b);
      if ReplaceSlashes(a) == ReplaceSlashes(b) {
        forall i | 0 <= i < |a|
          ensures a[i] == b[i] || (a[i] in "/-" && b[i] in "/-")
        {
          assert ReplaceSlashes(a)[i] == ReplaceSlashes(b)[i];
        }
      }
    } else {
      assert |ArchiveStem("")| == |ARCHIVE|;
    }
  }

  /** Two nested modules that are both published and have one archive name. */
  lemma DistinctModulesCollide()
    ensures var files := ["gin-v2" + "/" + "go.mod", "gin/v2" + "/" + "go.mod"];
      && "gin-v2" != "gin/v2" && ArchiveStem("gin-v2") == ArchiveStem("gin/v2")
      && Published(files, "gin-v2") && Published(files, "gin/v2")
  {
    var files := ["gin-v2" + "/" + "go.mod", "gin/v2" + "/" + "go.mod"];
    assert files[0] in files && files[1] in files;
    NestedModuleIsPublished(files, "gin-v2");
    NestedModuleIsPublished(files, "gin/v2");
    ArchiveStemCollides("gin-v2", "gin/v2");
  }

  lemma NestedModuleIsPublished(files: seq<string>, dir: string)
    requires dir != "" && dir + "/" + "go.mod" in files && !IsInternal(dir)
    ensures Published(files, dir)
  {
    NestedDirsHaveGoMod(files, dir);
    NestedModuleOwnsGoMod(files, dir);
  }
}

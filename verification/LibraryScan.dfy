/**
 The package files a library offers as entries: a range scan of the file index, each
 init classed by a walk up its directories.

 A package directory offers every `__init__.py` of runtime code below it. One that lies
 below another such init of the same package is a subpackage, since importing it loads
 the other first; the package's own is not. The scan starts at the package's prefix and
 stops at the first file without it, which on an ordered index is the plain filter; the
 walk up from an init visits exactly the directories above its own.
 */
module LibraryScan {
  import opened Common
  import opened EntryMerge
  import opened Text

  /** The module a path stands for: an init stands for its directory. */
  function StripInit(path: string): string {
    if EndsWith(path, INIT) then path[..|path| - |INIT|] else path
  }

  /** Some directory above the module has an init that `isInit` accepts. */
  ghost predicate HasInitAbove(path: string, isInit: string -> bool) {
    exists k :: 0 <= k < |StripInit(path)| && StripInit(path)[k] == '/' && isInit(StripInit(path)[..k] + INIT)
  }

  /** An init is above a module when its directory is above the module's file, or
      above the directory the module is the init of. */
  lemma InitAboveIsADirectoryAbove(dir: string, isInit: string -> bool)
    ensures HasInitAbove(dir + "/__init__.py", isInit) <==>
      exists up, rest :: dir == up + "/" + rest && isInit(up + "/__init__.py")
    ensures !EndsWith(dir, "/__init__.py") ==>
      (HasInitAbove(dir, isInit) <==> exists up, rest :: dir == up + "/" + rest && isInit(up + "/__init__.py"))
  {
    var init := dir + "/__init__.py";
    assert init[|init| - 12..] == "/__init__.py" && init[..|init| - 12] == dir;
    assert StripInit(init) == dir;
    DirectoriesAbove(dir, isInit);
    if !EndsWith(dir, INIT) {
      assert StripInit(dir) == dir;
      assert HasInitAbove(dir, isInit) <==>
        exists k :: 0 <= k < |dir| && dir[k] == '/' && isInit(dir[..k] + INIT);
    }
  }

  lemma DirectoriesAbove(dir: string, isInit: string -> bool)
    ensures (exists k :: 0 <= k < |dir| && dir[k] == '/' && isInit(dir[..k] + INIT)) <==>
      exists up, rest :: dir == up + "/" + rest && isInit(up + INIT)
  {
    if k :| 0 <= k < |dir| && dir[k] == '/' && isInit(dir[..k] + INIT) {
      assert dir == dir[..k] + "/" + dir[k + 1..];
    }
    if up, rest :| dir == up + "/" + rest && isInit(up + INIT) {
      assert dir[|up|] == '/' && dir[..|up|] == up;
    }
  }

  method IsSubmodule(path: string, isInit: string -> bool) returns (r: bool)
    ensures r <==> HasInitAbove(path, isInit)
  {
    ghost var from := StripInit(path);
    var dir := StripInit(path);
    while true
      invariant |dir| <= |from| && dir == from[..|dir|]
      invariant forall k :: |dir| <= k < |from| && from[k] == '/' ==> !isInit(from[..k] + INIT)
      decreases |dir|
    {
      match LastSlash(dir) {
        case None =>
          return false;
        case Some(at) =>
          var parent := dir[..at];
          assert parent == from[..at] && from[at] == '/';
          if isInit(parent + INIT) {
            return true;
          }
          forall k | at <= k < |from| && from[k] == '/' ensures !isInit(from[..k] + INIT) {
            assert k < |dir| ==> dir[k] == from[k];
          }
          dir := parent;
      }
    }
  }

  /** An init of the runtime code inside one package. */
  predicate IsPackageInit(contexts: map<string, FileContext>, prefix: string, init: string) {
    prefix <= init && init in contexts && contexts[init].Runtime?
  }

  ghost function RuleFor(contexts: map<string, FileContext>, prefix: string, path: string): string {
    if HasInitAbove(path, init => IsPackageInit(contexts, prefix, init))
    then "library subpackage" else "library package"
  }

  ghost function PackageEntry(contexts: map<string, FileContext>, prefix: string, path: string): Candidate {
    Candidate(path, None, Runtime, Auto(RuleFor(contexts, prefix, path)))
  }

  /** The plain filter: every runtime init under the package, in path order. */
  ghost function PackageEntries(
    contexts: map<string, FileContext>, prefix: string, paths: seq<string>): seq<Candidate> {
    if paths == [] then []
    else
      PackageEntries(contexts, prefix, paths[..|paths| - 1])
      + if EndsWith(paths[|paths| - 1], INIT) && IsPackageInit(contexts, prefix, paths[|paths| - 1])
        then [PackageEntry(contexts, prefix, paths[|paths| - 1])] else []
  }

  ghost function LibraryEntries(
    contexts: map<string, FileContext>, dirs: seq<string>, paths: seq<string>): seq<Candidate> {
    if dirs == [] then []
    else LibraryEntries(contexts, dirs[..|dirs| - 1], paths) + PackageEntries(contexts, dirs[|dirs| - 1] + "/", paths)
  }

  /** `paths` are the keys of the ordered map `contexts`. */
  method CollectLibraryPackageEntries(paths: seq<string>, contexts: map<string, FileContext>, dirs: seq<string>)
    returns (candidates: seq<Candidate>)
    requires Ascending(paths) && forall p :: p in paths <==> p in contexts
    ensures candidates == LibraryEntries(contexts, dirs, paths)
  {
    candidates := [];
    for d := 0 to |dirs|
      invariant candidates == LibraryEntries(contexts, dirs[..d], paths)
    {
      assert dirs[..d + 1][..d] == dirs[..d];
      var found := CollectPackage(paths, contexts, dirs[d] + "/");
      candidates := candidates + found;
    }
    assert dirs[..|dirs|] == dirs;
  }

  method CollectPackage(paths: seq<string>, contexts: map<string, FileContext>, prefix: string)
    returns (found: seq<Candidate>)
    requires Ascending(paths) && forall p :: p in paths <==> p in contexts
    ensures found == PackageEntries(contexts, prefix, paths)
  {
    var scanned := TakePrefixed(RangeFrom(paths, prefix), prefix);
    ScanIsFilter(paths, prefix);
    WithPrefixMembers(paths, prefix);
    found := [];
    for k := 0 to |scanned|
      invariant found == PackageEntries(contexts, prefix, scanned[..k])
    {
      var path := scanned[k];
      assert scanned[..k + 1][..k] == scanned[..k];
      assert path in scanned;
      if EndsWith(path, INIT) && contexts[path].Runtime? {
        var inPackage := init => IsPackageInit(contexts, prefix, init);
        var below := IsSubmodule(path, inPackage);
        found :=
          found + [Candidate(path, None, Runtime, Auto(if below then "library subpackage" else "library package"))];
      }
    }
    assert scanned[..|scanned|] == scanned;
    ScannedEntries(contexts, prefix, paths);
  }

  lemma {:induction false} WithPrefixSnoc(xs: seq<string>, x: string, p: string)
    ensures WithPrefix(xs + [x], p) == WithPrefix(xs, p) + if p <= x then [x] else []
  {
    if xs == [] {
      assert ([] + [x])[1..] == [];
    } else {
      assert (xs + [x])[1..] == xs[1..] + [x];
      WithPrefixSnoc(xs[1..], x, p);
    }
  }

  lemma PackageEntriesSnoc(contexts: map<string, FileContext>, prefix: string, paths: seq<string>, path: string)
    ensures PackageEntries(contexts, prefix, paths + [path]) == PackageEntries(contexts, prefix, paths)
         + if EndsWith(path, INIT) && IsPackageInit(contexts, prefix, path)
           then [PackageEntry(contexts, prefix, path)] else []
  {
    assert (paths + [path])[..|paths|] == paths;
  }

  /** Scanning only the package's range loses no entry. */
  lemma {:induction false} ScannedEntries(contexts: map<string, FileContext>, prefix: string, paths: seq<string>)
    ensures PackageEntries(contexts, prefix, WithPrefix(paths, prefix)) == PackageEntries(contexts, prefix, paths)
  {
    if paths != [] {
      var init, last := paths[..|paths| - 1], paths[|paths| - 1];
      ScannedEntries(contexts, prefix, init);
      assert paths == init + [last];
      WithPrefixSnoc(init, last, prefix);
      var scanned := WithPrefix(init, prefix);
      if prefix <= last {
        PackageEntriesSnoc(contexts, prefix, scanned, last);
      } else {
        assert scanned + [] == scanned;
      }
    }
  }

  // ------------------------------------------------- which entries it yields

  lemma {:induction false} PackageEntriesMembers(
    contexts: map<string, FileContext>, prefix: string, paths: seq<string>, c: Candidate)
    ensures c in PackageEntries(contexts, prefix, paths) <==>
      && c.path in paths && (exists dir :: c.path == dir + "/__init__.py")
      && prefix <= c.path && c.path in contexts && contexts[c.path].Runtime?
      && c == Candidate(c.path, None, Runtime, Auto(RuleFor(contexts, prefix, c.path)))
  {
    if paths != [] {
      PackageEntriesMembers(contexts, prefix, paths[..|paths| - 1], c);
      EndsInInit(paths[|paths| - 1]);
      assert paths == paths[..|paths| - 1] + [paths[|paths| - 1]];
    }
  }

  lemma EndsInInit(path: string)
    ensures EndsWith(path, INIT) <==> exists dir :: path == dir + "/__init__.py"
  {
    if EndsWith(path, INIT) {
      assert path == path[..|path| - |INIT|] + "/__init__.py";
    }
  }

  /** An entry is a subpackage when the package holds a runtime init above its
      directory. */
  lemma RuleSpelledOut(contexts: map<string, FileContext>, prefix: string, dir: string)
    ensures RuleFor(contexts, prefix, dir + "/__init__.py") ==
      if exists up, rest ::
        && dir == up + "/" + rest && prefix <= up + "/__init__.py"
        && up + "/__init__.py" in contexts && contexts[up + "/__init__.py"].Runtime?
      then "library subpackage" else "library package"
  {
    InitAboveIsADirectoryAbove(dir, init => IsPackageInit(contexts, prefix, init));
  }

  lemma InitHasNoOtherSlash(k: nat)
    requires 0 < k < |INIT|
    ensures INIT[k] != '/'
  {
    assert INIT == ['/', '_', '_', 'i', 'n', 'i', 't', '_', '_', '.', 'p', 'y'];
  }

  lemma InitIsNotBelow(dir: string, k: nat)
    requires k < |dir|
    ensures !(dir + "/" <= dir[..k] + INIT)
  {
    var init := dir[..k] + INIT;
    if |dir| < |init| {
      InitHasNoOtherSlash(|dir| - k);
      assert init[|dir|] == INIT[|dir| - k];
      assert (dir + "/")[|dir|] == '/';
    }
  }

  /** A package's own init is never below another init of the package. */
  lemma PackageInitStandsAlone(contexts: map<string, FileContext>, dir: string)
    ensures RuleFor(contexts, dir + "/", dir + INIT) == "library package"
  {
    var path := dir + INIT;
    assert path[..|path| - |INIT|] == dir && path[|path| - |INIT|..] == INIT;
    forall k | 0 <= k < |dir| && dir[k] == '/' ensures !(dir + "/" <= dir[..k] + INIT) {
      InitIsNotBelow(dir, k);
    }
  }

  /** When that init is runtime code, every other init below it is a subpackage. */
  lemma InitsBelowAreSubpackages(contexts: map<string, FileContext>, dir: string, path: string)
    requires dir + INIT in contexts && contexts[dir + INIT].Runtime?
    requires dir + "/" <= path && EndsWith(path, INIT) && path != dir + INIT
    ensures RuleFor(contexts, dir + "/", path) == "library subpackage"
  {
    var from := StripInit(path);
    assert path == from + INIT;
    if |from| <= |dir| {
      InitIsAtTheEnd(dir, from);
      assert false;
    }
    DirIsAbove(dir, from);
    PrefixOfInit(dir);
    assert IsPackageInit(contexts, dir + "/", from[..|dir|] + INIT);
  }

  lemma PrefixOfInit(dir: string)
    ensures dir + "/" <= dir + INIT
  {
    assert dir + INIT == (dir + "/") + INIT[1..];
  }

  lemma DirIsAbove(dir: string, from: string)
    requires |dir| < |from| && dir + "/" <= from + INIT
    ensures from[..|dir|] == dir && from[|dir|] == '/'
  {
    var path := from + INIT;
    assert from[|dir|] == path[|dir|] == (dir + "/")[|dir|];
    assert from[..|dir|] == path[..|dir|] == (dir + "/")[..|dir|];
  }

  lemma InitIsAtTheEnd(dir: string, from: string)
    requires |from| <= |dir| && dir + "/" <= from + INIT
    ensures from == dir
  {
    var path := from + INIT;
    assert path[|dir|] == (dir + "/")[|dir|] == '/';
    assert path[|dir|] == INIT[|dir| - |from|];
    if |from| < |dir| {
      InitHasNoOtherSlash(|dir| - |from|);
    }
    assert from == path[..|dir|] == (dir + "/")[..|dir|];
  }
}

/**
 Workspace members and nested projects.

 Paths of members are normalised to their named segments, whichever slashes and dots
 spell them. A member is called by its last segment where that is its own, and by its
 path where another shares it; the two kinds of names never clash. A nested project is
 the shallowest directory above some file that builds a distribution and stands apart
 from the members, with nothing skipped above it. The search walks down each file's
 directories and remembers what it has asked; the answer is that of the plain
 definition, whatever the order of the files.
 */
module Workspace {
  import opened Common
  import opened Text

  /** `rsplit('/').next()` */
  function Basename(path: string): string {
    match LastSlash(path)
    case Some(at) => path[at + 1..]
    case None => path
  }

  // ------------------------------------------------------------- relative paths

  predicate IsSeparator(c: char) {
    c == '/' || c == '\\'
  }

  /** `split(['/', '\\'])` */
  function Split(path: string): (parts: seq<string>)
    ensures parts != []
  {
    if path == [] then [""]
    else
      var rest := Split(path[1..]);
      if IsSeparator(path[0]) then [""] + rest else [[path[0]] + rest[0]] + rest[1..]
  }

  function Kept(parts: seq<string>): seq<string> {
    if parts == [] then []
    else (if parts[0] == "" || parts[0] == "." then [] else [parts[0]]) + Kept(parts[1..])
  }

  function JoinSlash(parts: seq<string>): string {
    if parts == [] then ""
    else if |parts| == 1 then parts[0]
    else parts[0] + "/" + JoinSlash(parts[1..])
  }

  function NormalizeRelativePath(path: string): string {
    JoinSlash(Kept(Split(path)))
  }

  ghost predicate IsPart(part: string) {
    part != "" && part != "." && forall i :: 0 <= i < |part| ==> !IsSeparator(part[i])
  }

  /** The last segment: no slash in it, and the path is it or ends in a slash and it. */
  lemma BasenameIsTheLastSegment(path: string)
    ensures '/' !in Basename(path)
    ensures path == Basename(path) || exists dir :: path == dir + "/" + Basename(path)
  {
    match LastSlash(path) {
      case Some(at) =>
        assert path == path[..at] + "/" + path[at + 1..];
      case None =>
    }
  }

  /** The parts, put together again with a slash or a backslash between any two. */
  predicate Glued(path: string, parts: seq<string>)
    decreases |parts|
  {
    if parts == [] then false
    else if |parts| == 1 then path == parts[0]
    else
      && |parts[0]| < |path| && parts[0] == path[..|parts[0]|]
      && (path[|parts[0]|] == '/' || path[|parts[0]|] == '\\')
      && Glued(path[|parts[0]| + 1..], parts[1..])
  }

  /** Splitting is at every slash and backslash, and nowhere else. */
  lemma {:induction false} SplitIsAtSeparators(path: string)
    ensures Glued(path, Split(path))
    ensures forall part :: part in Split(path) ==> '/' !in part && '\\' !in part
  {
    if path != [] {
      SplitIsAtSeparators(path[1..]);
      var rest := Split(path[1..]);
      if IsSeparator(path[0]) {
        assert ([""] + rest)[1..] == rest && path[..0] == "";
      } else {
        var first := [path[0]] + rest[0];
        assert ([first] + rest[1..])[1..] == rest[1..];
        assert path == [path[0]] + path[1..];
        if |rest| > 1 {
          assert path[..|first|] == [path[0]] + path[1..][..|rest[0]|];
          assert path[|first| + 1..] == path[1..][|rest[0]| + 1..];
        }
      }
    }
  }

  /** Every named segment is kept as often as it occurs, `""` and `"."` never. */
  lemma {:induction false} KeptAreTheNamed(parts: seq<string>)
    ensures forall part ::
      multiset(Kept(parts))[part] == if part == "" || part == "." then 0 else multiset(parts)[part]
  {
    if parts != [] {
      KeptAreTheNamed(parts[1..]);
      assert parts == [parts[0]] + parts[1..];
    }
  }

  lemma {:induction false} SplitParts(path: string)
    ensures forall part, i :: part in Split(path) && 0 <= i < |part| ==> !IsSeparator(part[i])
  {
    if path != [] {
      SplitParts(path[1..]);
      var rest := Split(path[1..]);
      assert forall part :: part in rest[1..] ==> part in rest;
    }
  }

  lemma {:induction false} KeptParts(parts: seq<string>)
    requires forall part, i :: part in parts && 0 <= i < |part| ==> !IsSeparator(part[i])
    ensures forall part :: part in Kept(parts) ==> IsPart(part)
  {
    if parts != [] {
      assert forall part :: part in parts[1..] ==> part in parts;
      assert parts[0] in parts;
      KeptParts(parts[1..]);
    }
  }

  lemma {:induction false} SplitOfPart(part: string, rest: string)
    requires forall i :: 0 <= i < |part| ==> !IsSeparator(part[i])
    ensures Split(part) == [part]
    ensures Split(part + ("/" + rest)) == [part] + Split(rest)
  {
    var whole := part + ("/" + rest);
    if part == [] {
      assert whole[1..] == rest;
    } else {
      SplitOfPart(part[1..], rest);
      assert whole[1..] == part[1..] + ("/" + rest);
      assert [part[0]] + part[1..] == part;
      assert Split(whole) == [[part[0]] + part[1..]] + Split(rest);
    }
  }

  lemma {:induction false} SplitOfJoin(parts: seq<string>)
    requires parts != [] && forall part :: part in parts ==> IsPart(part)
    ensures Split(JoinSlash(parts)) == parts
  {
    assert parts[0] in parts;
    if |parts| == 1 {
      SplitOfPart(parts[0], "");
      assert parts == [parts[0]];
    } else {
      assert forall part :: part in parts[1..] ==> part in parts;
      SplitOfJoin(parts[1..]);
      var rest := JoinSlash(parts[1..]);
      assert JoinSlash(parts) == parts[0] + ("/" + rest);
      SplitOfPart(parts[0], rest);
    }
  }

  lemma {:induction false} KeptOfParts(parts: seq<string>)
    requires forall part :: part in parts ==> IsPart(part)
    ensures Kept(parts) == parts
  {
    if parts != [] {
      assert parts[0] in parts;
      assert forall part :: part in parts[1..] ==> part in parts;
      KeptOfParts(parts[1..]);
    }
  }

  /** A normalised path has exactly the named segments of the path, in order;
      normalising it again changes nothing. */
  lemma NormalizeKeepsTheSegments(path: string)
    ensures Kept(Split(NormalizeRelativePath(path))) == Kept(Split(path))
    ensures Split(NormalizeRelativePath(path)) == if Kept(Split(path)) == [] then [""] else Kept(Split(path))
    ensures NormalizeRelativePath(NormalizeRelativePath(path)) == NormalizeRelativePath(path)
  {
    SplitParts(path);
    KeptParts(Split(path));
    KeptOfParts(Kept(Split(path)));
    if Kept(Split(path)) != [] {
      SplitOfJoin(Kept(Split(path)));
    } else {
      assert [""][1..] == [];
      assert Kept([""]) == [];
    }
  }

  /** Two spellings normalise alike exactly when they name the same segments. */
  lemma NormalizeIdentifiesSpellings(a: string, b: string)
    ensures NormalizeRelativePath(a) == NormalizeRelativePath(b) <==> Kept(Split(a)) == Kept(Split(b))
  {
    NormalizeKeepsTheSegments(a);
    NormalizeKeepsTheSegments(b);
  }

  // ----------------------------------------------------------------- member ids

  datatype Member = Member(id: string, path: string, pyproject: string)

  ghost predicate SharesBasename(paths: seq<string>, path: string) {
    exists q :: q in paths && q != path && Basename(q) == Basename(path)
  }

  function Count(paths: seq<string>, name: string): nat {
    if paths == [] then 0
    else Count(paths[..|paths| - 1], name) + if Basename(paths[|paths| - 1]) == name then 1 else 0
  }

  ghost predicate Counts(paths: seq<string>, counts: map<string, nat>) {
    forall name :: (if name in counts then counts[name] else 0) == Count(paths, name)
  }

  lemma IdFromCounts(paths: seq<string>, counts: map<string, nat>, i: nat)
    requires Ascending(paths) && Counts(paths, counts) && i < |paths|
    ensures var name := Basename(paths[i]);
      MemberAt(paths, paths[i]) ==
      Member(if name in counts && counts[name] == 1 then name else paths[i], paths[i], paths[i] + "/pyproject.toml")
  {
    CountIsOneWhenUnshared(paths, i);
  }

  /** `paths` is an ordered set. */
  method MembersWithUniqueIds(paths: seq<string>) returns (members: seq<Member>)
    requires Ascending(paths)
    ensures |members| == |paths|
    ensures forall i {:trigger members[i]} :: 0 <= i < |paths| ==> members[i] == MemberAt(paths, paths[i])
    ensures forall i, j :: 0 <= i < j < |members| ==> members[i].id != members[j].id
  {
    var counts := CountBasenames(paths);
    members := [];
    for i := 0 to |paths|
      invariant |members| == i
      invariant forall j {:trigger members[j]} :: 0 <= j < i ==> members[j] == MemberAt(paths, paths[j])
    {
      var member := NameMember(counts, paths, i);
      members := members + [member];
    }
    IdsAreUnique(paths, members);
  }

  method NameMember(counts: map<string, nat>, paths: seq<string>, i: nat) returns (member: Member)
    requires Ascending(paths) && Counts(paths, counts) && i < |paths|
    ensures member == MemberAt(paths, paths[i])
  {
    var rel := paths[i];
    var name := Basename(rel);
    IdFromCounts(paths, counts, i);
    var id := if name in counts && counts[name] == 1 then name else rel;
    member := Member(id, rel, rel + "/pyproject.toml");
  }

  method CountBasenames(paths: seq<string>) returns (counts: map<string, nat>)
    ensures Counts(paths, counts)
  {
    counts := map[];
    for i := 0 to |paths|
      invariant Counts(paths[..i], counts)
    {
      assert paths[..i + 1][..i] == paths[..i];
      var name := Basename(paths[i]);
      counts := counts[name := (if name in counts then counts[name] else 0) + 1];
    }
    assert paths[..|paths|] == paths;
  }

  /** The basename names a member alone; sharing it falls back to the path. */
  ghost function MemberAt(paths: seq<string>, path: string): Member {
    Member(if SharesBasename(paths, path) then path else Basename(path), path, path + "/pyproject.toml")
  }

  lemma {:induction false} HolderIsCounted(paths: seq<string>, path: string)
    requires path in paths
    ensures Count(paths, Basename(path)) > 0
  {
    var init := paths[..|paths| - 1];
    if path != paths[|paths| - 1] {
      assert paths == init + [paths[|paths| - 1]];
      HolderIsCounted(init, path);
    }
  }

  lemma {:induction false} CountedHolder(paths: seq<string>, name: string) returns (path: string)
    requires Count(paths, name) > 0
    ensures path in paths && Basename(path) == name
  {
    var init := paths[..|paths| - 1];
    path := paths[|paths| - 1];
    if Basename(path) != name {
      path := CountedHolder(init, name);
      assert paths == init + [paths[|paths| - 1]];
    }
  }

  lemma CountIsPositiveForHolders(paths: seq<string>, name: string)
    ensures Count(paths, name) > 0 <==> exists q :: q in paths && Basename(q) == name
  {
    if Count(paths, name) > 0 {
      var q := CountedHolder(paths, name);
    }
    if q :| q in paths && Basename(q) == name {
      HolderIsCounted(paths, q);
    }
  }

  lemma {:induction false} CountConcat(a: seq<string>, b: seq<string>, name: string)
    ensures Count(a + b, name) == Count(a, name) + Count(b, name)
  {
    if b == [] {
      assert a + b == a;
    } else {
      var init, last := b[..|b| - 1], b[|b| - 1];
      CountConcat(a, init, name);
      assert (a + b)[..|a + b| - 1] == a + init && (a + b)[|a + b| - 1] == last;
    }
  }

  lemma CountSplit(paths: seq<string>, i: nat, name: string)
    requires i < |paths|
    ensures Count(paths, name) ==
      Count(paths[..i], name) + Count(paths[i + 1..], name) + if Basename(paths[i]) == name then 1 else 0
  {
    assert paths == paths[..i] + ([paths[i]] + paths[i + 1..]);
    CountConcat(paths[..i], [paths[i]] + paths[i + 1..], name);
    CountConcat([paths[i]], paths[i + 1..], name);
    assert [paths[i]][..0] == [];
  }

  lemma SharedByTheOthers(paths: seq<string>, i: nat)
    requires Ascending(paths) && i < |paths|
    ensures forall q :: q in paths && q != paths[i] <==> q in paths[..i] || q in paths[i + 1..]
  {
    LessIsIrreflexive(paths[i]);
    assert paths == paths[..i] + [paths[i]] + paths[i + 1..];
  }

  /** The count is one exactly when no other path has the name. */
  lemma CountIsOneWhenUnshared(paths: seq<string>, i: nat)
    requires Ascending(paths) && i < |paths|
    ensures Count(paths, Basename(paths[i])) == 1 <==> !SharesBasename(paths, paths[i])
  {
    var name := Basename(paths[i]);
    CountSplit(paths, i, name);
    CountIsPositiveForHolders(paths[..i], name);
    CountIsPositiveForHolders(paths[i + 1..], name);
    SharedByTheOthers(paths, i);
  }

  /** A unique basename is never another member's path: that path has no slash, so
      it would be its own basename and share it. */
  lemma IdsDiffer(paths: seq<string>, p: string, q: string)
    requires p in paths && q in paths && p != q
    ensures MemberAt(paths, p).id != MemberAt(paths, q).id
  {
    BasenameOfBasename(p);
    BasenameOfBasename(q);
  }

  lemma IdsAreUnique(paths: seq<string>, members: seq<Member>)
    requires Ascending(paths) && |members| == |paths|
    requires forall i {:trigger members[i]} :: 0 <= i < |paths| ==> members[i] == MemberAt(paths, paths[i])
    ensures forall i, j :: 0 <= i < j < |members| ==> members[i].id != members[j].id
  {
    forall i, j | 0 <= i < j < |members| ensures members[i].id != members[j].id {
      LessIsIrreflexive(paths[i]);
      IdsDiffer(paths, paths[i], paths[j]);
    }
  }

  lemma BasenameOfBasename(path: string)
    ensures Basename(Basename(path)) == Basename(path)
  {
  }

  // ------------------------------------------------------------ nested projects

  /** What is asked about directories: holds an `__init__.py`; its manifest names a
      `[project]`; its `setup.py` builds a distribution. */
  datatype Site = Site(
    hasInit: string -> bool,
    declaresProject: string -> bool,
    buildsDistribution: string -> bool,
    members: seq<string>,
    pathSources: seq<string>)

  predicate IsToolDir(name: string) {
    || name == ".git" || name == ".venv" || name == "venv" || name == "__pycache__"
    || name == "target" || name == "node_modules"
  }

  predicate IsSkippedName(name: string) {
    || IsToolDir(name)
    || "." <= name
    || name == "site-packages" || name == "build" || name == "dist" || name == "tests" || name == "test"
    || name == "fixtures" || name == "testdata"
  }

  predicate Skipped(dir: string) {
    IsSkippedName(Basename(dir))
  }

  /** `dir` is a path source, is a member, or contains one. */
  predicate HoldsMember(site: Site, dir: string) {
    || dir in site.pathSources
    || exists m :: m in site.members && dir <= m && (m == dir || m[|dir|] == '/')
  }

  predicate IsProject(site: Site, dir: string) {
    !HoldsMember(site, dir) && !site.hasInit(dir) && (site.declaresProject(dir) || site.buildsDistribution(dir))
  }

  /** `path` lies in the directory `dir`. */
  predicate Inside(path: string, dir: string) {
    |dir| < |path| && path[|dir|] == '/' && path[..|dir|] == dir
  }

  /** A project with no skipped directory at or above it and no project above. */
  ghost predicate Shallowest(site: Site, dir: string) {
    && IsProject(site, dir) && !Skipped(dir)
    && forall above :: Inside(dir, above) ==> !Skipped(above) && !IsProject(site, above)
  }

  ghost predicate Reported(site: Site, files: seq<string>, dir: string) {
    Shallowest(site, dir) && exists f :: f in files && Inside(f, dir)
  }

  method NestedProjects(site: Site, files: seq<string>) returns (projects: set<string>)
    ensures forall dir :: dir in projects <==> Reported(site, files, dir)
  {
    projects := {};
    var checked: map<string, bool> := map[];
    for i := 0 to |files|
      invariant forall dir :: dir in projects <==> Reported(site, files[..i], dir)
      invariant Remembers(site, checked)
    {
      var found;
      found, checked := SearchAbove(site, files[i], checked);
      ReportedStep(site, files, i);
      if found.Some? {
        projects := projects + {found.value};
      }
    }
    assert files[..|files|] == files;
  }

  ghost predicate Remembers(site: Site, checked: map<string, bool>) {
    forall dir :: dir in checked ==> checked[dir] == IsProject(site, dir)
  }

  /** No directory above the file shorter than `k` ends the walk. */
  ghost predicate ClearAbove(site: Site, file: string, k: nat) {
    forall above :: Inside(file, above) && |above| < k ==> !Skipped(above) && !IsProject(site, above)
  }

  /** Walks a file's directories from the top until a skipped one or a project. */
  method SearchAbove(site: Site, file: string, known: map<string, bool>)
    returns (found: Option<string>, checked: map<string, bool>)
    requires Remembers(site, known)
    ensures Remembers(site, checked)
    ensures forall dir :: found == Some(dir) <==> Inside(file, dir) && Shallowest(site, dir)
  {
    checked := known;
    var k := 0;
    while k < |file|
      invariant k <= |file|
      invariant Remembers(site, checked)
      invariant ClearAbove(site, file, k)
    {
      WalkOn(site, file, k);
      if file[k] == '/' {
        var dir := file[..k];
        if Skipped(dir) {
          NothingBelow(site, file, dir);
          return None, checked;
        }
        if dir !in checked {
          checked := checked[dir := IsProject(site, dir)];
        }
        if checked[dir] {
          FoundHere(site, file, dir);
          return Some(dir), checked;
        }
      }
      k := k + 1;
    }
    found := None;
  }

  lemma WalkOn(site: Site, file: string, k: nat)
    requires k < |file| && ClearAbove(site, file, k)
    requires file[k] == '/' ==> Inside(file, file[..k])
    ensures file[k] != '/' || (!Skipped(file[..k]) && !IsProject(site, file[..k])) ==> ClearAbove(site, file, k + 1)
  {
    forall above | Inside(file, above) && |above| == k ensures above == file[..k] {
    }
  }

  /** Directories above the same path are nested in one another. */
  lemma AboveIsLinear(path: string, a: string, b: string)
    requires Inside(path, a) && Inside(path, b)
    ensures a == b || Inside(a, b) || Inside(b, a)
    ensures |a| < |b| ==> Inside(b, a)
    ensures |a| == |b| ==> a == b
  {
    if |a| < |b| {
      assert b[|a|] == path[|a|] && b[..|a|] == path[..|a|];
    } else if |b| < |a| {
      assert a[|b|] == path[|b|] && a[..|b|] == path[..|b|];
    }
  }

  lemma InsideIsTransitive(path: string, dir: string, above: string)
    requires Inside(path, dir) && Inside(dir, above)
    ensures Inside(path, above)
  {
    assert path[..|above|] == path[..|dir|][..|above|];
    assert path[|above|] == path[..|dir|][|above|];
  }

  /** A skipped directory hides every project inside it. */
  lemma NothingBelow(site: Site, file: string, dir: string)
    requires Inside(file, dir) && Skipped(dir) && ClearAbove(site, file, |dir|)
    ensures forall d :: Inside(file, d) ==> !Shallowest(site, d)
  {
    forall d | Inside(file, d) ensures !Shallowest(site, d) {
      AboveIsLinear(file, dir, d);
    }
  }

  lemma FoundHere(site: Site, file: string, dir: string)
    requires Inside(file, dir) && !Skipped(dir) && IsProject(site, dir) && ClearAbove(site, file, |dir|)
    ensures forall d :: d == dir <==> Inside(file, d) && Shallowest(site, d)
  {
    forall above | Inside(dir, above) ensures !Skipped(above) && !IsProject(site, above) {
      InsideIsTransitive(file, dir, above);
    }
    forall d | Inside(file, d) && Shallowest(site, d) ensures d == dir {
      AboveIsLinear(file, dir, d);
    }
  }

  lemma ReportedStep(site: Site, files: seq<string>, i: nat)
    requires i < |files|
    ensures forall dir :: Reported(site, files[..i + 1], dir) <==>
      Reported(site, files[..i], dir) || (Shallowest(site, dir) && Inside(files[i], dir))
  {
    assert files[..i + 1] == files[..i] + [files[i]];
    forall dir ensures Reported(site, files[..i + 1], dir) <==>
      Reported(site, files[..i], dir) || (Shallowest(site, dir) && Inside(files[i], dir))
    {
      assert forall f :: f in files[..i + 1] <==> f in files[..i] || f == files[i];
    }
  }

  // --------------------------------------------- what the search promises

  /** No reported project lies inside another. */
  lemma ReportedAreApart(site: Site, files: seq<string>, a: string, b: string)
    requires Reported(site, files, a) && Reported(site, files, b)
    ensures !Inside(a, b)
  {
  }

  /** The order of the files, and repeats among them, do not matter. */
  lemma FileOrderDoesNotMatter(site: Site, files: seq<string>, others: seq<string>, dir: string)
    requires forall f :: f in files <==> f in others
    ensures Reported(site, files, dir) <==> Reported(site, others, dir)
  {
  }

  /** Every project above a file that no skipped directory hides is reported or
      lies in a reported one. */
  lemma {:induction false} VisibleProjectsAreCovered(site: Site, files: seq<string>, file: string, dir: string)
    returns (top: string)
    requires file in files && Inside(file, dir) && IsProject(site, dir) && !Skipped(dir)
    requires forall above :: Inside(dir, above) ==> !Skipped(above)
    ensures Reported(site, files, top) && (top == dir || Inside(dir, top))
    decreases |dir|
  {
    if above :| Inside(dir, above) && IsProject(site, above) {
      InsideIsTransitive(file, dir, above);
      forall higher | Inside(above, higher) ensures !Skipped(higher) {
        InsideIsTransitive(dir, above, higher);
      }
      top := VisibleProjectsAreCovered(site, files, file, above);
      if top != above {
        InsideIsTransitive(dir, above, top);
      }
    } else {
      top := dir;
    }
  }

  // ------------------------------------------------- what the conditions say

  /** Skipping looks at the last segment alone. */
  lemma SkippedByLastSegment(parent: string, name: string)
    requires '/' !in name
    ensures Skipped(parent + "/" + name) <==> Skipped(name)
    ensures Skipped(name) <==>
      || (name != "" && name[0] == '.')
      || name in {"venv", "__pycache__", "target", "node_modules"}
      || name in {"site-packages", "build", "dist", "tests", "test", "fixtures", "testdata"}
  {
    var path := parent + "/" + name;
    assert path[|parent|] == '/' && path[|parent| + 1..] == name;
    assert forall k :: |parent| < k < |path| ==> path[k] == name[k - |parent| - 1];
    assert Basename(path) == name && Basename(name) == name;
  }

  /** A directory holds a member that is it or lies in it. */
  lemma HoldsMembersInside(site: Site, dir: string)
    ensures HoldsMember(site, dir) <==>
      || dir in site.pathSources || dir in site.members
      || exists rest :: dir + "/" + rest in site.members
  {
    if m :| m in site.members && dir <= m && m != dir && m[|dir|] == '/' {
      assert m == dir + "/" + m[|dir| + 1..];
    }
    if rest :| dir + "/" + rest in site.members {
      var m := dir + "/" + rest;
      assert dir <= m && m[|dir|] == '/';
    }
  }

  /** A nested project builds something, is no package, and is apart from the members
      and the path sources. */
  lemma ProjectsStandApart(site: Site, dir: string)
    ensures IsProject(site, dir) <==>
      && (site.declaresProject(dir) || site.buildsDistribution(dir)) && !site.hasInit(dir)
      && dir !in site.pathSources && dir !in site.members
      && forall rest :: dir + "/" + rest !in site.members
  {
    HoldsMembersInside(site, dir);
  }
}

/**
 Which files a dotted module name stands for, segment by segment.
 */
module ModuleNames {
  import opened Common
  import opened Text
  import opened ModuleIndex

  function DotJoin(segments: seq<string>): string {
    if segments == [] then ""
    else if |segments| == 1 then segments[0]
    else segments[0] + "." + DotJoin(segments[1..])
  }

  function SlashJoin(segments: seq<string>): string {
    if segments == [] then ""
    else if |segments| == 1 then segments[0]
    else segments[0] + "/" + SlashJoin(segments[1..])
  }

  ghost predicate DotFree(segments: seq<string>) {
    forall i :: 0 <= i < |segments| ==> '.' !in segments[i]
  }

  lemma DotsToSlashesConcat(a: string, b: string)
    ensures DotsToSlashes(a + b) == DotsToSlashes(a) + DotsToSlashes(b)
  {
  }

  lemma {:induction false} DottedIsSlashed(segments: seq<string>)
    requires DotFree(segments)
    ensures DotsToSlashes(DotJoin(segments)) == SlashJoin(segments)
  {
    if segments != [] {
      assert DotsToSlashes(segments[0]) == segments[0];
      if |segments| > 1 {
        DottedIsSlashed(segments[1..]);
        DotsToSlashesConcat(segments[0], ".");
        DotsToSlashesConcat(segments[0] + ".", DotJoin(segments[1..]));
        assert DotsToSlashes(".") == "/";
      }
    }
  }

  lemma {:induction false} BeforeDotStops(a: string, rest: string)
    requires '.' !in a
    ensures BeforeDot(a + "." + rest) == a && BeforeDot(a) == a
  {
    var s := a + "." + rest;
    if a != "" {
      BeforeDotStops(a[1..], rest);
      assert s[1..] == a[1..] + "." + rest;
      assert a == [a[0]] + a[1..];
    }
  }

  /** The files a name can be, package before module, directory by directory. */
  function ModuleFiles(dirs: seq<string>, segments: seq<string>): seq<string> {
    if dirs == [] then []
    else
      var path := if dirs[0] == "" then SlashJoin(segments) else dirs[0] + "/" + SlashJoin(segments);
      [path + "/__init__.py", path + ".py"] + ModuleFiles(dirs[1..], segments)
  }

  /** `found` is the first of the files that is known, or none is. */
  ghost predicate IsFirstKnown(files: seq<string>, known: seq<string>, found: Option<string>) {
    match found
    case None => forall i :: 0 <= i < |files| ==> files[i] !in known
    case Some(path) => exists k :: IsFirstAt(files, known, path, k)
  }

  ghost predicate IsFirstAt(files: seq<string>, known: seq<string>, path: string, k: int) {
    && 0 <= k < |files| && files[k] == path && path in known
    && forall i :: 0 <= i < k ==> files[i] !in known
  }

  lemma FirstKnownBehind(a: string, b: string, rest: seq<string>, known: seq<string>, found: Option<string>)
    requires a !in known && b !in known && IsFirstKnown(rest, known, found)
    ensures IsFirstKnown([a, b] + rest, known, found)
  {
    var files := [a, b] + rest;
    assert forall i :: 2 <= i < |files| ==> files[i] == rest[i - 2];
    if found.Some? {
      var k :| IsFirstAt(rest, known, found.value, k);
      assert IsFirstAt(files, known, found.value, k + 2);
    }
  }

  lemma {:induction false} HitsAreModuleFiles(dirs: seq<string>, segments: seq<string>, known: seq<string>)
    ensures IsFirstKnown(ModuleFiles(dirs, segments), known, FirstHit(dirs, SlashJoin(segments), known))
  {
    if dirs != [] {
      var path := if dirs[0] == "" then SlashJoin(segments) else dirs[0] + "/" + SlashJoin(segments);
      var files := ModuleFiles(dirs, segments);
      assert files[0] == path + "/__init__.py" && files[1] == path + ".py";
      if path + "/__init__.py" in known {
        assert IsFirstAt(files, known, files[0], 0);
      } else if path + ".py" in known {
        assert IsFirstAt(files, known, files[1], 1);
      } else {
        HitsAreModuleFiles(dirs[1..], segments, known);
        FirstKnownBehind(path + "/__init__.py", path + ".py", ModuleFiles(dirs[1..], segments), known,
          FirstHit(dirs[1..], SlashJoin(segments), known));
      }
    }
  }

  predicate EndsInAppConfig(name: string) {
    |name| >= 9 && name[|name| - 9..] == "AppConfig"
  }

  /** What a dotted name stands for: its segments, or the first of them if it ends in
      `AppConfig`. */
  lemma SuffixOfSegments(segments: seq<string>)
    requires segments != [] && DotFree(segments)
    ensures Suffix(DotJoin(segments)) ==
      if EndsInAppConfig(DotJoin(segments)) then segments[0] else SlashJoin(segments)
  {
    DottedIsSlashed(segments);
    DottedIsSlashed([segments[0]]);
    assert DotJoin([segments[0]]) == segments[0] == SlashJoin([segments[0]]);
    if |segments| > 1 {
      BeforeDotStops(segments[0], DotJoin(segments[1..]));
    } else {
      BeforeDotStops(segments[0], "");
    }
  }

  /** A dotted name resolves to the first known file among `dir/a/b/__init__.py` and
      `dir/a/b.py` along the directories searched; one that ends in `AppConfig` as its
      first segment does. */
  lemma DottedNamesResolve(segments: seq<string>, l: Layout, known: seq<string>)
    requires segments != [] && DotFree(segments)
    ensures !EndsInAppConfig(DotJoin(segments)) ==>
      IsFirstKnown(ModuleFiles(SearchOrder(l, ""), segments), known, ResolveModule(DotJoin(segments), l, known))
    ensures EndsInAppConfig(DotJoin(segments)) ==>
      IsFirstKnown(ModuleFiles(SearchOrder(l, ""), [segments[0]]), known, ResolveModule(DotJoin(segments), l, known))
  {
    SuffixOfSegments(segments);
    SearchIsFirstHit(Suffix(DotJoin(segments)), l, "", known);
    HitsAreModuleFiles(SearchOrder(l, ""), segments, known);
    HitsAreModuleFiles(SearchOrder(l, ""), [segments[0]], known);
  }

  /** So does the index, along its bases. */
  lemma IndexedNamesResolve(segments: seq<string>, l: Layout, known: seq<string>)
    requires segments != [] && DotFree(segments) && RootRelative(known)
    ensures !EndsInAppConfig(DotJoin(segments)) ==>
      IsFirstKnown(ModuleFiles(Bases(l, ""), segments), known, IndexResolve(DotJoin(segments), l, known))
    ensures EndsInAppConfig(DotJoin(segments)) ==>
      IsFirstKnown(ModuleFiles(Bases(l, ""), [segments[0]]), known, IndexResolve(DotJoin(segments), l, known))
  {
    SuffixOfSegments(segments);
    IndexIsFirstHit(known, Bases(l, ""), Suffix(DotJoin(segments)));
    HitsAreModuleFiles(Bases(l, ""), segments, known);
    HitsAreModuleFiles(Bases(l, ""), [segments[0]], known);
  }

  /** The directory searched first is the layout's own, `src` where it is unknown. */
  lemma OwnDirectoryFirst(l: Layout)
    ensures SearchOrder(l, "") != []
    ensures l.kind == Unknown ==> SearchOrder(l, "")[0] == "src"
    ensures l.kind == Flat ==> SearchOrder(l, "")[0] == ""
    ensures l.kind == Src || l.kind == PackageRoot ==> SearchOrder(l, "")[0] == l.packageRoot
  {
    assert RootsTried(l)[0] == OwnRoot(l);
  }

  // ------------------------------------------------------------- near modules

  lemma {:induction false} SlashesConcat(a: string, b: string)
    ensures Slashes(a + b) == Slashes(a) + Slashes(b)
  {
    if a == "" {
      assert a + b == b;
    } else {
      assert (a + b)[1..] == a[1..] + b;
      SlashesConcat(a[1..], b);
    }
  }

  lemma {:induction false} NoSlashes(s: string)
    requires '/' !in s
    ensures Slashes(s) == 0 && LastName(s) == s
  {
    if s != "" {
      NoSlashes(s[1..]);
    }
  }

  lemma {:induction false} LastNameAfter(before: string, name: string)
    requires '/' !in name
    ensures LastName(before + "/" + name) == name
  {
    var s := before + "/" + name;
    assert s[|before|] == '/';
    NoSlashes(name);
    if before == "" {
      assert s[1..] == name;
    } else {
      assert s[1..] == before[1..] + "/" + name;
      LastNameAfter(before[1..], name);
    }
  }

  /** A Python file other than an init. */
  predicate IsPlainModule(name: string) {
    && |name| > 3 && name[|name| - 3] == '.' && name[|name| - 2] == 'p' && name[|name| - 1] == 'y'
    && name != "__init__.py"
  }

  /** Near are the plain modules of the directory itself and of the directories in
      it, and none further down. */
  lemma NearFiles(dir: string, sub: string, name: string)
    requires '/' !in name && '/' !in sub
    ensures IsNear(name) <==> IsPlainModule(name)
    ensures IsNear(sub + "/" + name) <==> IsPlainModule(name)
    ensures !IsNear(dir + "/" + (sub + "/" + name))
  {
    NoSlashes(name);
    NoSlashes(sub);
    OneSlashMore(sub, name);
    OneSlashMore(dir, sub + "/" + name);
    LastNameAfter(sub, name);
    NearByName(name, name);
    NearByName(sub + "/" + name, name);
  }

  lemma OneSlashMore(a: string, b: string)
    ensures Slashes(a + "/" + b) == Slashes(a) + 1 + Slashes(b)
  {
    SlashesConcat(a + "/", b);
    SlashesConcat(a, "/");
    assert Slashes("/") == 1;
  }

  lemma NearByName(rest: string, name: string)
    requires LastName(rest) == name
    ensures IsNear(rest) <==> Slashes(rest) <= 1 && IsPlainModule(name)
  {
  }
}

/**
 Resolving a dotted module name to a project file, twice: the recursive search
 over a tree of workspace members, and the index that ranks the directories once
 and looks files up by the tail of their path. The index documents itself as
 answering what the search answers; this module says exactly when it does.
 */
module ModuleIndex {
  import opened Common
  import opened Text

  datatype Kind = Src | PackageRoot | Unknown | Flat

  /** `packageRoots` are the values of the layout's package-to-directory map. */
  datatype Layout = Layout(kind: Kind, packageRoot: string, packageRoots: seq<string>, members: seq<Member>)

  datatype Member = Member(path: string, layout: Layout)

  const PY: string := ".py"

  function JoinRel(base: string, rel: string): string {
    if base == "" then rel else base + "/" + rel
  }

  function OwnRoot(l: Layout): string {
    match l.kind
    case Src => l.packageRoot
    case PackageRoot => l.packageRoot
    case Unknown => "src"
    case Flat => ""
  }

  function ExtraRoots(l: Layout): seq<string> {
    SortedSet(l.packageRoots)
  }

  // ------------------------------------------------------- the module's name

  function BeforeDot(name: string): string {
    if name == "" || name[0] == '.' then "" else [name[0]] + BeforeDot(name[1..])
  }

  /** `a.b.FooAppConfig` names the package `a`. */
  function NormalizeTarget(name: string): string {
    if EndsWith(name, "AppConfig") then BeforeDot(name) else name
  }

  function DotsToSlashes(name: string): string {
    seq(|name|, i requires 0 <= i < |name| => if name[i] == '.' then '/' else name[i])
  }

  function Suffix(name: string): string {
    DotsToSlashes(NormalizeTarget(name))
  }

  // -------------------------------------------------------- recursive search

  function FirstIn(paths: seq<string>, known: seq<string>): Option<string> {
    if paths == [] then None
    else if paths[0] in known then Some(paths[0])
    else FirstIn(paths[1..], known)
  }

  function RootsTried(l: Layout): seq<string> {
    [OwnRoot(l)] + ExtraRoots(l) + (if OwnRoot(l) != "" then [""] else [])
  }

  function Candidates(suffix: string, prefix: string, roots: seq<string>): seq<string> {
    if roots == [] then []
    else
      var stem := JoinRel(prefix, JoinRel(roots[0], suffix));
      [stem + INIT, stem + PY] + Candidates(suffix, prefix, roots[1..])
  }

  function ResolveIn(suffix: string, l: Layout, prefix: string, known: seq<string>): Option<string>
    decreases l, 1
  {
    var own := FirstIn(Candidates(suffix, prefix, RootsTried(l)), known);
    if own.Some? then own else ResolveInMembers(suffix, l.members, prefix, known)
  }

  function ResolveInMembers(suffix: string, members: seq<Member>, prefix: string, known: seq<string>): Option<string>
    decreases members, 0
  {
    if members == [] then None
    else
      var found := ResolveIn(suffix, members[0].layout, JoinRel(prefix, members[0].path), known);
      if found.Some? then found else ResolveInMembers(suffix, members[1..], prefix, known)
  }

  /** `resolve_module_to_path` */
  function ResolveModule(name: string, l: Layout, known: seq<string>): Option<string> {
    ResolveIn(Suffix(name), l, "", known)
  }

  // --------------------------------------------------------------- the index

  function JoinAll(prefix: string, roots: seq<string>): seq<string> {
    if roots == [] then [] else [JoinRel(prefix, roots[0])] + JoinAll(prefix, roots[1..])
  }

  function OwnBase(l: Layout, prefix: string): seq<string> {
    if OwnRoot(l) == "" then [] else [JoinRel(prefix, OwnRoot(l))]
  }

  function LevelBases(l: Layout, prefix: string): seq<string> {
    OwnBase(l, prefix) + JoinAll(prefix, ExtraRoots(l)) + [prefix]
  }

  /** What `push_bases` appends, in order. */
  function Bases(l: Layout, prefix: string): seq<string>
    decreases l, 1
  {
    LevelBases(l, prefix) + MemberBases(l.members, prefix)
  }

  function MemberBases(members: seq<Member>, prefix: string): seq<string>
    decreases members, 0
  {
    if members == [] then []
    else Bases(members[0].layout, JoinRel(prefix, members[0].path)) + MemberBases(members[1..], prefix)
  }

  /** `t` is the path or one of its `/`-bounded tails. */
  predicate IsTail(path: string, t: string) {
    path == t || EndsWith(path, "/" + t)
  }

  function FilesWithTail(known: seq<string>, t: string): seq<string> {
    if known == [] then []
    else (if IsTail(known[0], t) then [known[0]] else []) + FilesWithTail(known[1..], t)
  }

  /** The rank at which each base first appears. */
  function Ranks(bases: seq<string>): map<string, nat>
  {
    if bases == [] then map[]
    else
      var last := |bases| - 1;
      var before := Ranks(bases[..last]);
      if bases[last] in before then before else before[bases[last] := last]
  }

  /** A file with tail `t`, without the tail and the slash before it. */
  function BaseOf(path: string, t: string): string
    requires EndsWith(path, t)
  {
    var base := path[..|path| - |t|];
    if EndsWith(base, "/") then base[..|base| - 1] else base
  }

  datatype Hit = Hit(rank: nat, kind: nat, path: string)

  function HitsFor(files: seq<string>, t: string, kind: nat, ranks: map<string, nat>): seq<Hit> {
    if files == [] then []
    else
      var path := files[0];
      (if EndsWith(path, t) && BaseOf(path, t) in ranks then [Hit(ranks[BaseOf(path, t)], kind, path)] else [])
        + HitsFor(files[1..], t, kind, ranks)
  }

  predicate Before(a: Hit, b: Hit) {
    a.rank < b.rank || (a.rank == b.rank && (a.kind < b.kind || (a.kind == b.kind && Less(a.path, b.path))))
  }

  function Best(hits: seq<Hit>): Option<Hit> {
    if hits == [] then None
    else
      var rest := Best(hits[1..]);
      if rest.Some? && Before(rest.value, hits[0]) then rest else Some(hits[0])
  }

  function HitPath(hit: Option<Hit>): Option<string> {
    if hit.Some? then Some(hit.value.path) else None
  }

  function AllHits(known: seq<string>, bases: seq<string>, suffix: string): seq<Hit> {
    HitsFor(FilesWithTail(known, suffix + INIT), suffix + INIT, 0, Ranks(bases))
      + HitsFor(FilesWithTail(known, suffix + PY), suffix + PY, 1, Ranks(bases))
  }

  /** What the index answers: the best-ranked file whose path ends in the name. */
  function IndexResolve(name: string, l: Layout, known: seq<string>): Option<string> {
    HitPath(Best(AllHits(known, Bases(l, ""), Suffix(name))))
  }

  // ------------------------------------------ both as a search through bases

  function HitUnder(base: string, suffix: string, known: seq<string>): Option<string> {
    var stem := JoinRel(base, suffix);
    if stem + INIT in known then Some(stem + INIT)
    else if stem + PY in known then Some(stem + PY)
    else None
  }

  function FirstHit(bases: seq<string>, suffix: string, known: seq<string>): Option<string> {
    if bases == [] then None
    else
      var hit := HitUnder(bases[0], suffix, known);
      if hit.Some? then hit else FirstHit(bases[1..], suffix, known)
  }

  function Or<T>(a: Option<T>, b: Option<T>): Option<T> {
    if a.Some? then a else b
  }

  lemma {:induction false} FirstInConcat(a: seq<string>, b: seq<string>, known: seq<string>)
    ensures FirstIn(a + b, known) == Or(FirstIn(a, known), FirstIn(b, known))
  {
    if a == [] {
      assert a + b == b;
    } else {
      assert (a + b)[1..] == a[1..] + b;
      FirstInConcat(a[1..], b, known);
    }
  }

  lemma {:induction false} FirstHitConcat(a: seq<string>, b: seq<string>, suffix: string, known: seq<string>)
    ensures FirstHit(a + b, suffix, known) == Or(FirstHit(a, suffix, known), FirstHit(b, suffix, known))
  {
    if a == [] {
      assert a + b == b;
    } else {
      assert (a + b)[1..] == a[1..] + b;
      FirstHitConcat(a[1..], b, suffix, known);
    }
  }

  /** The directory the search looks in for `root`: `""` is `prefix` itself. */
  function Under(prefix: string, root: string): string {
    if root == "" then prefix else JoinRel(prefix, root)
  }

  function UnderAll(prefix: string, roots: seq<string>): seq<string> {
    if roots == [] then [] else [Under(prefix, roots[0])] + UnderAll(prefix, roots[1..])
  }

  lemma {:induction false} UnderAllConcat(prefix: string, a: seq<string>, b: seq<string>)
    ensures UnderAll(prefix, a + b) == UnderAll(prefix, a) + UnderAll(prefix, b)
  {
    if a == [] {
      assert a + b == b;
    } else {
      assert (a + b)[1..] == a[1..] + b;
      UnderAllConcat(prefix, a[1..], b);
    }
  }

  lemma JoinAssociates(prefix: string, root: string, suffix: string)
    ensures JoinRel(prefix, JoinRel(root, suffix)) == JoinRel(Under(prefix, root), suffix)
  {
    if prefix != "" && root != "" {
      assert prefix + "/" + (root + "/" + suffix) == prefix + "/" + root + "/" + suffix;
    }
  }

  lemma {:induction false} CandidatesAreHits(suffix: string, prefix: string, roots: seq<string>, known: seq<string>)
    ensures FirstIn(Candidates(suffix, prefix, roots), known) == FirstHit(UnderAll(prefix, roots), suffix, known)
  {
    if roots != [] {
      JoinAssociates(prefix, roots[0], suffix);
      var stem := JoinRel(prefix, JoinRel(roots[0], suffix));
      assert [stem + INIT, stem + PY][1..] == [stem + PY] && [stem + PY][1..] == [];
      FirstInConcat([stem + INIT, stem + PY], Candidates(suffix, prefix, roots[1..]), known);
      CandidatesAreHits(suffix, prefix, roots[1..], known);
      assert UnderAll(prefix, roots)[1..] == UnderAll(prefix, roots[1..]);
    }
  }

  function LevelSearch(l: Layout, prefix: string): seq<string> {
    UnderAll(prefix, RootsTried(l))
  }

  /** The directories the recursion looks in, in its order. */
  function SearchOrder(l: Layout, prefix: string): seq<string>
    decreases l, 1
  {
    LevelSearch(l, prefix) + MemberSearchOrder(l.members, prefix)
  }

  function MemberSearchOrder(members: seq<Member>, prefix: string): seq<string>
    decreases members, 0
  {
    if members == [] then []
    else SearchOrder(members[0].layout, JoinRel(prefix, members[0].path)) + MemberSearchOrder(members[1..], prefix)
  }

  lemma {:induction false} SearchIsFirstHit(suffix: string, l: Layout, prefix: string, known: seq<string>)
    ensures ResolveIn(suffix, l, prefix, known) == FirstHit(SearchOrder(l, prefix), suffix, known)
    decreases l, 1
  {
    CandidatesAreHits(suffix, prefix, RootsTried(l), known);
    FirstHitConcat(LevelSearch(l, prefix), MemberSearchOrder(l.members, prefix), suffix, known);
    MemberSearchIsFirstHit(suffix, l.members, prefix, known);
  }

  lemma {:induction false} MemberSearchIsFirstHit(
    suffix: string, members: seq<Member>, prefix: string, known: seq<string>)
    ensures ResolveInMembers(suffix, members, prefix, known) ==
      FirstHit(MemberSearchOrder(members, prefix), suffix, known)
    decreases members, 0
  {
    if members != [] {
      var at := JoinRel(prefix, members[0].path);
      SearchIsFirstHit(suffix, members[0].layout, at, known);
      FirstHitConcat(SearchOrder(members[0].layout, at), MemberSearchOrder(members[1..], prefix), suffix, known);
      MemberSearchIsFirstHit(suffix, members[1..], prefix, known);
    }
  }

  // ------------------------------------------------- tails and joined paths

  predicate DoubleSlash(s: string) {
    exists i :: 0 <= i < |s| - 1 && s[i] == '/' && s[i + 1] == '/'
  }

  /** A root-relative path: no leading slash, no empty segment. */
  predicate Clean(s: string) {
    (s == "" || s[0] != '/') && !DoubleSlash(s)
  }

  ghost predicate RootRelative(known: seq<string>) {
    forall p :: p in known ==> Clean(p)
  }

  /** Tails correspond one to one with joins: a root-relative file has tail `t`
      below base `b` exactly when it is `b` joined with `t`. */
  lemma TailIsJoin(path: string, t: string, b: string)
    requires Clean(path)
    ensures IsTail(path, t) && BaseOf(path, t) == b <==> path == JoinRel(b, t)
  {
    if path == JoinRel(b, t) {
      if b != "" {
        assert path == b + ("/" + t);
        assert path[|path| - |t|..] == t;
        assert path[..|path| - |t|] == b + "/";
      }
    } else if IsTail(path, t) && path != t {
      var base := path[..|path| - |t|];
      assert path == path[..|path| - |t| - 1] + ("/" + t);
      assert base == path[..|path| - |t| - 1] + "/";
    }
  }

  lemma {:induction false} FilesWithTailMembers(known: seq<string>, t: string)
    ensures forall p :: p in FilesWithTail(known, t) <==> p in known && IsTail(p, t)
  {
    if known != [] {
      FilesWithTailMembers(known[1..], t);
      assert known == [known[0]] + known[1..];
    }
  }

  lemma {:induction false} RanksAreFirst(bases: seq<string>)
    ensures forall b :: b in Ranks(bases) <==> b in bases
    ensures forall b :: b in bases ==>
              Ranks(bases)[b] < |bases| && bases[Ranks(bases)[b]] == b && b !in bases[..Ranks(bases)[b]]
  {
    if bases != [] {
      var last := |bases| - 1;
      var before := bases[..last];
      RanksAreFirst(before);
      assert bases == before + [bases[last]];
      forall b | b in bases
        ensures Ranks(bases)[b] < |bases| && bases[Ranks(bases)[b]] == b && b !in bases[..Ranks(bases)[b]]
      {
        if b in before {
          assert bases[..Ranks(before)[b]] == before[..Ranks(before)[b]];
        }
      }
    }
  }

  lemma {:induction false} HitsForMembers(files: seq<string>, t: string, kind: nat, ranks: map<string, nat>)
    ensures forall h :: h in HitsFor(files, t, kind, ranks) <==>
              && h.path in files && h.kind == kind && EndsWith(h.path, t)
              && BaseOf(h.path, t) in ranks && h.rank == ranks[BaseOf(h.path, t)]
  {
    if files != [] {
      HitsForMembers(files[1..], t, kind, ranks);
      assert files == [files[0]] + files[1..];
    }
  }

  lemma NotBeforeIsTransitive(a: Hit, b: Hit, c: Hit)
    requires !Before(a, b) && !Before(b, c)
    ensures !Before(a, c)
  {
    if !Less(a.path, b.path) && !Less(b.path, c.path) {
      NotLessIsTransitive(a.path, b.path, c.path);
    }
  }

  lemma BeforeIsAsymmetric(a: Hit, b: Hit)
    ensures !(Before(a, b) && Before(b, a))
  {
    LessIsAsymmetric(a.path, b.path);
  }

  lemma {:induction false} BestIsLeast(hits: seq<Hit>)
    ensures Best(hits).Some? <==> hits != []
    ensures Best(hits).Some? ==> Best(hits).value in hits
    ensures Best(hits).Some? ==> forall h :: h in hits ==> !Before(h, Best(hits).value)
  {
    if hits != [] {
      BestIsLeast(hits[1..]);
      var rest := Best(hits[1..]);
      assert hits == [hits[0]] + hits[1..];
      BeforeIsAsymmetric(hits[0], hits[0]);
      if rest.Some? {
        BeforeIsAsymmetric(hits[0], rest.value);
        forall h | h in hits[1..] && !Before(rest.value, hits[0]) ensures !Before(h, hits[0]) {
          NotBeforeIsTransitive(h, rest.value, hits[0]);
        }
      }
    }
  }

  // ------------------------------------- the index is a search through Bases

  /** The first base with a hit, and everything before it without one. */
  lemma {:induction false} FirstHitSplits(bases: seq<string>, suffix: string, known: seq<string>) returns (r: nat)
    ensures r <= |bases|
    ensures FirstHit(bases, suffix, known) == if r < |bases| then HitUnder(bases[r], suffix, known) else None
    ensures r < |bases| ==> HitUnder(bases[r], suffix, known).Some?
    ensures forall i :: 0 <= i < r ==> HitUnder(bases[i], suffix, known).None?
  {
    r := 0;
    if bases != [] && HitUnder(bases[0], suffix, known).None? {
      var tail := FirstHitSplits(bases[1..], suffix, known);
      r := tail + 1;
      NoHitBefore(bases, suffix, known, tail);
    }
  }

  lemma NoHitBefore(bases: seq<string>, suffix: string, known: seq<string>, tail: nat)
    requires bases != [] && tail < |bases| && HitUnder(bases[0], suffix, known).None?
    requires forall i :: 0 <= i < tail ==> HitUnder(bases[1..][i], suffix, known).None?
    ensures forall i :: 0 <= i < tail + 1 ==> HitUnder(bases[i], suffix, known).None?
  {
    forall i | 0 <= i < tail + 1 ensures HitUnder(bases[i], suffix, known).None? {
      if i > 0 {
        assert bases[i] == bases[1..][i - 1];
      }
    }
  }

  function Tail(suffix: string, kind: nat): string {
    suffix + if kind == 0 then INIT else PY
  }

  /** A hit is a known file that is the join of the base at its rank, the first
      of that name, with the package or module tail. */
  lemma HitsAreJoins(known: seq<string>, bases: seq<string>, suffix: string, h: Hit)
    requires RootRelative(known)
    ensures h in AllHits(known, bases, suffix) <==>
      && h.kind <= 1 && h.path in known
      && h.rank < |bases| && bases[h.rank] !in bases[..h.rank]
      && h.path == JoinRel(bases[h.rank], Tail(suffix, h.kind))
  {
    var t0, t1 := suffix + INIT, suffix + PY;
    FilesWithTailMembers(known, t0);
    FilesWithTailMembers(known, t1);
    HitsForMembers(FilesWithTail(known, t0), t0, 0, Ranks(bases));
    HitsForMembers(FilesWithTail(known, t1), t1, 1, Ranks(bases));
    RanksAreFirst(bases);
    var t := Tail(suffix, h.kind);
    if h.path in known {
      if IsTail(h.path, t) {
        TailIsJoin(h.path, t, BaseOf(h.path, t));
      }
      if h.rank < |bases| {
        TailIsJoin(h.path, t, bases[h.rank]);
        FirstRankIsUnique(bases, h.rank);
      }
    }
  }

  lemma FirstRankIsUnique(bases: seq<string>, r: nat)
    requires r < |bases|
    ensures bases[r] in Ranks(bases) && (bases[r] !in bases[..r] <==> Ranks(bases)[bases[r]] == r)
  {
    RanksAreFirst(bases);
    var first := Ranks(bases)[bases[r]];
    if first < r {
      assert bases[..r][first] == bases[r];
    }
  }

  lemma JoinThenExtend(base: string, suffix: string, kind: nat)
    ensures JoinRel(base, Tail(suffix, kind)) == JoinRel(base, suffix) + if kind == 0 then INIT else PY
  {
    assert base + "/" + (suffix + INIT) == base + "/" + suffix + INIT;
    assert base + "/" + (suffix + PY) == base + "/" + suffix + PY;
  }

  /** The best-ranked hit is what a search through the bases in order finds. */
  lemma IndexIsFirstHit(known: seq<string>, bases: seq<string>, suffix: string)
    requires RootRelative(known)
    ensures HitPath(Best(AllHits(known, bases, suffix))) == FirstHit(bases, suffix, known)
  {
    var hits := AllHits(known, bases, suffix);
    BestIsLeast(hits);
    var r := FirstHitSplits(bases, suffix, known);
    if Best(hits).Some? {
      var best := Best(hits).value;
      HitsAreJoins(known, bases, suffix, best);
      JoinThenExtend(bases[best.rank], suffix, best.kind);
      assert bases[best.rank] in bases;
      assert HitUnder(bases[best.rank], suffix, known).Some?;
    }
    if FirstHit(bases, suffix, known).Some? {
      var path := FirstHit(bases, suffix, known).value;
      var kind := if path == JoinRel(bases[r], suffix) + INIT then 0 else 1;
      JoinThenExtend(bases[r], suffix, 0);
      JoinThenExtend(bases[r], suffix, 1);
      var h := Hit(r, kind, path);
      HitsAreJoins(known, bases, suffix, h);
      assert h in hits;
      RankOfBestIs(known, bases, suffix, h, Best(hits).value);
    }
  }

  lemma RankOfBestIs(known: seq<string>, bases: seq<string>, suffix: string, h: Hit, best: Hit)
    requires RootRelative(known)
    requires h in AllHits(known, bases, suffix) && best in AllHits(known, bases, suffix) && !Before(h, best)
    requires h.rank < |bases| && forall i :: 0 <= i < h.rank ==> HitUnder(bases[i], suffix, known).None?
    requires HitUnder(bases[h.rank], suffix, known) == Some(h.path)
    ensures best.path == h.path
  {
    HitsAreJoins(known, bases, suffix, h);
    HitsAreJoins(known, bases, suffix, best);
    JoinThenExtend(bases[best.rank], suffix, best.kind);
    JoinThenExtend(bases[h.rank], suffix, h.kind);
    assert HitUnder(bases[best.rank], suffix, known).Some?;
  }

  // ----------------------------------------------- when the two orders agree

  function AsSet(bases: seq<string>): set<string> {
    set b | b in bases
  }

  /** No root-relative file lies below a base written like this. */
  predicate Dead(base: string) {
    base != "" && (base[0] == '/' || base[|base| - 1] == '/' || DoubleSlash(base))
  }

  lemma DeadBasesNeverHit(base: string, suffix: string, known: seq<string>)
    requires RootRelative(known) && Dead(base)
    ensures HitUnder(base, suffix, known).None?
  {
    var stem := JoinRel(base, suffix);
    forall tail: string ensures stem + tail !in known {
      var path := stem + tail;
      assert path[0] == base[0] && path[|base|] == '/' && path[|base| - 1] == base[|base| - 1];
      if DoubleSlash(base) {
        var i :| 0 <= i < |base| - 1 && base[i] == '/' && base[i + 1] == '/';
        assert path[i] == '/' && path[i + 1] == '/';
      }
      assert !Clean(path);
    }
  }

  /** The search tries the layout's own directory before the extra roots. */
  predicate SearchesSelfFirst(l: Layout) {
    OwnRoot(l) == "" || "" in ExtraRoots(l)
  }

  /** So does the index, but only at the top: elsewhere `push_bases` spells the
      extra root `""` as `prefix/`, below which no file lies. */
  predicate RanksSelfFirst(l: Layout, prefix: string) {
    prefix == "" && "" in ExtraRoots(l)
  }

  /** `base` can decide nothing: an earlier directory already stands for it. */
  predicate Settled(base: string, seen: set<string>) {
    base in seen || Dead(base)
  }

  /** The two orders agree on this level's directories, given those before it. */
  predicate LevelAgrees(l: Layout, prefix: string, seen: set<string>) {
    var before := seen + AsSet(OwnBase(l, prefix));
    || SearchesSelfFirst(l) == RanksSelfFirst(l, prefix)
    || Settled(prefix, before)
    || forall e :: e in ExtraRoots(l) && e != "" ==> Settled(JoinRel(prefix, e), before)
  }

  predicate OrdersAgree(l: Layout, prefix: string, seen: set<string>)
    decreases l, 1
  {
    && LevelAgrees(l, prefix, seen)
    && MembersAgree(l.members, prefix, seen + AsSet(LevelSearch(l, prefix)))
  }

  predicate MembersAgree(members: seq<Member>, prefix: string, seen: set<string>)
    decreases members, 0
  {
    members == [] ||
    var at := JoinRel(prefix, members[0].path);
    && OrdersAgree(members[0].layout, at, seen)
    && MembersAgree(members[1..], prefix, seen + AsSet(SearchOrder(members[0].layout, at)))
  }

  ghost predicate NoHits(bases: set<string>, suffix: string, known: seq<string>) {
    forall b :: b in bases ==> HitUnder(b, suffix, known).None?
  }

  /** The named extra roots, `""` left out. */
  function Named(roots: seq<string>): seq<string> {
    if roots == [] then []
    else (if roots[0] == "" then [] else [roots[0]]) + Named(roots[1..])
  }

  lemma {:induction false} NamedMembers(roots: seq<string>)
    ensures forall e :: e in Named(roots) <==> e in roots && e != ""
  {
    if roots != [] {
      NamedMembers(roots[1..]);
      assert roots == [roots[0]] + roots[1..];
    }
  }

  lemma {:induction false} NamedAlone(roots: seq<string>)
    requires "" !in roots
    ensures Named(roots) == roots
  {
    if roots != [] {
      assert forall e :: e in roots[1..] ==> e in roots;
      NamedAlone(roots[1..]);
    }
  }

  /** `""` sorts first. */
  lemma EmptyComesFirst(roots: seq<string>)
    requires Ascending(roots)
    ensures roots == (if "" in roots then [""] else []) + Named(roots)
  {
    if "" in roots {
      SmallestFirst(roots, "");
      TailMembers(roots);
      NamedAlone(roots[1..]);
      assert roots == [""] + roots[1..];
    } else {
      NamedAlone(roots);
    }
  }

  lemma {:induction false} JoinsOfNamed(prefix: string, roots: seq<string>)
    ensures UnderAll(prefix, Named(roots)) == JoinAll(prefix, Named(roots))
    decreases |roots|
  {
    if roots != [] {
      JoinsOfNamed(prefix, roots[1..]);
      if roots[0] != "" {
        assert Named(roots)[1..] == Named(roots[1..]);
      } else {
        assert Named(roots) == Named(roots[1..]);
      }
    }
  }

  lemma {:induction false} JoinAllMembers(prefix: string, roots: seq<string>)
    ensures forall b :: b in JoinAll(prefix, roots) <==> exists e :: e in roots && b == JoinRel(prefix, e)
  {
    if roots != [] {
      JoinAllMembers(prefix, roots[1..]);
      assert roots == [roots[0]] + roots[1..];
      forall b ensures b in JoinAll(prefix, roots) <==> exists e :: e in roots && b == JoinRel(prefix, e) {
        if b == JoinRel(prefix, roots[0]) {
          assert roots[0] in roots;
        }
      }
    }
  }

  /** Both orders, with `""` taken out of the extra roots. */
  function Extras(l: Layout, prefix: string): seq<string> {
    JoinAll(prefix, Named(ExtraRoots(l)))
  }

  function Itself(present: bool, prefix: string): seq<string> {
    if present then [prefix] else []
  }

  lemma LevelSearchShape(l: Layout, prefix: string)
    ensures LevelSearch(l, prefix) ==
      if OwnRoot(l) == "" then [prefix] + (Itself("" in ExtraRoots(l), prefix) + Extras(l, prefix))
      else OwnBase(l, prefix) + (Itself("" in ExtraRoots(l), prefix) + (Extras(l, prefix) + [prefix]))
  {
    var roots := ExtraRoots(l);
    SortedSetIsTheSet(l.packageRoots);
    EmptyComesFirst(roots);
    var head := if "" in roots then [""] else [];
    JoinsOfNamed(prefix, roots);
    UnderAllConcat(prefix, head, Named(roots));
    assert UnderAll(prefix, [""]) == [prefix];
    assert UnderAll(prefix, head) == Itself("" in roots, prefix);
    if OwnRoot(l) == "" {
      UnderAllConcat(prefix, [""], roots);
      assert RootsTried(l) == [""] + roots;
    } else {
      var own := [OwnRoot(l)];
      UnderAllConcat(prefix, own + roots, [""]);
      UnderAllConcat(prefix, own, roots);
      assert UnderAll(prefix, own) == OwnBase(l, prefix);
    }
  }

  lemma {:induction false} JoinAllConcat(prefix: string, a: seq<string>, b: seq<string>)
    ensures JoinAll(prefix, a + b) == JoinAll(prefix, a) + JoinAll(prefix, b)
  {
    if a == [] {
      assert a + b == b;
    } else {
      assert (a + b)[1..] == a[1..] + b;
      JoinAllConcat(prefix, a[1..], b);
    }
  }

  lemma LevelBasesShape(l: Layout, prefix: string)
    ensures LevelBases(l, prefix) ==
      OwnBase(l, prefix) + (Itself("" in ExtraRoots(l), JoinRel(prefix, "")) + (Extras(l, prefix) + [prefix]))
  {
    var roots := ExtraRoots(l);
    SortedSetIsTheSet(l.packageRoots);
    EmptyComesFirst(roots);
    var head := if "" in roots then [""] else [];
    JoinAllConcat(prefix, head, Named(roots));
    assert JoinAll(prefix, [""]) == [JoinRel(prefix, "")];
  }

  /** What each order finds on one level, as a choice between three places. */
  lemma LevelFinds(l: Layout, prefix: string, suffix: string, known: seq<string>)
    requires RootRelative(known)
    ensures
      var own, self := FirstHit(OwnBase(l, prefix), suffix, known), HitUnder(prefix, suffix, known);
      var extra := FirstHit(Extras(l, prefix), suffix, known);
      && FirstHit(LevelSearch(l, prefix), suffix, known) ==
         Or(own, if SearchesSelfFirst(l) then Or(self, extra) else Or(extra, self))
      && FirstHit(LevelBases(l, prefix), suffix, known) ==
         Or(own, if RanksSelfFirst(l, prefix) then Or(self, extra) else Or(extra, self))
  {
    LevelSearchShape(l, prefix);
    LevelBasesShape(l, prefix);
    var own, extras := OwnBase(l, prefix), Extras(l, prefix);
    var a, b := Itself("" in ExtraRoots(l), prefix), Itself("" in ExtraRoots(l), JoinRel(prefix, ""));
    FirstHitConcat(own, a + (extras + [prefix]), suffix, known);
    FirstHitConcat(a, extras + [prefix], suffix, known);
    FirstHitConcat(own, b + (extras + [prefix]), suffix, known);
    FirstHitConcat(b, extras + [prefix], suffix, known);
    FirstHitConcat(extras, [prefix], suffix, known);
    FirstHitConcat([prefix], a + extras, suffix, known);
    FirstHitConcat(a, extras, suffix, known);
    if prefix != "" {
      DeadBasesNeverHit(JoinRel(prefix, ""), suffix, known);
    }
  }

  lemma {:induction false} NoHitsNothingFound(bases: seq<string>, suffix: string, known: seq<string>)
    ensures FirstHit(bases, suffix, known).None? <==> forall b :: b in bases ==> HitUnder(b, suffix, known).None?
  {
    if bases != [] {
      NoHitsNothingFound(bases[1..], suffix, known);
      assert bases == [bases[0]] + bases[1..];
    }
  }

  lemma AgreeingLevelFindsTheSame(l: Layout, prefix: string, seen: set<string>, suffix: string, known: seq<string>)
    requires RootRelative(known) && LevelAgrees(l, prefix, seen) && NoHits(seen, suffix, known)
    ensures FirstHit(LevelSearch(l, prefix), suffix, known) == FirstHit(LevelBases(l, prefix), suffix, known)
  {
    LevelFinds(l, prefix, suffix, known);
    var own, extras := OwnBase(l, prefix), Extras(l, prefix);
    NoHitsNothingFound(own, suffix, known);
    NoHitsNothingFound(extras, suffix, known);
    var before := seen + AsSet(own);
    if FirstHit(own, suffix, known).None? && SearchesSelfFirst(l) != RanksSelfFirst(l, prefix) {
      forall b | Settled(b, before) ensures HitUnder(b, suffix, known).None? {
        if Dead(b) {
          DeadBasesNeverHit(b, suffix, known);
        }
      }
      NamedMembers(ExtraRoots(l));
      JoinAllMembers(prefix, Named(ExtraRoots(l)));
    }
  }

  lemma {:induction false} AgreeingOrdersFindTheSame(
    l: Layout, prefix: string, seen: set<string>, suffix: string, known: seq<string>)
    requires RootRelative(known) && OrdersAgree(l, prefix, seen) && NoHits(seen, suffix, known)
    ensures FirstHit(SearchOrder(l, prefix), suffix, known) == FirstHit(Bases(l, prefix), suffix, known)
    decreases l, 1
  {
    AgreeingLevelFindsTheSame(l, prefix, seen, suffix, known);
    FirstHitConcat(LevelSearch(l, prefix), MemberSearchOrder(l.members, prefix), suffix, known);
    FirstHitConcat(LevelBases(l, prefix), MemberBases(l.members, prefix), suffix, known);
    NoHitsNothingFound(LevelSearch(l, prefix), suffix, known);
    if FirstHit(LevelSearch(l, prefix), suffix, known).None? {
      AgreeingMembersFindTheSame(l.members, prefix, seen + AsSet(LevelSearch(l, prefix)), suffix, known);
    }
  }

  lemma {:induction false} AgreeingMembersFindTheSame(
    members: seq<Member>, prefix: string, seen: set<string>, suffix: string, known: seq<string>)
    requires RootRelative(known) && MembersAgree(members, prefix, seen) && NoHits(seen, suffix, known)
    ensures FirstHit(MemberSearchOrder(members, prefix), suffix, known) ==
      FirstHit(MemberBases(members, prefix), suffix, known)
    decreases members, 0
  {
    if members != [] {
      var l, at := members[0].layout, JoinRel(prefix, members[0].path);
      AgreeingOrdersFindTheSame(l, at, seen, suffix, known);
      FirstHitConcat(SearchOrder(l, at), MemberSearchOrder(members[1..], prefix), suffix, known);
      FirstHitConcat(Bases(l, at), MemberBases(members[1..], prefix), suffix, known);
      NoHitsNothingFound(SearchOrder(l, at), suffix, known);
      if FirstHit(SearchOrder(l, at), suffix, known).None? {
        AgreeingMembersFindTheSame(members[1..], prefix, seen + AsSet(SearchOrder(l, at)), suffix, known);
      }
    }
  }

  // ------------------------------------------ and otherwise they do disagree

  /** Two files named `m.py`, one in each of two directories. */
  function TwoFiles(p: string, e: string): seq<string> {
    SortedSet([JoinRel(p, "m") + PY, JoinRel(e, "m") + PY])
  }

  lemma OnlyTheTwoHit(p: string, e: string, b: string)
    ensures HitUnder(b, "m", TwoFiles(p, e)) == if b == p || b == e then Some(JoinRel(b, "m") + PY) else None
  {
    SortedSetIsTheSet([JoinRel(p, "m") + PY, JoinRel(e, "m") + PY]);
    ModuleFilesAreDistinct(p, b);
    ModuleFilesAreDistinct(e, b);
  }

  lemma ModuleFilesAreDistinct(a: string, b: string)
    ensures JoinRel(b, "m") + INIT != JoinRel(a, "m") + PY
    ensures JoinRel(b, "m") + PY == JoinRel(a, "m") + PY <==> a == b
  {
    var x, y, z := JoinRel(b, "m") + INIT, JoinRel(a, "m") + PY, JoinRel(b, "m") + PY;
    assert x[|x| - 4] == '_' && y[|y| - 4] == 'm';
    if z == y {
      assert JoinRel(a, "m") == y[..|y| - 3] && JoinRel(b, "m") == z[..|z| - 3];
      if a != "" && b != "" {
        assert a == y[..|y| - 5] && b == z[..|z| - 5];
      }
    }
  }

  /** On a level where the orders part, a file beside the layout's own directory
      and one in an extra root tell them apart. */
  ghost predicate Parts(search: seq<string>, ranks: seq<string>, p: string, e: string) {
    && p != e && !Dead(p) && !Dead(e)
    && FirstHit(search, "m", TwoFiles(p, e)) == Some(JoinRel(p, "m") + PY)
    && FirstHit(ranks, "m", TwoFiles(p, e)) == Some(JoinRel(e, "m") + PY)
  }

  lemma TwoFilesAreRootRelative(p: string, e: string)
    requires !Dead(p) && !Dead(e)
    ensures RootRelative(TwoFiles(p, e)) && Ascending(TwoFiles(p, e))
  {
    SortedSetIsTheSet([JoinRel(p, "m") + PY, JoinRel(e, "m") + PY]);
  }

  lemma {:induction false} NothingFoundElsewhere(bases: seq<string>, p: string, e: string)
    requires forall b :: b in bases ==> b != p && b != e
    ensures FirstHit(bases, "m", TwoFiles(p, e)) == None
  {
    NoHitsNothingFound(bases, "m", TwoFiles(p, e));
    forall b | b in bases ensures HitUnder(b, "m", TwoFiles(p, e)).None? {
      OnlyTheTwoHit(p, e, b);
    }
  }

  lemma LevelParts(l: Layout, prefix: string, seen: set<string>) returns (p: string, e: string)
    requires !LevelAgrees(l, prefix, seen)
    ensures Parts(LevelSearch(l, prefix), LevelBases(l, prefix), p, e)
    ensures p !in seen && e !in seen
  {
    var before := seen + AsSet(OwnBase(l, prefix));
    var root :| root in ExtraRoots(l) && root != "" && !Settled(JoinRel(prefix, root), before);
    p, e := prefix, JoinRel(prefix, root);
    var known := TwoFiles(p, e);
    TwoFilesAreRootRelative(p, e);
    LevelFinds(l, prefix, "m", known);
    NothingFoundElsewhere(OwnBase(l, prefix), p, e);
    OnlyTheTwoHit(p, e, p);
    OnlyTheTwoHit(p, e, e);
    NamedMembers(ExtraRoots(l));
    JoinAllMembers(prefix, Named(ExtraRoots(l)));
    var extras := Extras(l, prefix);
    assert e in extras && p !in extras;
    ExtraFound(extras, p, e);
  }

  lemma {:induction false} ExtraFound(bases: seq<string>, p: string, e: string)
    requires e in bases && p !in bases
    ensures FirstHit(bases, "m", TwoFiles(p, e)) == Some(JoinRel(e, "m") + PY)
  {
    OnlyTheTwoHit(p, e, bases[0]);
    if bases[0] != e {
      assert bases == [bases[0]] + bases[1..];
      ExtraFound(bases[1..], p, e);
    }
  }

  lemma LevelsMissTogether(l: Layout, prefix: string, p: string, e: string)
    requires !Dead(p) && !Dead(e)
    requires p !in LevelSearch(l, prefix) && e !in LevelSearch(l, prefix)
    ensures FirstHit(LevelSearch(l, prefix), "m", TwoFiles(p, e)) == None
    ensures FirstHit(LevelBases(l, prefix), "m", TwoFiles(p, e)) == None
  {
    var known := TwoFiles(p, e);
    TwoFilesAreRootRelative(p, e);
    NothingFoundElsewhere(LevelSearch(l, prefix), p, e);
    LevelFinds(l, prefix, "m", known);
  }

  lemma {:induction false} OrdersMissTogether(l: Layout, prefix: string, p: string, e: string)
    requires !Dead(p) && !Dead(e)
    requires p !in SearchOrder(l, prefix) && e !in SearchOrder(l, prefix)
    ensures FirstHit(SearchOrder(l, prefix), "m", TwoFiles(p, e)) == None
    ensures FirstHit(Bases(l, prefix), "m", TwoFiles(p, e)) == None
    decreases l, 1
  {
    LevelsMissTogether(l, prefix, p, e);
    FirstHitConcat(LevelSearch(l, prefix), MemberSearchOrder(l.members, prefix), "m", TwoFiles(p, e));
    FirstHitConcat(LevelBases(l, prefix), MemberBases(l.members, prefix), "m", TwoFiles(p, e));
    MembersMissTogether(l.members, prefix, p, e);
  }

  lemma {:induction false} MembersMissTogether(members: seq<Member>, prefix: string, p: string, e: string)
    requires !Dead(p) && !Dead(e)
    requires p !in MemberSearchOrder(members, prefix) && e !in MemberSearchOrder(members, prefix)
    ensures FirstHit(MemberSearchOrder(members, prefix), "m", TwoFiles(p, e)) == None
    ensures FirstHit(MemberBases(members, prefix), "m", TwoFiles(p, e)) == None
    decreases members, 0
  {
    if members != [] {
      var l, at := members[0].layout, JoinRel(prefix, members[0].path);
      OrdersMissTogether(l, at, p, e);
      FirstHitConcat(SearchOrder(l, at), MemberSearchOrder(members[1..], prefix), "m", TwoFiles(p, e));
      FirstHitConcat(Bases(l, at), MemberBases(members[1..], prefix), "m", TwoFiles(p, e));
      MembersMissTogether(members[1..], prefix, p, e);
    }
  }

  lemma {:induction false} DisagreeingOrdersPart(l: Layout, prefix: string, seen: set<string>)
    returns (p: string, e: string)
    requires !OrdersAgree(l, prefix, seen)
    ensures Parts(SearchOrder(l, prefix), Bases(l, prefix), p, e)
    ensures p !in seen && e !in seen
    decreases l, 1
  {
    if !LevelAgrees(l, prefix, seen) {
      p, e := LevelParts(l, prefix, seen);
    } else {
      p, e := DisagreeingMembersPart(l.members, prefix, seen + AsSet(LevelSearch(l, prefix)));
      LevelsMissTogether(l, prefix, p, e);
    }
    FirstHitConcat(LevelSearch(l, prefix), MemberSearchOrder(l.members, prefix), "m", TwoFiles(p, e));
    FirstHitConcat(LevelBases(l, prefix), MemberBases(l.members, prefix), "m", TwoFiles(p, e));
  }

  lemma {:induction false} DisagreeingMembersPart(members: seq<Member>, prefix: string, seen: set<string>)
    returns (p: string, e: string)
    requires !MembersAgree(members, prefix, seen)
    ensures Parts(MemberSearchOrder(members, prefix), MemberBases(members, prefix), p, e)
    ensures p !in seen && e !in seen
    decreases members, 0
  {
    var l, at := members[0].layout, JoinRel(prefix, members[0].path);
    if !OrdersAgree(l, at, seen) {
      p, e := DisagreeingOrdersPart(l, at, seen);
    } else {
      p, e := DisagreeingMembersPart(members[1..], prefix, seen + AsSet(SearchOrder(l, at)));
      OrdersMissTogether(l, at, p, e);
    }
    FirstHitConcat(SearchOrder(l, at), MemberSearchOrder(members[1..], prefix), "m", TwoFiles(p, e));
    FirstHitConcat(Bases(l, at), MemberBases(members[1..], prefix), "m", TwoFiles(p, e));
  }

  // -------------------------------------------------------------- the theorem

  /** Over every set of root-relative files and every name, the index answers
      what the search answers. */
  ghost predicate IndexAnswersTheSearch(l: Layout) {
    forall known, name :: Ascending(known) && RootRelative(known) ==>
      IndexResolve(name, l, known) == ResolveModule(name, l, known)
  }

  /** The documented equivalence holds exactly for the layouts whose two orders
      agree on every level of the member tree. */
  lemma IndexRefinesSearchExactlyWhen(l: Layout)
    ensures IndexAnswersTheSearch(l) <==> OrdersAgree(l, "", {})
  {
    if OrdersAgree(l, "", {}) {
      forall known, name | Ascending(known) && RootRelative(known)
        ensures IndexResolve(name, l, known) == ResolveModule(name, l, known)
      {
        IndexIsFirstHit(known, Bases(l, ""), Suffix(name));
        SearchIsFirstHit(Suffix(name), l, "", known);
        AgreeingOrdersFindTheSame(l, "", {}, Suffix(name), known);
      }
    } else {
      var p, e := DisagreeingOrdersPart(l, "", {});
      var known := TwoFiles(p, e);
      TwoFilesAreRootRelative(p, e);
      OnlyTheTwoHit(p, e, p);
      OnlyTheTwoHit(p, e, e);
      ModuleFilesAreDistinct(p, e);
      assert Suffix("m") == "m";
      IndexIsFirstHit(known, Bases(l, ""), "m");
      SearchIsFirstHit("m", l, "", known);
      assert IndexResolve("m", l, known) != ResolveModule("m", l, known);
    }
  }

  /** A sufficient check that needs no bookkeeping: on every level no extra root
      is named, or the package root and every extra root are. */
  predicate AllRootsNamed(l: Layout)
    decreases l, 1
  {
    && ((forall e :: e in l.packageRoots ==> e == "") || (OwnRoot(l) != "" && "" !in l.packageRoots))
    && forall m :: m in l.members ==> AllRootsNamed(m.layout)
  }

  lemma {:induction false} NamedRootsAgree(l: Layout, prefix: string, seen: set<string>)
    requires AllRootsNamed(l)
    ensures OrdersAgree(l, prefix, seen)
    decreases l, 1
  {
    SortedSetIsTheSet(l.packageRoots);
    NamedMembersAgree(l.members, prefix, seen + AsSet(LevelSearch(l, prefix)));
  }

  lemma {:induction false} NamedMembersAgree(members: seq<Member>, prefix: string, seen: set<string>)
    requires forall m :: m in members ==> AllRootsNamed(m.layout)
    ensures MembersAgree(members, prefix, seen)
    decreases members, 0
  {
    if members != [] {
      var at := JoinRel(prefix, members[0].path);
      assert members[0] in members;
      NamedRootsAgree(members[0].layout, at, seen);
      NamedMembersAgree(members[1..], prefix, seen + AsSet(SearchOrder(members[0].layout, at)));
    }
  }

  /** The first family the check turns down: the project's own package root is
      empty and a package lives in a named extra root. The search tries the
      project's own directory first, the index last. */
  lemma EmptyRootWithNamedExtraDisagrees(l: Layout, e: string)
    requires OwnRoot(l) == "" && "" !in l.packageRoots
    requires e in l.packageRoots && e != "" && !Dead(e)
    ensures !OrdersAgree(l, "", {}) && !IndexAnswersTheSearch(l)
  {
    SortedSetIsTheSet(l.packageRoots);
    assert e in ExtraRoots(l) && !Settled(JoinRel("", e), {} + AsSet(OwnBase(l, "")));
    IndexRefinesSearchExactlyWhen(l);
  }

  /** The second: a member has the extra root `""` beside a named one, and nothing
      before stands for either directory. The search tries the member's directory
      first; the index knows it as `member/`, below which no file lies, until
      after the named one. */
  lemma MemberWithEmptyAndNamedExtraDisagrees(l: Layout, e: string)
    requires l.members != [] && l.members[0].path != ""
    requires var m := l.members[0].layout; "" in m.packageRoots && e in m.packageRoots && e != ""
    requires
      var p, m := l.members[0].path, l.members[0].layout;
      var before := AsSet(LevelSearch(l, "")) + AsSet(OwnBase(m, p));
      !Settled(p, before) && !Settled(JoinRel(p, e), before)
    ensures !OrdersAgree(l, "", {}) && !IndexAnswersTheSearch(l)
  {
    var p, m := l.members[0].path, l.members[0].layout;
    SortedSetIsTheSet(m.packageRoots);
    assert {} + AsSet(LevelSearch(l, "")) == AsSet(LevelSearch(l, ""));
    assert JoinRel("", p) == p && e in ExtraRoots(m);
    assert !LevelAgrees(m, p, AsSet(LevelSearch(l, "")));
    FirstMemberDisagrees(l, "", {});
    IndexRefinesSearchExactlyWhen(l);
  }

  lemma FirstMemberDisagrees(l: Layout, prefix: string, seen: set<string>)
    requires l.members != []
    requires !LevelAgrees(l.members[0].layout, JoinRel(prefix, l.members[0].path), seen + AsSet(LevelSearch(l, prefix)))
    ensures !OrdersAgree(l, prefix, seen)
  {
    var m, at, before := l.members[0].layout, JoinRel(prefix, l.members[0].path), seen + AsSet(LevelSearch(l, prefix));
    assert !OrdersAgree(m, at, before);
    assert !MembersAgree(l.members, prefix, before);
  }

  /** A member of the first: flat, with one package in `lib`. */
  lemma FlatLayoutWithExtraRootDisagrees()
    ensures var l := Layout(Flat, "", ["lib"], []);
            && !OrdersAgree(l, "", {}) && !IndexAnswersTheSearch(l)
            && SearchOrder(l, "") == ["", "lib"] && Bases(l, "") == ["lib", ""]
  {
    var l := Layout(Flat, "", ["lib"], []);
    OneExtraRootOrders(l);
    assert !DoubleSlash("lib");
    EmptyRootWithNamedExtraDisagrees(l, "lib");
  }

  lemma OneExtraRootOrders(l: Layout)
    requires l == Layout(Flat, "", ["lib"], [])
    ensures SearchOrder(l, "") == ["", "lib"] && Bases(l, "") == ["lib", ""]
  {
    OneRoot("lib");
    assert JoinAll("", ["lib"]) == ["lib"] + JoinAll("", []);
    assert UnderAll("", ["", "lib"]) == ["", "lib"] by {
      assert ["", "lib"] == [""] + ["lib"];
      UnderAllConcat("", [""], ["lib"]);
      assert UnderAll("", [""]) == [""] + UnderAll("", []) && UnderAll("", ["lib"]) == ["lib"] + UnderAll("", []);
    }
    assert RootsTried(l) == ["", "lib"];
  }

  lemma OneRoot(root: string)
    ensures SortedSet([root]) == [root]
  {
    assert [root][1..] == [];
  }

  /** A member of the second: `svc` has a `src` package, one beside it and one in
      `lib`. */
  lemma MemberWithPackageBesideItDisagrees()
    ensures
      var l := Layout(Flat, "", [], [Member("svc", Layout(Src, "src", ["", "lib"], []))]);
      && !OrdersAgree(l, "", {}) && !IndexAnswersTheSearch(l)
      && SearchOrder(l, "") == ["", "svc/src", "svc", "svc/lib", "svc"]
      && Bases(l, "") == ["", "svc/src", "svc/", "svc/lib", "svc"]
  {
    var m := Layout(Src, "src", ["", "lib"], []);
    var l := Layout(Flat, "", [], [Member("svc", m)]);
    MemberExampleRoots(m);
    MemberExampleOrders(l, m);
    LibIsNotSettled();
    assert AsSet(LevelSearch(l, "")) + AsSet(OwnBase(m, "svc")) == {"", "svc/src"};
    MemberWithEmptyAndNamedExtraDisagrees(l, "lib");
  }

  lemma MemberExampleLevel(m: Layout)
    requires m == Layout(Src, "src", ["", "lib"], [])
    ensures SearchOrder(m, "svc") == LevelSearch(m, "svc") == ["svc/src", "svc", "svc/lib", "svc"]
    ensures Bases(m, "svc") == LevelBases(m, "svc") == ["svc/src", "svc/", "svc/lib", "svc"]
  {
    MemberExampleRoots(m);
    LevelSearchShape(m, "svc");
    LevelBasesShape(m, "svc");
  }

  lemma PlainRootLevel(l: Layout)
    requires OwnRoot(l) == "" && l.packageRoots == []
    ensures LevelSearch(l, "") == [""] && LevelBases(l, "") == [""]
  {
    assert ExtraRoots(l) == [];
    assert RootsTried(l) == [""];
    assert LevelSearch(l, "") == [Under("", "")] + UnderAll("", [""][1..]);
    assert LevelBases(l, "") == OwnBase(l, "") + JoinAll("", ExtraRoots(l)) + [""];
  }

  lemma MemberExampleOrders(l: Layout, m: Layout)
    requires m == Layout(Src, "src", ["", "lib"], []) && l == Layout(Flat, "", [], [Member("svc", m)])
    ensures LevelSearch(l, "") == [""]
    ensures SearchOrder(l, "") == ["", "svc/src", "svc", "svc/lib", "svc"]
    ensures Bases(l, "") == ["", "svc/src", "svc/", "svc/lib", "svc"]
  {
    MemberExampleLevel(m);
    PlainRootLevel(l);
    assert l.members[1..] == [] && JoinRel("", "svc") == "svc";
    assert MemberSearchOrder(l.members, "") == SearchOrder(m, "svc") + [];
    assert MemberBases(l.members, "") == Bases(m, "svc") + [];
  }

  lemma MemberExampleRoots(l: Layout)
    requires l == Layout(Src, "src", ["", "lib"], [])
    ensures ExtraRoots(l) == ["", "lib"] && OwnBase(l, "svc") == ["svc/src"] && Extras(l, "svc") == ["svc/lib"]
    ensures JoinRel("svc", "") == "svc/"
  {
    OneRoot("lib");
    assert ["", "lib"][1..] == ["lib"] && ["lib"][1..] == [];
    assert ExtraRoots(l) == ["", "lib"];
    assert "svc" + "/" + "lib" == "svc/lib" && "svc" + "/" + "src" == "svc/src" && "svc" + "/" + "" == "svc/";
    assert Named(["", "lib"]) == Named(["lib"]) == ["lib"];
  }

  lemma LibIsNotSettled()
    ensures !Settled(JoinRel("svc", "lib"), {"", "svc/src"}) && !Settled("svc", {"", "svc/src"})
  {
    assert JoinRel("svc", "lib") == "svc/lib";
    assert !DoubleSlash("svc/lib") && !DoubleSlash("svc");
  }

  // ------------------------------------------------------ building the index

  function Lookup(byTail: map<string, seq<string>>, t: string): seq<string> {
    if t in byTail then byTail[t] else []
  }

  /** `t` is the path or the tail after one of its first `k` characters. */
  ghost predicate IsTailUpto(path: string, t: string, k: nat)
    requires k <= |path|
  {
    t == path || exists j :: 0 <= j < k && path[j] == '/' && path[j + 1..] == t
  }

  ghost function WithTailsUpto(before: seq<string>, path: string, k: nat, t: string): seq<string>
    requires k <= |path|
  {
    FilesWithTail(before, t) + if IsTailUpto(path, t, k) then [path] else []
  }

  /** One more slash is one more tail, and a new one. */
  lemma TailUptoStep(path: string, t: string, k: nat)
    requires k < |path|
    ensures IsTailUpto(path, t, k + 1) <==> IsTailUpto(path, t, k) || (path[k] == '/' && t == path[k + 1..])
    ensures t == path[k + 1..] ==> !IsTailUpto(path, t, k)
  {
  }

  lemma AllTails(path: string, t: string)
    ensures IsTailUpto(path, t, |path|) <==> IsTail(path, t)
  {
    if EndsWith(path, "/" + t) {
      var j := |path| - |t| - 1;
      assert path[j..] == "/" + t;
      assert path[j] == '/' && path[j + 1..] == t;
    }
    if j :| 0 <= j < |path| && path[j] == '/' && path[j + 1..] == t {
      assert path[j..] == "/" + t;
    }
  }

  lemma {:induction false} FilesWithTailSnoc(known: seq<string>, path: string, t: string)
    ensures FilesWithTail(known + [path], t) == FilesWithTail(known, t) + if IsTail(path, t) then [path] else []
  {
    var last := if IsTail(path, t) then [path] else [];
    if known == [] {
      assert [] + [path] == [path] && [path][1..] == [];
      assert FilesWithTail([path], t) == last + FilesWithTail([], t) == [] + last;
    } else {
      var first := if IsTail(known[0], t) then [known[0]] else [];
      assert (known + [path])[1..] == known[1..] + [path];
      FilesWithTailSnoc(known[1..], path, t);
      Reassociate(first, FilesWithTail(known[1..], t), last);
    }
  }

  lemma BasesSplit(before: seq<string>, l: Layout, prefix: string)
    ensures (before + LevelBases(l, prefix)) + MemberBases(l.members, prefix) == before + Bases(l, prefix)
  {
    Reassociate(before, LevelBases(l, prefix), MemberBases(l.members, prefix));
  }

  lemma MemberPushed(before: seq<string>, members: seq<Member>, m: nat, prefix: string)
    requires m < |members|
    ensures (before + Bases(members[m].layout, JoinRel(prefix, members[m].path)))
            + MemberBases(members[m + 1..], prefix)
         == before + MemberBases(members[m..], prefix)
  {
    assert members[m..][0] == members[m] && members[m..][1..] == members[m + 1..];
    Reassociate(before, Bases(members[m].layout, JoinRel(prefix, members[m].path)),
      MemberBases(members[m + 1..], prefix));
  }

  /** The index over one file set; `bases` and `baseRank` come from the layout. */
  class Index {
    const knownPaths: seq<string>
    var byTail: map<string, seq<string>>
    var bases: seq<string>
    var baseRank: map<string, nat>

    ghost predicate Represents(l: Layout)
      reads this
    {
      && bases == Bases(l, "")
      && baseRank == Ranks(bases)
      && forall t :: Lookup(byTail, t) == FilesWithTail(knownPaths, t)
    }

    constructor (known: seq<string>, l: Layout)
      ensures knownPaths == known && Represents(l)
    {
      knownPaths := known;
      byTail, bases, baseRank := map[], [], map[];
      new;
      for i := 0 to |known|
        invariant bases == [] && baseRank == map[]
        invariant forall t :: Lookup(byTail, t) == FilesWithTail(known[..i], t)
      {
        AddTails(known[..i], known[i]);
        assert known[..i + 1] == known[..i] + [known[i]];
      }
      assert known[..|known|] == known;
      PushBases(l, "");
      RankBases();
    }

    method AddTails(ghost before: seq<string>, path: string)
      requires forall t :: Lookup(byTail, t) == FilesWithTail(before, t)
      modifies this`byTail
      ensures forall t :: Lookup(byTail, t) == FilesWithTail(before + [path], t)
    {
      byTail := byTail[path := Lookup(byTail, path) + [path]];
      for k := 0 to |path|
        invariant forall t :: Lookup(byTail, t) == WithTailsUpto(before, path, k, t)
      {
        ghost var was := byTail;
        if path[k] == '/' {
          var tail := path[k + 1..];
          byTail := byTail[tail := Lookup(byTail, tail) + [path]];
        }
        forall t ensures Lookup(byTail, t) == WithTailsUpto(before, path, k + 1, t) {
          TailUptoStep(path, t, k);
          assert Lookup(was, t) == WithTailsUpto(before, path, k, t);
        }
      }
      forall t ensures Lookup(byTail, t) == FilesWithTail(before + [path], t) {
        AllTails(path, t);
        FilesWithTailSnoc(before, path, t);
      }
    }

    method PushLevel(l: Layout, prefix: string)
      modifies this`bases
      ensures bases == old(bases) + LevelBases(l, prefix)
    {
      ghost var start := bases;
      ghost var target := start + OwnBase(l, prefix) + JoinAll(prefix, ExtraRoots(l));
      if OwnRoot(l) != "" {
        bases := bases + [JoinRel(prefix, OwnRoot(l))];
      }
      var extra := ExtraRoots(l);
      assert extra[0..] == extra;
      for k := 0 to |extra|
        invariant bases + JoinAll(prefix, extra[k..]) == target
      {
        assert extra[k..][1..] == extra[k + 1..];
        Reassociate(bases, [JoinRel(prefix, extra[k])], JoinAll(prefix, extra[k + 1..]));
        bases := bases + [JoinRel(prefix, extra[k])];
      }
      assert extra[|extra|..] == [];
      Reassociate(start, OwnBase(l, prefix), JoinAll(prefix, extra));
      Reassociate(start, OwnBase(l, prefix) + JoinAll(prefix, extra), [prefix]);
      bases := bases + [prefix];
    }

    method PushBases(l: Layout, prefix: string)
      modifies this`bases
      ensures bases == old(bases) + Bases(l, prefix)
      decreases l
    {
      BasesSplit(bases, l, prefix);
      PushLevel(l, prefix);
      ghost var target := bases + MemberBases(l.members, prefix);
      assert l.members[0..] == l.members;
      for m := 0 to |l.members|
        invariant bases + MemberBases(l.members[m..], prefix) == target
      {
        MemberPushed(bases, l.members, m, prefix);
        PushBases(l.members[m].layout, JoinRel(prefix, l.members[m].path));
      }
      assert l.members[|l.members|..] == [];
    }

    method RankBases()
      requires baseRank == map[]
      modifies this`baseRank
      ensures baseRank == Ranks(bases)
    {
      for rank := 0 to |bases|
        invariant baseRank == Ranks(bases[..rank])
      {
        assert bases[..rank + 1][..rank] == bases[..rank];
        if bases[rank] !in baseRank {
          baseRank := baseRank[bases[rank] := rank];
        }
      }
      assert bases[..|bases|] == bases;
    }

    function Resolve(name: string): Option<string>
      reads this
    {
      var t0, t1 := Suffix(name) + INIT, Suffix(name) + PY;
      HitPath(Best(HitsFor(Lookup(byTail, t0), t0, 0, baseRank) + HitsFor(Lookup(byTail, t1), t1, 1, baseRank)))
    }

    lemma ResolveIsIndexResolve(l: Layout, name: string)
      requires Represents(l)
      ensures Resolve(name) == IndexResolve(name, l, knownPaths)
    {
      var t0, t1 := Suffix(name) + INIT, Suffix(name) + PY;
      assert Lookup(byTail, t0) == FilesWithTail(knownPaths, t0);
      assert Lookup(byTail, t1) == FilesWithTail(knownPaths, t1);
    }

    /** A regular package's directory, or the first base's directory of that name
        that holds files, found by probing the sorted paths. */
    function PackageDir(name: string): Option<string>
      reads this
    {
      match Resolve(name)
      case Some(path) => if EndsWith(path, INIT) then Some(path[..|path| - |INIT|]) else None
      case None => ProbeDirs(bases, Suffix(name), knownPaths)
    }

    function ModulesNear(dir: string): seq<string> {
      NearIn(TakePrefixed(RangeFrom(knownPaths, dir + "/"), dir + "/"), |dir| + 1)
    }
  }

  // ---------------------------------------------------- scans stand for filters

  function ProbeDirs(bases: seq<string>, suffix: string, known: seq<string>): Option<string> {
    if bases == [] then None
    else
      var dir := JoinRel(bases[0], suffix);
      var from := RangeFrom(known, dir + "/");
      if from != [] && dir + "/" <= from[0] then Some(dir) else ProbeDirs(bases[1..], suffix, known)
  }

  ghost predicate HoldsFiles(dir: string, known: seq<string>) {
    exists p :: p in known && dir + "/" <= p
  }

  /** Probing finds the first base whose directory of that name holds any file,
      and nothing exactly when none does. */
  lemma {:induction false} ProbeFindsFirstDirWithFiles(bases: seq<string>, suffix: string, known: seq<string>)
    returns (r: nat)
    requires Ascending(known)
    ensures r <= |bases|
    ensures ProbeDirs(bases, suffix, known) == if r < |bases| then Some(JoinRel(bases[r], suffix)) else None
    ensures r < |bases| ==> HoldsFiles(JoinRel(bases[r], suffix), known)
    ensures forall i :: 0 <= i < r ==> !HoldsFiles(JoinRel(bases[i], suffix), known)
  {
    r := 0;
    if bases != [] {
      ProbeIsExists(known, JoinRel(bases[0], suffix) + "/");
      if !HoldsFiles(JoinRel(bases[0], suffix), known) {
        var tail := ProbeFindsFirstDirWithFiles(bases[1..], suffix, known);
        r := tail + 1;
        forall i | 0 <= i < r ensures !HoldsFiles(JoinRel(bases[i], suffix), known) {
          if i > 0 {
            assert bases[i] == bases[1..][i - 1];
          }
        }
      }
    }
  }

  function Slashes(s: string): nat {
    if s == "" then 0 else (if s[0] == '/' then 1 else 0) + Slashes(s[1..])
  }

  /** What follows the last slash. */
  function LastName(s: string): string {
    if s == "" then ""
    else if '/' in s then LastName(s[1..])
    else s
  }

  /** A `.py` file that is no `__init__.py`, at most one directory down. */
  predicate IsNear(rest: string) {
    var name := LastName(rest);
    Slashes(rest) <= 1 && name != "__init__.py" && EndsWith(name, PY) && |name| > |PY|
  }

  function NearIn(paths: seq<string>, skip: nat): seq<string> {
    if paths == [] then []
    else (if skip <= |paths[0]| && IsNear(paths[0][skip..]) then [paths[0]] else []) + NearIn(paths[1..], skip)
  }

  /** The plain filter the scan for near modules stands for. */
  function NearOf(paths: seq<string>, dir: string): seq<string> {
    if paths == [] then []
    else
      (if dir + "/" <= paths[0] && IsNear(paths[0][|dir| + 1..]) then [paths[0]] else []) + NearOf(paths[1..], dir)
  }

  lemma {:induction false} NearInPrefixed(paths: seq<string>, dir: string)
    ensures NearIn(WithPrefix(paths, dir + "/"), |dir| + 1) == NearOf(paths, dir)
  {
    if paths != [] {
      NearInPrefixed(paths[1..], dir);
      var rest := WithPrefix(paths[1..], dir + "/");
      if dir + "/" <= paths[0] {
        assert ([paths[0]] + rest)[1..] == rest;
      } else {
        assert [] + rest == rest;
      }
    }
  }

  /** The scan for modules near a directory is a plain filter over all files, in
      their order. */
  lemma ModulesNearIsPlainFilter(index: Index, dir: string)
    requires Ascending(index.knownPaths)
    ensures index.ModulesNear(dir) == NearOf(index.knownPaths, dir)
  {
    ScanIsFilter(index.knownPaths, dir + "/");
    NearInPrefixed(index.knownPaths, dir);
  }

  ghost predicate FirstDirWithFiles(bases: seq<string>, suffix: string, known: seq<string>, dir: string) {
    exists r :: 0 <= r < |bases| && dir == JoinRel(bases[r], suffix) && HoldsFiles(dir, known)
      && forall i :: 0 <= i < r ==> !HoldsFiles(JoinRel(bases[i], suffix), known)
  }

  lemma EndsInInit(path: string, dir: string)
    ensures EndsWith(path, INIT) && path[..|path| - |INIT|] == dir <==> path == dir + INIT
  {
    if EndsWith(path, INIT) {
      assert path == path[..|path| - |INIT|] + INIT;
    }
  }

  lemma ProbeIsFirstDir(bases: seq<string>, suffix: string, known: seq<string>, dir: string)
    requires Ascending(known)
    ensures ProbeDirs(bases, suffix, known) == Some(dir) <==> FirstDirWithFiles(bases, suffix, known, dir)
  {
    var r := ProbeFindsFirstDirWithFiles(bases, suffix, known);
    if FirstDirWithFiles(bases, suffix, known, dir) {
      var q :| 0 <= q < |bases| && dir == JoinRel(bases[q], suffix) && HoldsFiles(dir, known)
        && forall i :: 0 <= i < q ==> !HoldsFiles(JoinRel(bases[i], suffix), known);
      assert q == r;
    }
  }

  /** A name is a package in `dir` exactly when the index answers with the init in
      `dir`, or has no file for the name and `dir` is the first directory of that
      name holding any. So a name the index finds a module for is no package. */
  lemma PackageDirIsInitOrNamespace(index: Index, l: Layout, name: string, dir: string)
    requires index.Represents(l) && Ascending(index.knownPaths)
    ensures index.PackageDir(name) == Some(dir) <==>
      || IndexResolve(name, l, index.knownPaths) == Some(dir + INIT)
      || (&& IndexResolve(name, l, index.knownPaths) == None
          && FirstDirWithFiles(Bases(l, ""), Suffix(name), index.knownPaths, dir))
  {
    index.ResolveIsIndexResolve(l, name);
    match index.Resolve(name) {
      case Some(path) => EndsInInit(path, dir);
      case None => ProbeIsFirstDir(index.bases, Suffix(name), index.knownPaths, dir);
    }
  }
}

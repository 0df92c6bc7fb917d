/**
 Merging entry candidates into one root per file, in one batch or one at a time.

 A candidate names a file, perhaps a symbol of it, the context it runs in and where
 the claim comes from. A root gathers the candidates of its file: every symbol, each
 origin once in the order first seen, and a runtime context as soon as one candidate
 is runtime code. The batch goes through an ordered map; a plan takes candidates one
 at a time and sorts later. Both are proved against one description of the merge, so
 they agree, and under `--production` the roots left over are those with a runtime
 candidate or one collected after the filter.
 */
module EntryMerge {
  import opened Common
  import opened Lists
  import opened Text

  datatype FileContext = Runtime | Test | Docs | Dev

  datatype Origin =
    | Config
    | Manifest(name: string, section: string)
    | Plugin(plugin: string, caption: string)
    | Auto(rule: string)
    | SymbolRef(target: string, symbol: string, caption: string)
    | Script
    | Command(caption: string)
    | BuildBackend

  datatype Candidate = Candidate(path: string, symbol: Option<string>, context: FileContext, origin: Origin)

  datatype Root = Root(path: string, symbols: set<string>, context: FileContext, origins: seq<Origin>)

  // ------------------------------------------------------------ what a root is

  /** The candidates for one path, in order. */
  function At(cs: seq<Candidate>, path: string): seq<Candidate> {
    if cs == [] then []
    else
      var last := cs[|cs| - 1];
      At(cs[..|cs| - 1], path) + if last.path == path then [last] else []
  }

  function Origins(cs: seq<Candidate>): seq<Origin> {
    seq(|cs|, i requires 0 <= i < |cs| => cs[i].origin)
  }

  function Symbols(cs: seq<Candidate>): set<string> {
    set c | c in cs && c.symbol.Some? :: c.symbol.value
  }

  function ContextOf(cs: seq<Candidate>): FileContext
    requires cs != []
  {
    if exists c :: c in cs && c.context.Runtime? then Runtime else cs[0].context
  }

  predicate Occurs(cs: seq<Candidate>, path: string) {
    At(cs, path) != []
  }

  /** Every symbol, each origin once in first-seen order, and a runtime context if
      any candidate is runtime, the first one's otherwise. */
  function RootFor(cs: seq<Candidate>, path: string): Root
    requires Occurs(cs, path)
  {
    var at := At(cs, path);
    Root(path, Symbols(at), ContextOf(at), Dedup(Origins(at)))
  }

  function Paths(cs: seq<Candidate>): seq<string> {
    seq(|cs|, i requires 0 <= i < |cs| => cs[i].path)
  }

  lemma {:induction false} AtMembers(cs: seq<Candidate>, path: string)
    ensures forall c :: c in At(cs, path) <==> c in cs && c.path == path
  {
    if cs != [] {
      AtMembers(cs[..|cs| - 1], path);
      assert cs == cs[..|cs| - 1] + [cs[|cs| - 1]];
    }
  }

  lemma OccursIsInPaths(cs: seq<Candidate>, path: string)
    ensures Occurs(cs, path) <==> path in Paths(cs)
  {
    AtMembers(cs, path);
    if Occurs(cs, path) {
      assert At(cs, path)[0] in At(cs, path);
      var i :| 0 <= i < |cs| && cs[i] == At(cs, path)[0];
      assert Paths(cs)[i] == path;
    }
    if path in Paths(cs) {
      var i :| 0 <= i < |cs| && Paths(cs)[i] == path;
      assert cs[i] in At(cs, path);
    }
  }

  lemma AtStep(cs: seq<Candidate>, c: Candidate, path: string)
    ensures At(cs + [c], path) == if c.path == path then At(cs, path) + [c] else At(cs, path)
  {
    assert (cs + [c])[..|cs|] == cs;
  }

  // ----------------------------------------------------- merging one candidate

  function FromCandidate(c: Candidate): Root {
    Root(c.path, if c.symbol.Some? then {c.symbol.value} else {}, c.context, [c.origin])
  }

  function PreferContext(existing: FileContext, incoming: FileContext): FileContext {
    if existing == Runtime || incoming == Runtime then Runtime else existing
  }

  function MergeCandidate(root: Root, c: Candidate): Root {
    Root(
      root.path,
      root.symbols + if c.symbol.Some? then {c.symbol.value} else {},
      PreferContext(root.context, c.context),
      if c.origin in root.origins then root.origins else root.origins + [c.origin])
  }

  lemma FirstCandidate(cs: seq<Candidate>, c: Candidate)
    requires !Occurs(cs, c.path)
    ensures Occurs(cs + [c], c.path) && RootFor(cs + [c], c.path) == FromCandidate(c)
  {
    AtStep(cs, c, c.path);
    assert At(cs, c.path) + [c] == [c];
    OneOrigin(c);
    OneContext(c);
  }

  lemma OneOrigin(c: Candidate)
    ensures Dedup(Origins([c])) == [c.origin]
  {
    assert Origins([c]) == [] + [c.origin];
    DedupStep([], c.origin);
  }

  lemma OneContext(c: Candidate)
    ensures ContextOf([c]) == c.context
    ensures Symbols([c]) == if c.symbol.Some? then {c.symbol.value} else {}
  {
  }

  lemma NextCandidate(cs: seq<Candidate>, c: Candidate)
    requires Occurs(cs, c.path)
    ensures Occurs(cs + [c], c.path) && RootFor(cs + [c], c.path) == MergeCandidate(RootFor(cs, c.path), c)
  {
    var at := At(cs, c.path);
    AtStep(cs, c, c.path);
    assert Origins(at + [c]) == Origins(at) + [c.origin];
    DedupStep(Origins(at), c.origin);
  }

  lemma OtherPath(cs: seq<Candidate>, c: Candidate, path: string)
    requires path != c.path
    ensures Occurs(cs + [c], path) <==> Occurs(cs, path)
    ensures Occurs(cs, path) ==> RootFor(cs + [c], path) == RootFor(cs, path)
  {
    AtStep(cs, c, path);
  }

  // ----------------------------------------------------------------- the batch

  /** One root per path, by ascending path. */
  ghost predicate IsMerge(roots: seq<Root>, cs: seq<Candidate>) {
    && (forall i, j :: 0 <= i < j < |roots| ==> Less(roots[i].path, roots[j].path))
    && Covers(roots, cs)
  }

  /** One root per path, in any order. */
  ghost predicate Covers(roots: seq<Root>, cs: seq<Candidate>) {
    && (forall i, j :: 0 <= i < j < |roots| ==> roots[i].path != roots[j].path)
    && (forall i :: 0 <= i < |roots| ==> Occurs(cs, roots[i].path) && roots[i] == RootFor(cs, roots[i].path))
    && (forall p :: Occurs(cs, p) ==> exists i :: 0 <= i < |roots| && roots[i].path == p)
  }

  method MergeEntryCandidates(candidates: seq<Candidate>) returns (roots: seq<Root>)
    ensures IsMerge(roots, candidates)
  {
    var merged: map<string, Root> := map[];
    var keys: seq<string> := [];
    for i := 0 to |candidates|
      invariant Ascending(keys)
      invariant MapsEach(merged, keys, candidates[..i])
    {
      var c := candidates[i];
      ghost var seen := candidates[..i];
      assert candidates[..i + 1] == seen + [c];
      MapStep(merged, keys, seen, c);
      InsertKeepsAscending(keys, c.path);
      if c.path in merged {
        merged := merged[c.path := MergeCandidate(merged[c.path], c)];
      } else {
        merged := merged[c.path := FromCandidate(c)];
        keys := Insert(keys, c.path);
      }
    }
    assert candidates[..|candidates|] == candidates;
    roots := [];
    for k := 0 to |keys|
      invariant |roots| == k && forall j :: 0 <= j < k ==> keys[j] in merged && roots[j] == merged[keys[j]]
    {
      assert keys[k] in keys;
      roots := roots + [merged[keys[k]]];
    }
    ValuesMerge(merged, keys, candidates, roots);
  }

  /** The ordered map's keys and values after the candidates `cs`. */
  ghost predicate MapsEach(merged: map<string, Root>, keys: seq<string>, cs: seq<Candidate>) {
    forall p ::
      (p in keys <==> p in merged) && (p in merged <==> Occurs(cs, p)) && (p in merged ==> merged[p] == RootFor(cs, p))
  }

  lemma MapStep(merged: map<string, Root>, keys: seq<string>, cs: seq<Candidate>, c: Candidate)
    requires MapsEach(merged, keys, cs)
    ensures c.path in merged ==> MapsEach(merged[c.path := MergeCandidate(merged[c.path], c)], keys, cs + [c])
    ensures c.path !in merged ==> MapsEach(merged[c.path := FromCandidate(c)], Insert(keys, c.path), cs + [c])
  {
    if c.path in merged {
      NextCandidate(cs, c);
      SetOne(merged, keys, cs, c, MergeCandidate(merged[c.path], c), keys);
    } else {
      FirstCandidate(cs, c);
      InsertMembers(keys, c.path);
      SetOne(merged, keys, cs, c, FromCandidate(c), Insert(keys, c.path));
    }
  }

  lemma SetOne(
    merged: map<string, Root>, keys: seq<string>, cs: seq<Candidate>, c: Candidate, root: Root, keys': seq<string>)
    requires MapsEach(merged, keys, cs)
    requires Occurs(cs + [c], c.path) && root == RootFor(cs + [c], c.path)
    requires forall p :: p in keys' <==> p in keys || p == c.path
    ensures MapsEach(merged[c.path := root], keys', cs + [c])
  {
    var after := merged[c.path := root];
    forall p | p != c.path ensures (p in after <==> Occurs(cs + [c], p)) && (p in after ==> after[p] == merged[p])
      ensures p in after ==> after[p] == RootFor(cs + [c], p)
    {
      OtherPath(cs, c, p);
    }
  }

  lemma ValuesMerge(merged: map<string, Root>, keys: seq<string>, cs: seq<Candidate>, roots: seq<Root>)
    requires Ascending(keys) && MapsEach(merged, keys, cs)
    requires |roots| == |keys| && forall j :: 0 <= j < |keys| ==> keys[j] in merged && roots[j] == merged[keys[j]]
    ensures IsMerge(roots, cs)
  {
    forall i, j | 0 <= i < j < |roots| ensures Less(roots[i].path, roots[j].path) && roots[i].path != roots[j].path {
      LessIsIrreflexive(keys[i]);
    }
    forall p | Occurs(cs, p) ensures exists i :: 0 <= i < |roots| && roots[i].path == p {
      assert p in keys;
      var i :| 0 <= i < |keys| && keys[i] == p;
      assert roots[i].path == p;
    }
  }

  // ----------------------------------------------------------- one at a time

  class EntryPlan {
    var roots: seq<Root>

    constructor (merged: seq<Root>)
      ensures roots == merged
    {
      roots := merged;
    }

    /** Merges a candidate into the root of its path; `seen` are all before it. */
    method PushCandidate(c: Candidate, ghost seen: seq<Candidate>)
      requires Covers(roots, seen)
      modifies this
      ensures Covers(roots, seen + [c])
      ensures roots == Pushed(old(roots), c)
    {
      var at := 0;
      while at < |roots| && roots[at].path != c.path
        invariant roots == old(roots) && at <= |roots|
        invariant forall i :: 0 <= i < at ==> roots[i].path != c.path
      {
        at := at + 1;
      }
      PushedAt(roots, c, at);
      if at < |roots| {
        AbsorbCovers(roots, seen, c, at);
        roots := roots[at := MergeCandidate(roots[at], c)];
      } else {
        AppendCovers(roots, seen, c);
        roots := roots + [FromCandidate(c)];
      }
    }
  }

  /** The first root of the path absorbs the candidate; a new path goes last. */
  function Pushed(roots: seq<Root>, c: Candidate): seq<Root> {
    if roots == [] then [FromCandidate(c)]
    else if roots[0].path == c.path then [MergeCandidate(roots[0], c)] + roots[1..]
    else [roots[0]] + Pushed(roots[1..], c)
  }

  lemma {:induction false} PushedAt(roots: seq<Root>, c: Candidate, at: nat)
    requires at <= |roots| && (forall i :: 0 <= i < at ==> roots[i].path != c.path)
    requires at < |roots| ==> roots[at].path == c.path
    ensures Pushed(roots, c) ==
      if at < |roots| then roots[at := MergeCandidate(roots[at], c)] else roots + [FromCandidate(c)]
  {
    if at > 0 {
      PushedAt(roots[1..], c, at - 1);
      assert roots == [roots[0]] + roots[1..];
    }
  }

  lemma OthersStay(roots: seq<Root>, seen: seq<Candidate>, c: Candidate)
    requires Covers(roots, seen)
    ensures forall i :: 0 <= i < |roots| && roots[i].path != c.path ==>
      Occurs(seen + [c], roots[i].path) && roots[i] == RootFor(seen + [c], roots[i].path)
    ensures forall p :: Occurs(seen + [c], p) && p != c.path ==> exists i :: 0 <= i < |roots| && roots[i].path == p
  {
    forall i | 0 <= i < |roots| && roots[i].path != c.path
      ensures Occurs(seen + [c], roots[i].path) && roots[i] == RootFor(seen + [c], roots[i].path)
    {
      OtherPath(seen, c, roots[i].path);
    }
    forall p | Occurs(seen + [c], p) && p != c.path ensures exists i :: 0 <= i < |roots| && roots[i].path == p {
      OtherPath(seen, c, p);
    }
  }

  lemma AbsorbedRoots(roots: seq<Root>, seen: seq<Candidate>, c: Candidate, at: nat)
    requires Covers(roots, seen) && at < |roots| && roots[at].path == c.path
    ensures var after := roots[at := MergeCandidate(roots[at], c)];
      && (forall i :: 0 <= i < |after| ==> after[i].path == roots[i].path)
      && forall i :: 0 <= i < |after| ==>
        Occurs(seen + [c], after[i].path) && after[i] == RootFor(seen + [c], after[i].path)
  {
    NextCandidate(seen, c);
    OthersStay(roots, seen, c);
    forall i | 0 <= i < |roots| && i != at ensures roots[i].path != c.path {
    }
  }

  lemma AbsorbCovers(roots: seq<Root>, seen: seq<Candidate>, c: Candidate, at: nat)
    requires Covers(roots, seen) && at < |roots| && roots[at].path == c.path
    ensures Covers(roots[at := MergeCandidate(roots[at], c)], seen + [c])
  {
    var after := roots[at := MergeCandidate(roots[at], c)];
    AbsorbedRoots(roots, seen, c, at);
    forall p | Occurs(seen + [c], p) ensures exists i :: 0 <= i < |after| && after[i].path == p {
      if p == c.path {
        assert after[at].path == p;
      } else {
        OtherPath(seen, c, p);
        var i :| 0 <= i < |roots| && roots[i].path == p;
        assert after[i].path == p;
      }
    }
  }

  lemma AppendCovers(roots: seq<Root>, seen: seq<Candidate>, c: Candidate)
    requires Covers(roots, seen) && forall i :: 0 <= i < |roots| ==> roots[i].path != c.path
    ensures Covers(roots + [FromCandidate(c)], seen + [c])
  {
    var after := roots + [FromCandidate(c)];
    FirstCandidate(seen, c);
    OthersStay(roots, seen, c);
    assert after[|roots|].path == c.path;
    forall p | Occurs(seen + [c], p) ensures exists i :: 0 <= i < |after| && after[i].path == p {
      if p != c.path {
        var i :| 0 <= i < |roots| && roots[i].path == p;
        assert after[i].path == p;
      }
    }
  }

  function PushedAll(roots: seq<Root>, cs: seq<Candidate>): seq<Root>
    decreases |cs|
  {
    if cs == [] then roots else PushedAll(Pushed(roots, cs[0]), cs[1..])
  }

  lemma {:induction false} PushedKeepsCover(roots: seq<Root>, seen: seq<Candidate>, c: Candidate)
    requires Covers(roots, seen)
    ensures Covers(Pushed(roots, c), seen + [c])
  {
    var at := FirstOf(roots, c.path);
    PushedAt(roots, c, at);
    if at < |roots| {
      AbsorbCovers(roots, seen, c, at);
    } else {
      AppendCovers(roots, seen, c);
    }
  }

  lemma {:induction false} FirstOf(roots: seq<Root>, path: string) returns (at: nat)
    ensures at <= |roots| && (forall i :: 0 <= i < at ==> roots[i].path != path)
    ensures at < |roots| ==> roots[at].path == path
  {
    at := 0;
    if roots != [] && roots[0].path != path {
      var below := FirstOf(roots[1..], path);
      at := below + 1;
    }
  }

  lemma {:induction false} PushedAllCovers(roots: seq<Root>, seen: seq<Candidate>, cs: seq<Candidate>)
    requires Covers(roots, seen)
    ensures Covers(PushedAll(roots, cs), seen + cs)
    decreases |cs|
  {
    if cs == [] {
      assert seen + cs == seen;
    } else {
      PushedKeepsCover(roots, seen, cs[0]);
      PushedAllCovers(Pushed(roots, cs[0]), seen + [cs[0]], cs[1..]);
      assert (seen + [cs[0]]) + cs[1..] == seen + cs;
    }
  }

  // ------------------------------------------------- the two forms agree

  ghost predicate SortedByPath(roots: seq<Root>, sorted: seq<Root>) {
    && multiset(roots) == multiset(sorted)
    && forall i, j :: 0 <= i < j < |sorted| ==> !Less(sorted[j].path, sorted[i].path)
  }

  /** A merge is determined by its candidates. */
  lemma MergeIsUnique(a: seq<Root>, b: seq<Root>, cs: seq<Candidate>)
    requires IsMerge(a, cs) && IsMerge(b, cs)
    ensures a == b
  {
    var p, q := RootPaths(a), RootPaths(b);
    forall x ensures x in p <==> x in q {
      RootPathsAre(a, cs, x);
      RootPathsAre(b, cs, x);
    }
    AscendingIsCanonical(p, q);
    forall i | 0 <= i < |a| ensures a[i] == b[i] {
      assert p[i] == q[i];
    }
  }

  function RootPaths(roots: seq<Root>): seq<string> {
    seq(|roots|, i requires 0 <= i < |roots| => roots[i].path)
  }

  /** The paths of the roots are the paths of the candidates. */
  lemma RootPathsAre(roots: seq<Root>, cs: seq<Candidate>, path: string)
    requires Covers(roots, cs)
    ensures path in RootPaths(roots) <==> path in Paths(cs)
  {
    OccursIsInPaths(cs, path);
    if path in Paths(cs) {
      var i :| 0 <= i < |roots| && roots[i].path == path;
      assert RootPaths(roots)[i] == path;
    }
  }

  /** Pushing `ys` onto the merge of `xs` and sorting gives the merge of both. */
  lemma IncrementalMergeIsBatchMerge(
    xs: seq<Candidate>, ys: seq<Candidate>, merged: seq<Root>, sorted: seq<Root>, batch: seq<Root>)
    requires IsMerge(merged, xs)
    requires SortedByPath(PushedAll(merged, ys), sorted)
    requires IsMerge(batch, xs + ys)
    ensures sorted == batch
  {
    PushedAllCovers(merged, xs, ys);
    SortedCoverIsMerge(PushedAll(merged, ys), sorted, xs + ys);
    MergeIsUnique(sorted, batch, xs + ys);
  }

  lemma SortedCoverIsMerge(roots: seq<Root>, sorted: seq<Root>, cs: seq<Candidate>)
    requires Covers(roots, cs) && SortedByPath(roots, sorted)
    ensures IsMerge(sorted, cs)
  {
    forall i, j | 0 <= i < j < |sorted| ensures sorted[i].path != sorted[j].path {
      PermutationKeepsPathsApart(roots, sorted, i, j);
    }
    forall i, j | 0 <= i < j < |sorted| ensures Less(sorted[i].path, sorted[j].path) {
      LessIsTotal(sorted[i].path, sorted[j].path);
    }
    forall i | 0 <= i < |sorted| ensures sorted[i] in roots {
      assert sorted[i] in multiset(sorted);
    }
    forall p | Occurs(cs, p) ensures exists i :: 0 <= i < |sorted| && sorted[i].path == p {
      var k :| 0 <= k < |roots| && roots[k].path == p;
      assert roots[k] in multiset(roots);
      assert roots[k] in sorted;
    }
  }

  lemma PermutationKeepsPathsApart(roots: seq<Root>, sorted: seq<Root>, i: nat, j: nat)
    requires multiset(roots) == multiset(sorted)
    requires forall k, l :: 0 <= k < l < |roots| ==> roots[k].path != roots[l].path
    requires i < j < |sorted|
    ensures sorted[i].path != sorted[j].path
  {
    assert sorted[i] in multiset(sorted) && sorted[j] in multiset(sorted);
    var k :| 0 <= k < |roots| && roots[k] == sorted[i];
    var l :| 0 <= l < |roots| && roots[l] == sorted[j];
    if k == l {
      CountAtLeastTwo(sorted, i, j);
      CountAtMostOne(roots, k);
    }
  }

  lemma CountAtLeastTwo(xs: seq<Root>, i: nat, j: nat)
    requires i < j < |xs| && xs[i] == xs[j]
    ensures multiset(xs)[xs[i]] >= 2
  {
    assert xs == xs[..j] + [xs[j]] + xs[j + 1..];
    assert xs[..j][i] == xs[i];
    assert xs[i] in multiset(xs[..j]);
  }

  lemma CountAtMostOne(xs: seq<Root>, k: nat)
    requires k < |xs| && forall i, j :: 0 <= i < j < |xs| ==> xs[i].path != xs[j].path
    ensures multiset(xs)[xs[k]] == 1
  {
    assert xs == xs[..k] + [xs[k]] + xs[k + 1..];
    assert xs[k] !in xs[..k] && xs[k] !in xs[k + 1..];
  }

  // -------------------------------------------- nothing is lost in a merge

  /** Each candidate's symbol and origin are in its root, each origin once; nothing
      else is; the root is runtime exactly when some candidate is. */
  lemma MergeKeepsEverything(roots: seq<Root>, cs: seq<Candidate>, i: nat)
    requires IsMerge(roots, cs) && i < |roots|
    ensures forall s :: s in roots[i].symbols <==> exists c :: c in cs && c.path == roots[i].path && c.symbol == Some(s)
    ensures forall o :: o in roots[i].origins <==> exists c :: c in cs && c.path == roots[i].path && c.origin == o
    ensures Distinct(roots[i].origins)
    ensures roots[i].context.Runtime? <==> exists c :: c in cs && c.path == roots[i].path && c.context.Runtime?
  {
    var at := At(cs, roots[i].path);
    AtMembers(cs, roots[i].path);
    DedupIsDistinct(Origins(at));
    assert at[0] in at;
    forall o ensures o in roots[i].origins <==> exists c :: c in cs && c.path == roots[i].path && c.origin == o {
      DedupMembers(Origins(at), o);
      if o in Origins(at) {
        var k :| 0 <= k < |at| && Origins(at)[k] == o;
        assert at[k] in at;
      }
      if c :| c in at && c.origin == o {
        var k :| 0 <= k < |at| && at[k] == c;
        assert Origins(at)[k] == o;
      }
    }
  }

  /** `candidates.retain(is_included_in_production)` */
  function InProduction(cs: seq<Candidate>): seq<Candidate> {
    if cs == [] then [] else (if cs[0].context.Runtime? then [cs[0]] else []) + InProduction(cs[1..])
  }

  lemma {:induction false} InProductionMembers(cs: seq<Candidate>)
    ensures forall c :: c in InProduction(cs) <==> c in cs && c.context.Runtime?
  {
    if cs != [] {
      InProductionMembers(cs[1..]);
      assert cs == [cs[0]] + cs[1..];
    }
  }

  /** `roots.retain(retain_existing_root)` */
  function Retain(roots: seq<Root>, known: set<string>): seq<Root> {
    if roots == [] then [] else (if roots[0].path in known then [roots[0]] else []) + Retain(roots[1..], known)
  }

  lemma {:induction false} RetainedMembers(roots: seq<Root>, known: set<string>)
    ensures forall r :: r in Retain(roots, known) <==> r in roots && r.path in known
  {
    if roots != [] {
      RetainedMembers(roots[1..], known);
      assert roots == [roots[0]] + roots[1..];
    }
  }

  lemma ConsAscends(x: string, xs: seq<string>)
    requires Ascending(xs) && forall y :: y in xs ==> Less(x, y)
    ensures Ascending([x] + xs)
  {
    var all := [x] + xs;
    forall i, j | 0 <= i < j < |all| ensures Less(all[i], all[j]) {
      assert all[j] == xs[j - 1] && xs[j - 1] in xs;
      if i > 0 {
        assert all[i] == xs[i - 1];
      }
    }
  }

  lemma TailIsAbove(xs: seq<string>)
    requires xs != [] && Ascending(xs)
    ensures Ascending(xs[1..]) && forall y :: y in xs[1..] ==> Less(xs[0], y)
  {
  }

  lemma {:induction false} RetainKeepsOrder(roots: seq<Root>, known: set<string>)
    requires Ascending(RootPaths(roots))
    ensures Ascending(RootPaths(Retain(roots, known)))
  {
    if roots != [] {
      var rest := Retain(roots[1..], known);
      TailIsAbove(RootPaths(roots));
      assert RootPaths(roots)[1..] == RootPaths(roots[1..]);
      RetainKeepsOrder(roots[1..], known);
      forall y | y in RootPaths(rest) ensures Less(roots[0].path, y) {
        RetainedPaths(roots[1..], known, y);
      }
      ConsAscends(roots[0].path, RootPaths(rest));
      assert RootPaths([roots[0]] + rest) == [roots[0].path] + RootPaths(rest);
      assert [] + rest == rest;
    }
  }

  ghost predicate HasPath(cs: seq<Candidate>, path: string) {
    exists c :: c in cs && c.path == path
  }

  ghost predicate HasRuntime(cs: seq<Candidate>, path: string) {
    exists c :: c in cs && c.path == path && c.context.Runtime?
  }

  lemma OccursHasPath(cs: seq<Candidate>, path: string)
    ensures Occurs(cs, path) <==> HasPath(cs, path)
  {
    AtMembers(cs, path);
    var at := At(cs, path);
    if at != [] {
      assert at[0] in at;
    }
  }

  lemma InProductionPaths(cs: seq<Candidate>, later: seq<Candidate>, path: string)
    ensures HasPath(InProduction(cs) + later, path) <==> HasRuntime(cs, path) || HasPath(later, path)
    ensures HasRuntime(InProduction(cs) + later, path) <==> HasRuntime(cs, path) || HasRuntime(later, path)
  {
    InProductionMembers(cs);
    assert forall c :: c in InProduction(cs) + later <==> c in InProduction(cs) || c in later;
  }

  /** Under `--production` the roots, by ascending path, are those of known files
      with a runtime candidate collected before the filter or any collected after
      it (library packages, members); each is runtime exactly when one of its
      candidates is, so always when no later one names it. */
  lemma ProductionRootsHaveARuntimeCandidate(
    roots: seq<Root>, cs: seq<Candidate>, later: seq<Candidate>, known: set<string>, root: Root)
    requires IsMerge(roots, InProduction(cs) + later)
    ensures Ascending(RootPaths(Retain(roots, known)))
    ensures forall path :: path in RootPaths(Retain(roots, known)) <==>
      path in known && (HasRuntime(cs, path) || HasPath(later, path))
    ensures root in Retain(roots, known) ==>
      (root.context.Runtime? <==> HasRuntime(cs, root.path) || HasRuntime(later, root.path))
    ensures root in Retain(roots, known) && !HasPath(later, root.path) ==> root.context.Runtime?
  {
    RetainKeepsOrder(roots, known);
    forall path ensures path in RootPaths(Retain(roots, known)) <==>
      path in known && (HasRuntime(cs, path) || HasPath(later, path))
    {
      RetainedPaths(roots, known, path);
      CoveredPaths(roots, InProduction(cs) + later, path);
      InProductionPaths(cs, later, path);
    }
    RetainedMembers(roots, known);
    if root in Retain(roots, known) {
      var i :| 0 <= i < |roots| && roots[i] == root;
      MergeKeepsEverything(roots, InProduction(cs) + later, i);
      InProductionPaths(cs, later, root.path);
      CoveredPaths(roots, InProduction(cs) + later, root.path);
    }
  }

  lemma CoveredPaths(roots: seq<Root>, cs: seq<Candidate>, path: string)
    requires Covers(roots, cs)
    ensures path in RootPaths(roots) <==> HasPath(cs, path)
    ensures forall i :: 0 <= i < |roots| ==> roots[i].path in RootPaths(roots)
  {
    RootPathsAre(roots, cs, path);
    OccursIsInPaths(cs, path);
    OccursHasPath(cs, path);
    forall i | 0 <= i < |roots| ensures roots[i].path in RootPaths(roots) {
      assert RootPaths(roots)[i] == roots[i].path;
    }
  }

  lemma RetainedPaths(roots: seq<Root>, known: set<string>, path: string)
    ensures path in RootPaths(Retain(roots, known)) <==> path in RootPaths(roots) && path in known
  {
    var kept := Retain(roots, known);
    RetainedMembers(roots, known);
    if path in RootPaths(kept) {
      var i :| 0 <= i < |kept| && RootPaths(kept)[i] == path;
      assert kept[i] in roots;
      var j :| 0 <= j < |roots| && roots[j] == kept[i];
      assert RootPaths(roots)[j] == path;
    }
    if path in RootPaths(roots) && path in known {
      var i :| 0 <= i < |roots| && RootPaths(roots)[i] == path;
      assert roots[i] in kept;
      var j :| 0 <= j < |kept| && kept[j] == roots[i];
      assert RootPaths(kept)[j] == path;
    }
  }
}

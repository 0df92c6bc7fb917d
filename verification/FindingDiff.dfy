/**
 Comparing two runs' findings: per key, what changed level, went or came.
 */
module FindingDiff {
  import opened Common
  import opened Text

  /** `severity/confidence` */
  type Level = string

  /** A rule code and a fingerprint; one key can cover several findings. */
  datatype Key = Key(code: string, fingerprint: string)

  type Report = map<Key, multiset<Level>>

  datatype Status = Changed | Gone | New

  datatype Row = Row(status: Status, slug: string, key: Key, was: Level, now: Level)

  function LevelsOf(report: Report, key: Key): multiset<Level> {
    if key in report then report[key] else multiset{}
  }

  // -------------------------------------------------------------- sorted listings

  ghost predicate Sorted(xs: seq<Level>) {
    forall i, j :: 0 <= i < j < |xs| ==> !Less(xs[j], xs[i])
  }

  function InsertLevel(xs: seq<Level>, x: Level): seq<Level> {
    if xs == [] || !Less(xs[0], x) then [x] + xs else [xs[0]] + InsertLevel(xs[1..], x)
  }

  lemma {:induction false} InsertLevelAdds(xs: seq<Level>, x: Level)
    ensures multiset(InsertLevel(xs, x)) == multiset(xs) + multiset{x}
  {
    if xs != [] && Less(xs[0], x) {
      InsertLevelAdds(xs[1..], x);
      assert xs == [xs[0]] + xs[1..];
    }
  }

  lemma InsertLevelMembers(xs: seq<Level>, x: Level)
    ensures forall y :: y in InsertLevel(xs, x) <==> y in xs || y == x
  {
    InsertLevelAdds(xs, x);
    assert forall y :: y in InsertLevel(xs, x) <==> y in multiset(InsertLevel(xs, x));
  }

  lemma {:induction false} InsertLevelSorts(xs: seq<Level>, x: Level)
    requires Sorted(xs)
    ensures Sorted(InsertLevel(xs, x))
  {
    if xs == [] {
    } else if !Less(xs[0], x) {
      forall j | 0 < j < |xs| ensures !Less(xs[j], x) {
        NotLessIsTransitive(xs[j], xs[0], x);
      }
    } else {
      InsertLevelSorts(xs[1..], x);
      InsertLevelMembers(xs[1..], x);
      LessIsAsymmetric(xs[0], x);
      var rest := InsertLevel(xs[1..], x);
      forall j | 0 <= j < |rest| ensures !Less(rest[j], xs[0]) {
        assert rest[j] in rest;
      }
    }
  }

  /** `sorted(levels.elements())` */
  ghost predicate IsListing(xs: seq<Level>, levels: multiset<Level>) {
    multiset(xs) == levels && Sorted(xs)
  }

  method SortedElements(levels: multiset<Level>) returns (xs: seq<Level>)
    ensures IsListing(xs, levels)
  {
    xs := [];
    var left := levels;
    while left != multiset{}
      invariant multiset(xs) + left == levels && Sorted(xs)
      decreases |left|
    {
      var x :| x in left;
      InsertLevelSorts(xs, x);
      InsertLevelAdds(xs, x);
      xs := InsertLevel(xs, x);
      left := left - multiset{x};
    }
  }

  // --------------------------------------------------------------- one key's rows

  /** The before-levels of the rows, in row order. */
  function Befores(rows: seq<Row>): seq<Level> {
    if rows == [] then []
    else
      var last := rows[|rows| - 1];
      Befores(rows[..|rows| - 1]) + if last.status.New? then [] else [last.was]
  }

  function Afters(rows: seq<Row>): seq<Level> {
    if rows == [] then []
    else
      var last := rows[|rows| - 1];
      Afters(rows[..|rows| - 1]) + if last.status.Gone? then [] else [last.now]
  }

  /** The `k`th row pairs the `k`th moved level of each side; past the shorter
      side, what is left over went or came. */
  function RowAt(slug: string, key: Key, lost: seq<Level>, won: seq<Level>, k: nat): Row
    requires k < |lost| || k < |won|
  {
    if k < |lost| && k < |won| then Row(Changed, slug, key, lost[k], won[k])
    else if k < |lost| then Row(Gone, slug, key, lost[k], "-")
    else Row(New, slug, key, "-", won[k])
  }

  method KeyRows(slug: string, key: Key, b: multiset<Level>, a: multiset<Level>)
    returns (rows: seq<Row>, ghost lost: seq<Level>, ghost won: seq<Level>)
    ensures IsListing(lost, b - a) && IsListing(won, a - b)
    ensures Pairs(rows, slug, key, lost, won)
    ensures Explains(rows, b, a)
  {
    var losses := SortedElements(b - a);
    var gains := SortedElements(a - b);
    lost, won := losses, gains;
    rows := [];
    for k := 0 to if |losses| < |gains| then |losses| else |gains|
      invariant |rows| == k && forall i :: 0 <= i < k ==> rows[i] == RowAt(slug, key, losses, gains, i)
    {
      rows := rows + [Row(Changed, slug, key, losses[k], gains[k])];
    }
    while |rows| < |losses|
      invariant |rows| <= (if |losses| < |gains| then |gains| else |losses|)
      invariant if |losses| <= |gains| then |losses| <= |rows| else |gains| <= |rows|
      invariant forall i :: 0 <= i < |rows| ==> rows[i] == RowAt(slug, key, losses, gains, i)
    {
      rows := rows + [Row(Gone, slug, key, losses[|rows|], "-")];
    }
    while |rows| < |gains|
      invariant |losses| <= |rows| <= (if |losses| < |gains| then |gains| else |losses|)
      invariant forall i :: 0 <= i < |rows| ==> rows[i] == RowAt(slug, key, losses, gains, i)
    {
      rows := rows + [Row(New, slug, key, "-", gains[|rows|])];
    }
    RowsExplain(slug, key, lost, won, b, a, rows);
  }

  ghost predicate Lacks(rows: seq<Row>, status: Status) {
    forall row :: row in rows ==> row.status != status
  }

  /** The rows turn the base into the head, with no level both lost and won. */
  ghost predicate Explains(rows: seq<Row>, b: multiset<Level>, a: multiset<Level>) {
    && multiset(Befores(rows)) == b - a && multiset(Afters(rows)) == a - b
    && |rows| == (if |b - a| < |a - b| then |a - b| else |b - a|)
    && (Lacks(rows, Gone) || Lacks(rows, New))
    && (forall row :: row in rows && row.status.Changed? ==> row.was != row.now)
  }

  lemma RowsExplain(
    slug: string, key: Key, lost: seq<Level>, won: seq<Level>, b: multiset<Level>, a: multiset<Level>, rows: seq<Row>)
    requires multiset(lost) == b - a && multiset(won) == a - b
    requires Pairs(rows, slug, key, lost, won)
    ensures Explains(rows, b, a)
  {
    SidesWhole(slug, key, lost, won, rows);
    StatusesOf(slug, key, lost, won, b, a, rows);
  }

  lemma RowsAre(slug: string, key: Key, lost: seq<Level>, won: seq<Level>, rows: seq<Row>)
    requires Pairs(rows, slug, key, lost, won)
    ensures AllOf(rows, slug) && AllFor(rows, key)
  {
  }

  lemma SidesWhole(slug: string, key: Key, lost: seq<Level>, won: seq<Level>, rows: seq<Row>)
    requires Pairs(rows, slug, key, lost, won)
    ensures Befores(rows) == lost && Afters(rows) == won
  {
    BeforesOf(slug, key, lost, won, rows, |rows|);
    AftersOf(slug, key, lost, won, rows, |rows|);
    assert rows[..|rows|] == rows && UpTo(lost, |rows|) == lost && UpTo(won, |rows|) == won;
  }

  lemma StatusesOf(
    slug: string, key: Key, lost: seq<Level>, won: seq<Level>, b: multiset<Level>, a: multiset<Level>, rows: seq<Row>)
    requires multiset(lost) == b - a && multiset(won) == a - b
    requires Pairs(rows, slug, key, lost, won)
    ensures Lacks(rows, Gone) || Lacks(rows, New)
    ensures forall row :: row in rows && row.status.Changed? ==> row.was != row.now
  {
    forall i | 0 <= i < |rows| && rows[i].status.Changed? ensures rows[i].was != rows[i].now {
      assert lost[i] in multiset(lost) && won[i] in multiset(won);
    }
  }

  ghost predicate Pairs(rows: seq<Row>, slug: string, key: Key, lost: seq<Level>, won: seq<Level>) {
    && |rows| == (if |lost| < |won| then |won| else |lost|)
    && forall i :: 0 <= i < |rows| ==> rows[i] == RowAt(slug, key, lost, won, i)
  }

  function UpTo(xs: seq<Level>, n: nat): seq<Level> {
    xs[..if n < |xs| then n else |xs|]
  }

  lemma {:induction false} BeforesOf(slug: string, key: Key, lost: seq<Level>, won: seq<Level>, rows: seq<Row>, n: nat)
    requires n <= |rows| && Pairs(rows, slug, key, lost, won)
    ensures Befores(rows[..n]) == UpTo(lost, n)
  {
    if n > 0 {
      BeforesOf(slug, key, lost, won, rows, n - 1);
      assert rows[..n][..n - 1] == rows[..n - 1];
      assert rows[n - 1] == RowAt(slug, key, lost, won, n - 1);
    }
  }

  lemma {:induction false} AftersOf(slug: string, key: Key, lost: seq<Level>, won: seq<Level>, rows: seq<Row>, n: nat)
    requires n <= |rows| && Pairs(rows, slug, key, lost, won)
    ensures Afters(rows[..n]) == UpTo(won, n)
  {
    if n > 0 {
      AftersOf(slug, key, lost, won, rows, n - 1);
      assert rows[..n][..n - 1] == rows[..n - 1];
      assert rows[n - 1] == RowAt(slug, key, lost, won, n - 1);
    }
  }

  /** Taking the before-levels out of the base and adding the after-levels gives
      exactly the head. */
  lemma RowsConserveFindings(rows: seq<Row>, b: multiset<Level>, a: multiset<Level>)
    requires Explains(rows, b, a)
    ensures (b - multiset(Befores(rows))) + multiset(Afters(rows)) == a
    ensures multiset(Befores(rows)) <= b
  {
  }

  /** A key has no rows exactly when nothing about it moved. */
  lemma NoRowsExactlyWhenEqual(rows: seq<Row>, b: multiset<Level>, a: multiset<Level>)
    requires Explains(rows, b, a)
    ensures rows == [] <==> b == a
  {
    assert b == a ==> b - a == multiset{} && a - b == multiset{};
    if rows == [] {
      forall level ensures b[level] == a[level] {
        assert (b - a)[level] == 0 && (a - b)[level] == 0;
      }
    }
  }

  // ---------------------------------------------------------------- whole reports

  predicate KeyLess(a: Key, b: Key) {
    Less(a.code, b.code) || (a.code == b.code && Less(a.fingerprint, b.fingerprint))
  }

  ghost predicate KeysAscend(keys: seq<Key>) {
    forall i, j :: 0 <= i < j < |keys| ==> KeyLess(keys[i], keys[j])
  }

  lemma KeyLessIsTransitive(a: Key, b: Key, c: Key)
    requires KeyLess(a, b) && KeyLess(b, c)
    ensures KeyLess(a, c)
  {
    if Less(a.code, b.code) && Less(b.code, c.code) {
      LessIsTransitive(a.code, b.code, c.code);
    }
    if Less(a.fingerprint, b.fingerprint) && Less(b.fingerprint, c.fingerprint) {
      LessIsTransitive(a.fingerprint, b.fingerprint, c.fingerprint);
    }
  }

  lemma KeyLessIsTotal(a: Key, b: Key)
    ensures a == b || KeyLess(a, b) || KeyLess(b, a)
  {
    LessIsTotal(a.code, b.code);
    LessIsTotal(a.fingerprint, b.fingerprint);
  }

  function InsertKey(keys: seq<Key>, key: Key): seq<Key> {
    if keys == [] || KeyLess(key, keys[0]) then [key] + keys else [keys[0]] + InsertKey(keys[1..], key)
  }

  lemma {:induction false} InsertKeyMembers(keys: seq<Key>, key: Key)
    ensures forall k :: k in InsertKey(keys, key) <==> k in keys || k == key
  {
    if keys != [] {
      InsertKeyMembers(keys[1..], key);
      assert keys == [keys[0]] + keys[1..];
    }
  }

  lemma {:induction false} InsertKeyAscends(keys: seq<Key>, key: Key)
    requires KeysAscend(keys) && key !in keys
    ensures KeysAscend(InsertKey(keys, key))
  {
    if keys == [] {
    } else if KeyLess(key, keys[0]) {
      forall j | 0 < j < |keys| ensures KeyLess(key, keys[j]) {
        KeyLessIsTransitive(key, keys[0], keys[j]);
      }
    } else {
      KeyLessIsTotal(key, keys[0]);
      InsertKeyAscends(keys[1..], key);
      InsertKeyMembers(keys[1..], key);
      var rest := InsertKey(keys[1..], key);
      forall j | 0 <= j < |rest| ensures KeyLess(keys[0], rest[j]) {
        assert rest[j] in rest;
      }
    }
  }

  method SortedKeys(keys: set<Key>) returns (xs: seq<Key>)
    ensures KeysAscend(xs) && forall k :: k in xs <==> k in keys
  {
    xs := [];
    var left := keys;
    while left != {}
      invariant left <= keys && KeysAscend(xs)
      invariant forall k :: k in xs <==> k in keys && k !in left
      decreases |left|
    {
      var key :| key in left;
      InsertKeyAscends(xs, key);
      InsertKeyMembers(xs, key);
      xs := InsertKey(xs, key);
      left := left - {key};
    }
  }

  function ForKey(rows: seq<Row>, key: Key): seq<Row> {
    if rows == [] then []
    else (if rows[0].key == key then [rows[0]] else []) + ForKey(rows[1..], key)
  }

  lemma {:induction false} ForKeyConcat(a: seq<Row>, b: seq<Row>, key: Key)
    ensures ForKey(a + b, key) == ForKey(a, key) + ForKey(b, key)
  {
    if a == [] {
      assert a + b == b;
    } else {
      ForKeyConcat(a[1..], b, key);
      assert (a + b)[1..] == a[1..] + b;
      assert (a + b)[0] == a[0];
      Reassociate(if a[0].key == key then [a[0]] else [], ForKey(a[1..], key), ForKey(b, key));
    }
  }

  lemma {:induction false} ForOneKey(rows: seq<Row>, key: Key, other: Key)
    requires forall row :: row in rows ==> row.key == other
    ensures ForKey(rows, key) == if key == other then rows else []
  {
    if rows != [] {
      assert rows[0] in rows;
      forall row | row in rows[1..] ensures row.key == other {
      }
      ForOneKey(rows[1..], key, other);
      assert rows == [rows[0]] + rows[1..];
    }
  }

  ghost predicate AllOf(rows: seq<Row>, slug: string) {
    forall row :: row in rows ==> row.slug == slug
  }

  ghost predicate AllFor(rows: seq<Row>, key: Key) {
    forall row :: row in rows ==> row.key == key
  }

  function Flatten(blocks: seq<seq<Row>>): seq<Row> {
    if blocks == [] then [] else Flatten(blocks[..|blocks| - 1]) + blocks[|blocks| - 1]
  }

  lemma FlattenStep(blocks: seq<seq<Row>>, block: seq<Row>)
    ensures Flatten(blocks + [block]) == Flatten(blocks) + block
  {
    assert (blocks + [block])[..|blocks|] == blocks;
  }

  /** The rows of one key: its sorted lost and won levels, paired. */
  ghost predicate IsKeyBlock(rows: seq<Row>, slug: string, key: Key, before: Report, after: Report) {
    var b, a := LevelsOf(before, key), LevelsOf(after, key);
    exists lost, won :: IsListing(lost, b - a) && IsListing(won, a - b) && Pairs(rows, slug, key, lost, won)
  }

  ghost predicate AreKeyBlocks(blocks: seq<seq<Row>>, slug: string, keys: seq<Key>, before: Report, after: Report) {
    |blocks| == |keys| && forall i :: 0 <= i < |keys| ==> IsKeyBlock(blocks[i], slug, keys[i], before, after)
  }

  /** One project's rows: the blocks of the keys of either report, by ascending key. */
  ghost predicate IsProjectDiff(rows: seq<Row>, slug: string, before: Report, after: Report) {
    exists keys, blocks :: IsDiffBy(rows, slug, keys, blocks, before, after)
  }

  ghost predicate IsDiffBy(
    rows: seq<Row>, slug: string, keys: seq<Key>, blocks: seq<seq<Row>>, before: Report, after: Report) {
    && KeysAscend(keys) && (forall k :: k in keys <==> k in before.Keys + after.Keys)
    && AreKeyBlocks(blocks, slug, keys, before, after) && rows == Flatten(blocks)
  }

  method ProjectRows(slug: string, before: Report, after: Report) returns (rows: seq<Row>)
    ensures IsProjectDiff(rows, slug, before, after)
  {
    var keys := SortedKeys(before.Keys + after.Keys);
    ghost var blocks;
    rows, blocks := RowsOfKeys(slug, keys, before, after);
    assert IsDiffBy(rows, slug, keys, blocks, before, after);
  }

  method RowsOfKeys(slug: string, keys: seq<Key>, before: Report, after: Report)
    returns (rows: seq<Row>, ghost blocks: seq<seq<Row>>)
    ensures AreKeyBlocks(blocks, slug, keys, before, after) && rows == Flatten(blocks)
  {
    rows, blocks := [], [];
    for i := 0 to |keys|
      invariant |blocks| == i && rows == Flatten(blocks)
      invariant forall j :: 0 <= j < i ==> IsKeyBlock(blocks[j], slug, keys[j], before, after)
    {
      var more := OneKey(slug, keys[i], before, after);
      FlattenStep(blocks, more);
      rows, blocks := rows + more, blocks + [more];
    }
  }

  method OneKey(slug: string, key: Key, before: Report, after: Report) returns (rows: seq<Row>)
    ensures IsKeyBlock(rows, slug, key, before, after)
  {
    var more, lost, won := KeyRows(slug, key, LevelsOf(before, key), LevelsOf(after, key));
    rows := more;
  }

  lemma KeyBlockExplains(rows: seq<Row>, slug: string, key: Key, before: Report, after: Report)
    requires IsKeyBlock(rows, slug, key, before, after)
    ensures Explains(rows, LevelsOf(before, key), LevelsOf(after, key))
    ensures AllOf(rows, slug) && AllFor(rows, key)
  {
    var b, a := LevelsOf(before, key), LevelsOf(after, key);
    var lost, won :| IsListing(lost, b - a) && IsListing(won, a - b) && Pairs(rows, slug, key, lost, won);
    RowsExplain(slug, key, lost, won, b, a, rows);
    RowsAre(slug, key, lost, won, rows);
  }

  lemma FlattenAt(blocks: seq<seq<Row>>, n: nat)
    requires n < |blocks|
    ensures Flatten(blocks[..n + 1]) == Flatten(blocks[..n]) + blocks[n]
  {
    assert blocks[..n + 1] == blocks[..n] + [blocks[n]];
  }

  lemma AddBlock(rows: seq<Row>, more: seq<Row>, other: Key, key: Key)
    requires AllFor(more, other)
    ensures ForKey(rows + more, key) == if key == other then ForKey(rows, key) + more else ForKey(rows, key)
  {
    ForKeyConcat(rows, more, key);
    ForOneKey(more, key, other);
    assert ForKey(rows, key) + [] == ForKey(rows, key);
  }

  ghost predicate AreFor(blocks: seq<seq<Row>>, keys: seq<Key>) {
    |blocks| == |keys| && forall i :: 0 <= i < |keys| ==> AllFor(blocks[i], keys[i])
  }

  lemma {:induction false} AbsentKeyHasNoRows(blocks: seq<seq<Row>>, keys: seq<Key>, n: nat, key: Key)
    requires AreFor(blocks, keys) && n <= |keys| && forall j :: 0 <= j < n ==> keys[j] != key
    ensures ForKey(Flatten(blocks[..n]), key) == []
  {
    if n > 0 {
      AbsentKeyHasNoRows(blocks, keys, n - 1, key);
      FlattenAt(blocks, n - 1);
      AddBlock(Flatten(blocks[..n - 1]), blocks[n - 1], keys[n - 1], key);
    }
  }

  lemma {:induction false} KeyFindsItsBlock(blocks: seq<seq<Row>>, keys: seq<Key>, n: nat, j: nat)
    requires AreFor(blocks, keys) && KeysAscend(keys) && j < n <= |keys|
    ensures ForKey(Flatten(blocks[..n]), keys[j]) == blocks[j]
  {
    var rows := Flatten(blocks[..n - 1]);
    FlattenAt(blocks, n - 1);
    AddBlock(rows, blocks[n - 1], keys[n - 1], keys[j]);
    KeyLessIsIrreflexive(keys[j]);
    if j == n - 1 {
      AbsentKeyHasNoRows(blocks, keys, n - 1, keys[j]);
      assert [] + blocks[j] == blocks[j];
    } else {
      KeyFindsItsBlock(blocks, keys, n - 1, j);
      assert KeyLess(keys[j], keys[n - 1]);
    }
  }

  lemma KeyLessIsIrreflexive(key: Key)
    ensures !KeyLess(key, key)
  {
    LessIsIrreflexive(key.code);
    LessIsIrreflexive(key.fingerprint);
  }

  /** A project's rows explain what moved under every key. */
  lemma EveryKeyIsExplained(rows: seq<Row>, slug: string, before: Report, after: Report, key: Key)
    requires IsProjectDiff(rows, slug, before, after)
    ensures Explains(ForKey(rows, key), LevelsOf(before, key), LevelsOf(after, key))
  {
    var keys, blocks :| IsDiffBy(rows, slug, keys, blocks, before, after);
    forall i | 0 <= i < |keys| ensures AllFor(blocks[i], keys[i]) {
      KeyBlockExplains(blocks[i], slug, keys[i], before, after);
    }
    assert blocks[..|keys|] == blocks;
    if key in keys {
      var j :| 0 <= j < |keys| && keys[j] == key;
      KeyFindsItsBlock(blocks, keys, |keys|, j);
      KeyBlockExplains(blocks[j], slug, key, before, after);
    } else {
      AbsentKeyHasNoRows(blocks, keys, |keys|, key);
      assert LevelsOf(before, key) == multiset{} && LevelsOf(after, key) == multiset{};
      NothingIsExplained();
    }
  }

  /** The rows of a key, from what the reports hold of it. */
  lemma KeyRowsExplainTheReports(rows: seq<Row>, slug: string, before: Report, after: Report, key: Key)
    requires IsProjectDiff(rows, slug, before, after)
    ensures key in before && key in after ==> Explains(ForKey(rows, key), before[key], after[key])
    ensures key in before && key !in after ==> Explains(ForKey(rows, key), before[key], multiset{})
    ensures key !in before && key in after ==> Explains(ForKey(rows, key), multiset{}, after[key])
    ensures key !in before && key !in after ==> ForKey(rows, key) == []
  {
    EveryKeyIsExplained(rows, slug, before, after, key);
    if key !in before && key !in after {
      NoRowsExactlyWhenEqual(ForKey(rows, key), multiset{}, multiset{});
    }
  }

  /** Rows come by rule code and then by fingerprint; a finding that went has no
      after-level, one that came no before-level. */
  lemma RowsInOrder(rows: seq<Row>, slug: string, before: Report, after: Report)
    requires IsProjectDiff(rows, slug, before, after)
    ensures forall i, j :: 0 <= i < j < |rows| && rows[i].key.code != rows[j].key.code ==>
      Less(rows[i].key.code, rows[j].key.code)
    ensures forall i, j ::
      && 0 <= i < j < |rows|
      && rows[i].key.code == rows[j].key.code
      && rows[i].key.fingerprint != rows[j].key.fingerprint ==>
      Less(rows[i].key.fingerprint, rows[j].key.fingerprint)
    ensures forall row :: row in rows ==>
      row.slug == slug && (row.status.Gone? ==> row.now == "-") && (row.status.New? ==> row.was == "-")
  {
    var keys, blocks :| IsDiffBy(rows, slug, keys, blocks, before, after);
    BlocksInOrder(slug, keys, blocks, before, after, |keys|);
    assert blocks[..|keys|] == blocks;
    forall i, j | 0 <= i < j < |rows|
      ensures rows[i].key.code != rows[j].key.code ==> Less(rows[i].key.code, rows[j].key.code)
      ensures rows[i].key.code == rows[j].key.code && rows[i].key.fingerprint != rows[j].key.fingerprint ==>
        Less(rows[i].key.fingerprint, rows[j].key.fingerprint)
    {
      KeysInOrder(rows[i].key, rows[j].key);
    }
  }

  lemma KeysInOrder(a: Key, b: Key)
    requires a == b || KeyLess(a, b)
    ensures a.code != b.code ==> Less(a.code, b.code)
    ensures a.code == b.code && a.fingerprint != b.fingerprint ==> Less(a.fingerprint, b.fingerprint)
  {
    LessIsIrreflexive(a.code);
  }

  ghost predicate GoesOrComes(row: Row, slug: string) {
    row.slug == slug && (row.status.Gone? ==> row.now == "-") && (row.status.New? ==> row.was == "-")
  }

  ghost predicate BlockOrder(rows: seq<Row>) {
    forall i, j :: 0 <= i < j < |rows| ==> rows[i].key == rows[j].key || KeyLess(rows[i].key, rows[j].key)
  }

  /** Rows of these keys, in their order. */
  ghost predicate RowsOf(rows: seq<Row>, keys: seq<Key>, slug: string) {
    BlockOrder(rows) && forall row :: row in rows ==> row.key in keys && GoesOrComes(row, slug)
  }

  lemma {:induction false} BlocksInOrder(
    slug: string, keys: seq<Key>, blocks: seq<seq<Row>>, before: Report, after: Report, n: nat)
    requires KeysAscend(keys) && AreKeyBlocks(blocks, slug, keys, before, after) && n <= |keys|
    ensures RowsOf(Flatten(blocks[..n]), keys[..n], slug)
  {
    if n > 0 {
      BlocksInOrder(slug, keys, blocks, before, after, n - 1);
      FlattenAt(blocks, n - 1);
      BlockOfOneKey(blocks[n - 1], slug, keys[n - 1], before, after);
      AppendBlock(Flatten(blocks[..n - 1]), blocks[n - 1], keys, n, slug);
    }
  }

  lemma AppendBlock(rows: seq<Row>, more: seq<Row>, keys: seq<Key>, n: nat, slug: string)
    requires 0 < n <= |keys| && KeysAscend(keys) && RowsOf(rows, keys[..n - 1], slug)
    requires forall row :: row in more ==> row.key == keys[n - 1] && GoesOrComes(row, slug)
    ensures RowsOf(rows + more, keys[..n], slug)
  {
    var all: seq<Row> := rows + more;
    assert keys[..n] == keys[..n - 1] + [keys[n - 1]];
    forall i, j | 0 <= i < j < |all| ensures all[i].key == all[j].key || KeyLess(all[i].key, all[j].key) {
      assert j >= |rows| ==> all[j] in more;
      assert i >= |rows| ==> all[i] in more;
      if i < |rows| <= j {
        assert rows[i] in rows;
        var k :| 0 <= k < n - 1 && keys[..n - 1][k] == rows[i].key;
        assert KeyLess(keys[k], keys[n - 1]);
      }
    }
  }

  lemma BlockOfOneKey(rows: seq<Row>, slug: string, key: Key, before: Report, after: Report)
    requires IsKeyBlock(rows, slug, key, before, after)
    ensures forall row :: row in rows ==> row.key == key && GoesOrComes(row, slug)
  {
    var b, a := LevelsOf(before, key), LevelsOf(after, key);
    var lost, won :| IsListing(lost, b - a) && IsListing(won, a - b) && Pairs(rows, slug, key, lost, won);
    forall row | row in rows ensures row.key == key && GoesOrComes(row, slug) {
      var i :| 0 <= i < |rows| && rows[i] == row;
      assert rows[i] == RowAt(slug, key, lost, won, i);
    }
  }

  lemma NothingIsExplained()
    ensures Explains([], multiset{}, multiset{})
  {
    var none: multiset<Level> := multiset{};
    assert none - none == none;
  }

  /** The slugs whose report is missing on either side. */
  function Unreadable(base: map<string, Report>, head: map<string, Report>, slugs: seq<string>): seq<string> {
    if slugs == [] then []
    else
      var slug := slugs[|slugs| - 1];
      Unreadable(base, head, slugs[..|slugs| - 1]) + if slug in base && slug in head then [] else [slug]
  }

  lemma UnreadableStep(base: map<string, Report>, head: map<string, Report>, slugs: seq<string>, i: nat)
    requires i < |slugs|
    ensures Unreadable(base, head, slugs[..i + 1]) ==
            Unreadable(base, head, slugs[..i]) + if slugs[i] in base && slugs[i] in head then [] else [slugs[i]]
  {
    assert slugs[..i + 1][..i] == slugs[..i];
  }

  /** A project with both reports has its diff's rows; otherwise it has none. */
  ghost predicate IsBlock(block: seq<Row>, base: map<string, Report>, head: map<string, Report>, slug: string) {
    if slug in base && slug in head then IsProjectDiff(block, slug, base[slug], head[slug]) else block == []
  }

  method Block(base: map<string, Report>, head: map<string, Report>, slug: string)
    returns (block: seq<Row>, readable: bool)
    ensures IsBlock(block, base, head, slug)
    ensures readable <==> slug in base && slug in head
  {
    block := [];
    readable := slug in base && slug in head;
    if readable {
      block := ProjectRows(slug, base[slug], head[slug]);
    }
  }

  /** `blocks[i]` are the rows of `slugs[i]`. */
  method FindingDiff(base: map<string, Report>, head: map<string, Report>, slugs: seq<string>)
    returns (rows: seq<Row>, skipped: seq<string>, ghost blocks: seq<seq<Row>>)
    ensures skipped == Unreadable(base, head, slugs)
    ensures |blocks| == |slugs| && rows == Flatten(blocks)
    ensures forall i :: 0 <= i < |slugs| ==> IsBlock(blocks[i], base, head, slugs[i])
  {
    rows, skipped, blocks := [], [], [];
    for i := 0 to |slugs|
      invariant skipped == Unreadable(base, head, slugs[..i])
      invariant |blocks| == i && rows == Flatten(blocks)
      invariant forall j :: 0 <= j < i ==> IsBlock(blocks[j], base, head, slugs[j])
    {
      UnreadableStep(base, head, slugs, i);
      var block, readable := Block(base, head, slugs[i]);
      if !readable {
        skipped := skipped + [slugs[i]];
      }
      FlattenStep(blocks, block);
      rows, blocks := rows + block, blocks + [block];
    }
    assert slugs[..|slugs|] == slugs;
  }
}

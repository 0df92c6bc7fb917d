/**
 The order fixes are applied in: removals bottom-up, by file and list.
 */
module FixOrder {
  import opened Common
  import opened Text
  import opened FixPlan

  // ------------------------------------------------ where a removal is sorted

  const USIZE_MAX: nat := 0xFFFF_FFFF_FFFF_FFFF

  /** Where the last `[` stands. */
  function LastOpen(s: string): Option<nat>
    ensures LastOpen(s).Some? ==> LastOpen(s).value < |s|
  {
    if s == [] then None
    else if s[|s| - 1] == '[' then Some(|s| - 1)
    else LastOpen(s[..|s| - 1])
  }

  function DigitsValue(s: string): Option<nat> {
    if s == [] then Some(0)
    else
      match DigitsValue(s[..|s| - 1])
      case Some(high) =>
        if '0' <= s[|s| - 1] <= '9' then Some(10 * high + (s[|s| - 1] - '0') as nat) else None
      case None => None
  }

  /** An unsigned 64-bit number; one leading `+` is accepted. */
  function ParseIndex(s: string): Option<nat> {
    var digits := if s != [] && s[0] == '+' then s[1..] else s;
    if digits == [] then None
    else
      match DigitsValue(digits)
      case Some(value) => if value <= USIZE_MAX then Some(value) else None
      case None => None
  }

  datatype Indexed = Indexed(list: string, index: nat)

  /** `array[index]`, split at the last bracket. */
  function IndexedTag(tag: string): Option<Indexed> {
    if tag == [] || tag[|tag| - 1] != ']' then None
    else
      match LastOpen(tag[..|tag| - 1])
      case Some(at) => (
        match ParseIndex(tag[at + 1..|tag| - 1])
        case Some(index) => Some(Indexed(tag[..at], index))
        case None => None
      )
      case None => None
  }

  /** `n` printed in base ten. */
  function Print(n: nat): string {
    if n < 10 then ["0123456789"[n]] else Print(n / 10) + ["0123456789"[n % 10]]
  }

  lemma DigitIs(d: nat)
    requires d < 10
    ensures var c := "0123456789"[d]; '0' <= c <= '9' && (c - '0') as nat == d
  {
  }

  lemma OneMoreDigit(s: string, c: char, high: nat)
    requires '0' <= c <= '9' && DigitsValue(s) == Some(high)
    ensures DigitsValue(s + [c]) == Some(10 * high + (c - '0') as nat)
  {
    assert (s + [c])[..|s|] == s && (s + [c])[|s|] == c;
  }

  lemma {:induction false} PrintedReadsBack(n: nat)
    ensures Print(n) != [] && DigitsValue(Print(n)) == Some(n)
    ensures forall c :: c in Print(n) ==> '0' <= c <= '9'
  {
    var c := "0123456789"[n % 10];
    DigitIs(n % 10);
    if n < 10 {
      OneMoreDigit([], c, 0);
      assert Print(n) == [] + [c];
    } else {
      PrintedReadsBack(n / 10);
      OneMoreDigit(Print(n / 10), c, n / 10);
    }
  }

  lemma {:induction false} LastOpenSkips(stem: string, rest: string)
    requires '[' !in rest
    ensures LastOpen(stem + "[" + rest) == Some(|stem|)
    decreases |rest|
  {
    var s := stem + "[" + rest;
    if rest != [] {
      LastOpenSkips(stem, rest[..|rest| - 1]);
      assert s[..|s| - 1] == stem + "[" + rest[..|rest| - 1];
      assert s[|s| - 1] == rest[|rest| - 1];
    } else {
      assert s[|s| - 1] == '[';
    }
  }

  /** What stands between the last brackets is read as an index. */
  lemma LabelIsRead(list: string, digits: string)
    requires '[' !in digits
    ensures IndexedTag(list + "[" + digits + "]") ==
      match ParseIndex(digits) case Some(index) => Some(Indexed(list, index)) case None => None
  {
    LastOpenSkips(list, digits);
    var tag, inner := list + "[" + digits + "]", list + "[" + digits;
    assert tag[|tag| - 1] == ']' && tag[..|tag| - 1] == inner;
    assert tag[|list| + 1..|tag| - 1] == digits && tag[..|list|] == list;
  }

  lemma PrintIsParsed(n: nat)
    ensures '[' !in Print(n)
    ensures ParseIndex(Print(n)) == if n <= 18_446_744_073_709_551_615 then Some(n) else None
    ensures ParseIndex("+" + Print(n)) == ParseIndex(Print(n))
  {
    PrintedReadsBack(n);
    assert Print(n)[0] in Print(n);
    assert ("+" + Print(n))[1..] == Print(n);
  }

  /** A label that prints a list's name and an index reads back as these; an index
      beyond 64 bits makes it no indexed label. */
  lemma PrintedLabelReadsBack(list: string, n: nat)
    ensures IndexedTag(list + "[" + Print(n) + "]") ==
      if n <= 18_446_744_073_709_551_615 then Some(Indexed(list, n)) else None
  {
    PrintIsParsed(n);
    LabelIsRead(list, Print(n));
  }

  /** A plus sign before the index changes nothing. */
  lemma SignedLabelReadsBack(list: string, n: nat)
    requires n <= 18_446_744_073_709_551_615
    ensures IndexedTag(list + "[" + ("+" + Print(n)) + "]") == Some(Indexed(list, n))
  {
    PrintIsParsed(n);
    LabelIsRead(list, "+" + Print(n));
  }

  datatype Position = Position(file: string, list: string, index: nat)

  function RemovalPosition(action: Action): Option<Position> {
    if !action.RemoveDependency? && !action.MoveToRuntime? then None
    else
      match IndexedTag(action.tag)
      case Some(at) => Some(Position(action.file, at.list, at.index))
      case None =>
        if action.RemoveDependency? && action.line.Some?
        then Some(Position(action.file, "", action.line.value)) else None
  }

  /** A removal is sorted by the index its label prints, whatever its line. */
  lemma LabelIsThePosition(rule: Rule, name: string, file: string, list: string, n: nat, line: Option<nat>, raw: string)
    requires n <= 18_446_744_073_709_551_615
    ensures var tag := list + "[" + Print(n) + "]";
      && RemovalPosition(RemoveDependency(rule, name, file, tag, line)) == Some(Position(file, list, n))
      && RemovalPosition(MoveToRuntime(name, file, tag, raw)) == Some(Position(file, list, n))
  {
    PrintedLabelReadsBack(list, n);
  }

  /** Unpositioned actions first, then by file and list, highest index first. */
  predicate Before(a: Option<Position>, b: Option<Position>) {
    b.Some? && (a.None? || PositionBefore(a.value, b.value))
  }

  predicate PositionBefore(a: Position, b: Position) {
    Less(a.file, b.file) || (a.file == b.file && (Less(a.list, b.list) || (a.list == b.list && b.index < a.index)))
  }

  lemma NotBeforeIsTransitive(a: Option<Position>, b: Option<Position>, c: Option<Position>)
    requires !Before(b, a) && !Before(c, b)
    ensures !Before(c, a)
  {
    if a.Some? && b.Some? && c.Some? {
      var x, y, z := a.value, b.value, c.value;
      assert !Less(z.file, x.file) && (x.file == z.file ==> x.file == y.file) by {
        NotLessBothWays(x.file, y.file, z.file);
      }
      assert x.file == z.file && !Less(z.list, y.list) && !Less(y.list, x.list) ==>
          !Less(z.list, x.list) && (x.list == z.list ==> x.list == y.list) by {
        if !Less(z.list, y.list) && !Less(y.list, x.list) {
          NotLessBothWays(x.list, y.list, z.list);
        }
      }
    }
  }

  lemma NotLessBothWays(a: string, b: string, c: string)
    requires !Less(b, a) && !Less(c, b)
    ensures !Less(c, a) && (a == c ==> a == b)
  {
    NotLessIsTransitive(c, b, a);
    LessIsTotal(a, b);
  }

  // ----------------------------------------------------- the bottom-up order

  predicate Below(actions: seq<Action>, i: nat, j: nat)
  {
    i < |actions| && j < |actions| && Before(RemovalPosition(actions[i]), RemovalPosition(actions[j]))
  }

  /** Stable insertion of plan index `i`, which is above every index in `order`. */
  function Place(actions: seq<Action>, order: seq<nat>, i: nat): seq<nat>
  {
    if order == [] then [i]
    else
      var last := order[|order| - 1];
      if Below(actions, i, last) then Place(actions, order[..|order| - 1], i) + [last] else order + [i]
  }

  lemma {:induction false} PlaceMembers(actions: seq<Action>, order: seq<nat>, i: nat)
    ensures |Place(actions, order, i)| == |order| + 1
    ensures forall j :: j in Place(actions, order, i) <==> j in order || j == i
  {
    if order != [] && Below(actions, i, order[|order| - 1]) {
      PlaceMembers(actions, order[..|order| - 1], i);
      assert order == order[..|order| - 1] + [order[|order| - 1]];
    }
  }

  /** `i`'s edit runs ahead of `j`'s. */
  predicate Precedes(actions: seq<Action>, i: nat, j: nat) {
    !Below(actions, j, i) && (Below(actions, i, j) || i < j)
  }

  ghost predicate InOrder(actions: seq<Action>, order: seq<nat>) {
    forall k, l :: 0 <= k < l < |order| ==> Precedes(actions, order[k], order[l])
  }

  lemma {:induction false} PlaceKeepsOrder(actions: seq<Action>, order: seq<nat>, i: nat)
    requires i < |actions| && (forall j :: j in order ==> j < i) && InOrder(actions, order)
    ensures InOrder(actions, Place(actions, order, i))
  {
    if order != [] {
      var init, last := order[..|order| - 1], order[|order| - 1];
      InitMembers(order);
      forall j | j in init ensures j < i {
        assert j in order;
      }
      forall k, l | 0 <= k < l < |init| ensures Precedes(actions, init[k], init[l]) {
        assert Precedes(actions, order[k], order[l]);
      }
      if Below(actions, i, last) {
        PlaceKeepsOrder(actions, init, i);
        PlaceMembers(actions, init, i);
        BelowIsAsymmetric(actions, i, last);
        forall j | j in Place(actions, init, i) ensures Precedes(actions, j, last) {
        }
      } else {
        forall j | j in order ensures Precedes(actions, j, i) {
          if j != last {
            NotBeforeIsTransitive(RemovalPosition(actions[j]), RemovalPosition(actions[last]),
              RemovalPosition(actions[i]));
          }
        }
      }
    }
  }

  lemma InitMembers(order: seq<nat>)
    requires order != []
    ensures order[|order| - 1] in order
    ensures forall j :: j in order <==> j in order[..|order| - 1] || j == order[|order| - 1]
  {
    assert order == order[..|order| - 1] + [order[|order| - 1]];
  }

  lemma BelowIsAsymmetric(actions: seq<Action>, i: nat, j: nat)
    requires i < |actions| && j < |actions| && Below(actions, i, j)
    ensures !Below(actions, j, i)
  {
    var a, b := RemovalPosition(actions[i]), RemovalPosition(actions[j]);
    if a.Some? {
      LessIsAsymmetric(a.value.file, b.value.file);
      LessIsAsymmetric(a.value.list, b.value.list);
      LessIsIrreflexive(a.value.file);
      LessIsIrreflexive(a.value.list);
    }
  }

  /** The first `n` plan indices in the order their edits run. */
  function BottomUp(actions: seq<Action>, n: nat): (order: seq<nat>)
    requires n <= |actions|
    ensures |order| == n
    ensures forall j :: j in order <==> 0 <= j < n
    ensures forall k :: 0 <= k < n ==> order[k] < n
  {
    if n == 0 then []
    else
      PlaceMembers(actions, BottomUp(actions, n - 1), n - 1);
      var order := Place(actions, BottomUp(actions, n - 1), n - 1);
      assert forall k :: 0 <= k < n ==> order[k] in order;
      order
  }

  /** Sorted by position, ties in plan order. */
  lemma {:induction false} BottomUpIsInOrder(actions: seq<Action>, n: nat)
    requires n <= |actions|
    ensures InOrder(actions, BottomUp(actions, n))
  {
    if n > 0 {
      var order := BottomUp(actions, n - 1);
      BottomUpIsInOrder(actions, n - 1);
      PlaceKeepsOrder(actions, order, n - 1);
    }
  }

  /** The order, spelled out: what has no position first; then by file and list;
      within a list the higher index first; ties as planned. */
  lemma BottomUpSpelledOut(actions: seq<Action>, k: nat, l: nat)
    requires k < l < |actions|
    ensures
      var order := BottomUp(actions, |actions|);
      var p, q := RemovalPosition(actions[order[k]]), RemovalPosition(actions[order[l]]);
      && (p.Some? ==> q.Some?)
      && (p.None? && q.None? ==> order[k] < order[l])
      && (p.Some? && q.Some? && p.value.file != q.value.file ==> Less(p.value.file, q.value.file))
      && (p.Some? && q.Some? && p.value.file == q.value.file && p.value.list != q.value.list ==>
            Less(p.value.list, q.value.list))
      && (p.Some? && q.Some? && p.value.file == q.value.file && p.value.list == q.value.list ==>
            p.value.index > q.value.index || (p.value.index == q.value.index && order[k] < order[l]))
  {
    var order := BottomUp(actions, |actions|);
    BottomUpIsInOrder(actions, |actions|);
    assert Precedes(actions, order[k], order[l]);
    var p, q := RemovalPosition(actions[order[k]]), RemovalPosition(actions[order[l]]);
    if p.Some? && q.Some? {
      LessIsTotal(p.value.file, q.value.file);
      LessIsTotal(p.value.list, q.value.list);
      LessIsIrreflexive(p.value.file);
      LessIsIrreflexive(p.value.list);
      LessIsAsymmetric(p.value.file, q.value.file);
      LessIsAsymmetric(p.value.list, q.value.list);
    }
  }
}

/**
 What runs of removals that are not steady take instead.

 Each such run has a trap: entries that name nothing, a first target, and somewhere
 behind it the target of a removal that something before it can move. Once the first
 target is gone, the other has moved up to where that removal is aimed, and one entry
 more goes than the run stands for.

 Where every entry has one address and nothing goes by name, an unsteady run that goes
 from high to low repeats an address, and the trap holds copies of the second target
 enough to outlast all the other removals. Otherwise the first target of the trap
 reaches past every address of the run, so that nothing behind it is aimed at: the run
 takes the first target, then the other, and no entry besides.
 */
module Traps {
  import opened Common
  import opened Manifest
  import opened Removals

  // ------------------------------------------------- a trap of single addresses

  /** The first repeat of a descending sequence is of neighbours. */
  lemma LastRepeatsItsNeighbour(at: nat, rs: seq<Removal>)
    requires HighestFirst(rs) && rs != [] && NoRepeat(at, rs[..|rs| - 1]) && !NoRepeat(at, rs)
    ensures |rs| >= 2 && rs[|rs| - 2].at == rs[|rs| - 1].at >= at
  {
    var init := rs[..|rs| - 1];
    var i, j :| 0 <= i < j < |rs| && rs[i].at >= at && rs[i].at == rs[j].at;
    assert forall k :: 0 <= k < |init| ==> init[k] == rs[k];
    assert j == |rs| - 1;
    assert rs[i].at >= rs[|rs| - 2].at >= rs[j].at;
  }

  lemma {:induction false} FirstRepeat(at: nat, rs: seq<Removal>) returns (k: nat)
    requires HighestFirst(rs) && !NoRepeat(at, rs)
    ensures k + 1 < |rs| && rs[k].at == rs[k + 1].at >= at && NoRepeat(at, rs[..k + 1])
  {
    var init := rs[..|rs| - 1];
    if NoRepeat(at, init) {
      LastRepeatsItsNeighbour(at, rs);
      k := |rs| - 2;
      assert rs[..k + 1] == init;
    } else {
      k := FirstRepeat(at, init);
      assert init[..k + 1] == rs[..k + 1];
    }
  }

  function Repeated(n: nat, text: string, name: Option<string>): (entries: seq<Entry>)
    ensures |entries| == n && forall e :: e in entries ==> e == Entry(text, name, 1)
  {
    if n == 0 then [] else [Entry(text, name, 1)] + Repeated(n - 1, text, name)
  }

  function Unnamed(n: nat, text: string): seq<Entry> {
    Repeated(n, text, None)
  }

  /** `low` entries that name nothing, the first target, and more copies of the
      second target above it than there are removals. */
  function Trap(low: nat, text: string, first: string, second: string, copies: nat): seq<Entry> {
    Unnamed(low, text) + ([Entry(text, Some(first), 1)] + Repeated(copies, text, Some(second)))
  }

  lemma UnnamedHeadStays(e: Entry, rest: seq<Entry>, at: nat, gone: set<Removal>)
    requires e.name == None
    ensures Without([e] + rest, at, gone) == [e] + Without(rest, at + e.span, gone)
  {
    assert ([e] + rest)[1..] == rest;
  }

  lemma {:induction false} UnnamedStay(n: nat, text: string, rest: seq<Entry>, at: nat, gone: set<Removal>)
    ensures Without(Unnamed(n, text) + rest, at, gone) == Unnamed(n, text) + Without(rest, at + n, gone)
  {
    if n == 0 {
      assert [] + rest == rest;
    } else {
      var e := Entry(text, None, 1);
      UnnamedStay(n - 1, text, rest, at + 1, gone);
      UnnamedHeadStays(e, Unnamed(n - 1, text) + rest, at, gone);
      Reassociate([e], Unnamed(n - 1, text), rest);
      Reassociate([e], Unnamed(n - 1, text), Without(rest, at + n, gone));
    }
  }

  lemma {:induction false} RemovePast(n: nat, text: string, rest: seq<Entry>, at: nat, r: Removal)
    requires r.at == at + n && rest != [] && rest[0].name == Some(r.name)
    ensures RemoveAt(Unnamed(n, text) + rest, at, r) == Some(Unnamed(n, text) + rest[1..])
  {
    if n == 0 {
      assert [] + rest == rest && [] + rest[1..] == rest[1..];
    } else {
      var e := Entry(text, None, 1);
      RemovePast(n - 1, text, rest, at + 1, r);
      Reassociate([e], Unnamed(n - 1, text), rest);
      Reassociate([e], Unnamed(n - 1, text), rest[1..]);
    }
  }

  lemma {:induction false} SomeSurvive(n: nat, text: string, name: string, at: nat, gone: set<Removal>)
    ensures var left := Without(Repeated(n, text, Some(name)), at, gone);
      |left| >= n - |gone| && forall e :: e in left ==> e.name == Some(name)
  {
    if n > 0 {
      var r := Removal(at, name);
      assert Repeated(n, text, Some(name))[1..] == Repeated(n - 1, text, Some(name));
      if r in gone {
        SomeSurvive(n - 1, text, name, at + 1, gone - {r});
        OtherRemovalsMiss(Repeated(n - 1, text, Some(name)), at + 1, gone - {r}, r);
        assert gone - {r} + {r} == gone;
      } else {
        SomeSurvive(n - 1, text, name, at + 1, gone);
      }
    }
  }

  lemma {:induction false} RemoveEachShrinks(entries: seq<Entry>, at: nat, rs: seq<Removal>)
    ensures |RemoveEach(entries, at, rs)| <= |entries|
    decreases |rs|
  {
    if rs != [] {
      RemoveAtMembers(entries, at, rs[0]);
      var left := RemoveAt(entries, at, rs[0]);
      RemoveEachShrinks(if left.Some? then left.value else entries, at, rs[1..]);
    }
  }

  lemma {:induction false} RemoveEachConcat(entries: seq<Entry>, at: nat, p: seq<Removal>, q: seq<Removal>)
    ensures RemoveEach(entries, at, p + q) == RemoveEach(RemoveEach(entries, at, p), at, q)
    decreases |p|
  {
    if p == [] {
      assert p + q == q;
    } else {
      var left := RemoveAt(entries, at, p[0]);
      assert (p + q)[1..] == p[1..] + q;
      RemoveEachConcat(if left.Some? then left.value else entries, at, p[1..], q);
    }
  }

  /** Only removals that name an entry at its address matter. */
  lemma {:induction false} SameHitsSameRest(entries: seq<Entry>, at: nat, a: set<Removal>, b: set<Removal>)
    requires forall e :: e in entries ==> e.span == 1
    requires forall i :: 0 <= i < |entries| && entries[i].name.Some? ==>
      (Removal(at + i, entries[i].name.value) in a <==> Removal(at + i, entries[i].name.value) in b)
    ensures Without(entries, at, a) == Without(entries, at, b)
  {
    if entries != [] {
      assert entries[0] in entries;
      forall i | 0 <= i < |entries[1..]| && entries[1..][i].name.Some?
        ensures Removal(at + 1 + i, entries[1..][i].name.value) in a <==>
          Removal(at + 1 + i, entries[1..][i].name.value) in b
      {
        assert entries[1..][i] == entries[i + 1];
      }
      assert forall e :: e in entries[1..] ==> e in entries;
      SameHitsSameRest(entries[1..], at + 1, a, b);
    }
  }

  lemma TrapEntries(low: nat, text: string, first: string, second: string, copies: nat)
    ensures var trap := Trap(low, text, first, second, copies);
      && |trap| == low + 1 + copies
      && (forall e :: e in trap ==> e.span == 1 && e.text == text)
      && (forall i :: 0 <= i < low ==> trap[i].name == None)
      && trap[low].name == Some(first)
  {
    var unnamed: seq<Entry> := Unnamed(low, text);
    var named: seq<Entry> := [Entry(text, Some(first), 1)] + Repeated(copies, text, Some(second));
    forall i | 0 <= i < low ensures Trap(low, text, first, second, copies)[i].name == None {
      assert (unnamed + named)[i] == unnamed[i] && unnamed[i] in unnamed;
    }
  }

  /** Removals past the first `k + 1` hit nothing new in the trap. */
  lemma LaterRemovalsMissTheTrap(at: nat, rs: seq<Removal>, k: nat, text: string, second: string, copies: nat)
    requires HighestFirst(rs) && k + 1 < |rs| && at <= rs[k].at
    ensures var trap := Trap(rs[k].at - at, text, rs[k].name, second, copies);
      Without(trap, at, AsSet(rs)) == Without(trap, at, AsSet(rs[..k + 1]))
  {
    var low := rs[k].at - at;
    var trap := Trap(low, text, rs[k].name, second, copies);
    var p := rs[..k + 1];
    TrapEntries(low, text, rs[k].name, second, copies);
    assert p[k] == rs[k];
    forall i | 0 <= i < |trap| && trap[i].name.Some?
      ensures Removal(at + i, trap[i].name.value) in AsSet(rs) <==> Removal(at + i, trap[i].name.value) in AsSet(p)
    {
      var r := Removal(at + i, trap[i].name.value);
      if r in rs && i > low {
        var j :| 0 <= j < |rs| && rs[j] == r;
        assert p[j] == r;
      }
    }
    SameHitsSameRest(trap, at, AsSet(rs), AsSet(p));
  }

  lemma {:induction false} SetIsNoLarger(rs: seq<Removal>)
    ensures |AsSet(rs)| <= |rs|
  {
    if rs != [] {
      SetIsNoLarger(rs[1..]);
      assert AsSet(rs) == {rs[0]} + AsSet(rs[1..]);
    }
  }

  lemma TrapSprings(at: nat, text: string, first: string, r: Removal, gone: set<Removal>, copies: nat)
    requires at <= r.at && Removal(r.at, first) in gone && copies > |gone|
    ensures RemoveAt(Without(Trap(r.at - at, text, first, r.name, copies), at, gone), at, r).Some?
  {
    var high := Repeated(copies, text, Some(r.name));
    var e := Entry(text, Some(first), 1);
    UnnamedStay(r.at - at, text, [e] + high, at, gone);
    assert ([e] + high)[1..] == high;
    SomeSurvive(copies, text, r.name, r.at + 1, gone);
    var left := Without(high, r.at + 1, gone);
    assert left[0] in left;
    RemovePast(r.at - at, text, left, at, r);
  }

  lemma OneMoreAndTheRestShrink(entries: seq<Entry>, at: nat, p: seq<Removal>, r: Removal, rest: seq<Removal>)
    requires RemoveAt(RemoveEach(entries, at, p), at, r).Some?
    ensures |RemoveEach(entries, at, p + ([r] + rest))| < |RemoveEach(entries, at, p)|
  {
    var kept := RemoveEach(entries, at, p);
    RemoveEachConcat(entries, at, p, [r] + rest);
    assert ([r] + rest)[1..] == rest;
    RemoveAtMembers(kept, at, r);
    RemoveEachShrinks(RemoveAt(kept, at, r).value, at, rest);
  }

  lemma SplitAround(rs: seq<Removal>, k: nat)
    requires k + 1 < |rs| && HighestFirst(rs)
    ensures rs == rs[..k + 1] + ([rs[k + 1]] + rs[k + 2..])
    ensures Removal(rs[k].at, rs[k].name) in AsSet(rs[..k + 1])
    ensures |AsSet(rs[..k + 1])| <= |rs| && HighestFirst(rs[..k + 1])
  {
    assert rs[..k + 1][k] == rs[k];
    SetIsNoLarger(rs[..k + 1]);
  }

  lemma TrapBites(
    at: nat, trap: seq<Entry>, p: seq<Removal>, text: string, first: string, r: Removal, rest: seq<Removal>,
    copies: nat)
    requires Falling(at, p) && at <= r.at
    requires trap == Trap(r.at - at, text, first, r.name, copies) && Removal(r.at, first) in AsSet(p)
    requires copies > |AsSet(p)|
    ensures |RemoveEach(trap, at, p + ([r] + rest))| < |Without(trap, at, AsSet(p))|
  {
    TrapSprings(at, text, first, r, AsSet(p), copies);
    FallingFromTheStart(trap, at, p);
    OneMoreAndTheRestShrink(trap, at, p, r, rest);
  }

  /** A second removal of an address takes a neighbour from the trap. */
  lemma RepeatTakesTooMuch(at: nat, rs: seq<Removal>, k: nat, text: string) returns (trap: seq<Entry>)
    requires HighestFirst(rs) && k + 1 < |rs| && rs[k].at == rs[k + 1].at >= at && NoRepeat(at, rs[..k + 1])
    ensures |RemoveEach(trap, at, rs)| < |Without(trap, at, AsSet(rs))|
    ensures forall e :: e in trap ==> e.text == text && e.span == 1
  {
    trap := Trap(rs[k].at - at, text, rs[k].name, rs[k + 1].name, |rs| + 1);
    TrapEntries(rs[k].at - at, text, rs[k].name, rs[k + 1].name, |rs| + 1);
    RepeatSpringsTrap(at, rs, k, text, trap);
    LaterRemovalsMissTheTrap(at, rs, k, text, rs[k + 1].name, |rs| + 1);
  }

  lemma RepeatSpringsTrap(at: nat, rs: seq<Removal>, k: nat, text: string, trap: seq<Entry>)
    requires HighestFirst(rs) && k + 1 < |rs| && rs[k].at == rs[k + 1].at >= at && NoRepeat(at, rs[..k + 1])
    requires trap == Trap(rs[k + 1].at - at, text, rs[k].name, rs[k + 1].name, |rs| + 1)
    ensures |RemoveEach(trap, at, rs)| < |Without(trap, at, AsSet(rs[..k + 1]))|
  {
    SplitAround(rs, k);
    HighestFirstFalls(at, rs[..k + 1]);
    TrapBites(at, trap, rs[..k + 1], text, rs[k].name, rs[k + 1], rs[k + 2..], |rs| + 1);
  }

  // ------------------------------------------------------ a trap with a long reach

  /** A take that removes the first target of the trap. */
  predicate Springs(t: Take, at: nat, first: string) {
    t == ByAddress(Removal(at, first)) || t == ByName(first)
  }

  /** A removal that is not steady, and a take before it that moves its target. */
  lemma Unsteady(at: nat, ts: seq<Take>) returns (i: nat, j: nat, low: nat, first: string)
    requires !Steady(at, ts)
    ensures i < j < |ts| && Live(at, Names(ts), ts[j])
    ensures Springs(ts[i], at + low, first) && at + low <= ts[j].removal.at
  {
    i, j :| 0 <= i < j < |ts| && Live(at, Names(ts), ts[j]) && !LeavesBelow(at, ts[i], ts[j]);
    match ts[i] {
      case ByAddress(r) => low, first := r.at - at, r.name;
      case ByName(name) => low, first := 0, name;
    }
  }

  function Highest(ts: seq<Take>): (top: nat)
    ensures forall t :: t in ts && t.ByAddress? ==> t.removal.at <= top
  {
    if ts == [] then 0
    else
      var rest := Highest(ts[1..]);
      if ts[0].ByAddress? && rest < ts[0].removal.at then ts[0].removal.at else rest
  }

  /** The trap once the first target is gone. */
  function Sprung(n: nat, text: string, second: string): (entries: seq<Entry>)
    ensures |entries| == n + 1
  {
    Unnamed(n, text) + [Entry(text, Some(second), 1)]
  }

  function LongTrap(low: nat, reach: Span, gap: nat, text: string, first: string, second: string): seq<Entry> {
    Unnamed(low, text) + ([Entry(text, Some(first), reach)] + Sprung(gap, text, second))
  }

  lemma {:induction false} UnnamedSum(m: nat, n: nat, text: string)
    ensures Unnamed(m, text) + Unnamed(n, text) == Unnamed(m + n, text)
  {
    if m > 0 {
      UnnamedSum(m - 1, n, text);
      Reassociate([Entry(text, None, 1)], Unnamed(m - 1, text), Unnamed(n, text));
    }
  }

  lemma SprungSum(m: nat, n: nat, text: string, second: string)
    ensures Unnamed(m, text) + Sprung(n, text, second) == Sprung(m + n, text, second)
  {
    UnnamedSum(m, n, text);
    Reassociate(Unnamed(m, text), Unnamed(n, text), [Entry(text, Some(second), 1)]);
  }

  /** Unnamed entries are never taken. */
  lemma {:induction false} TakeBehindUnnamed(n: nat, text: string, rest: seq<Entry>, at: nat, t: Take)
    ensures TakeFrom(Unnamed(n, text) + rest, at, t) == Unnamed(n, text) + TakeFrom(rest, at + n, t)
  {
    if n == 0 {
      assert [] + rest == rest && [] + TakeFrom(rest, at, t) == TakeFrom(rest, at, t);
    } else {
      var e := Entry(text, None, 1);
      TakeBehindUnnamed(n - 1, text, rest, at + 1, t);
      TakeSkipsHead(e, Unnamed(n - 1, text) + rest, at, t);
      if t.ByAddress? && t.removal.at <= at {
        TakeMisses(rest, at + n, t);
        TakeMisses(Unnamed(n - 1, text) + rest, at + 1, t);
      }
      Reassociate([e], Unnamed(n - 1, text), rest);
      Reassociate([e], Unnamed(n - 1, text), TakeFrom(rest, at + n, t));
    }
  }

  lemma TakeMisses(entries: seq<Entry>, at: nat, t: Take)
    requires t.ByAddress? && t.removal.at < at
    ensures TakeFrom(entries, at, t) == entries
  {
  }

  lemma TakeSkipsHead(e: Entry, rest: seq<Entry>, at: nat, t: Take)
    requires e.name == None
    ensures TakeFrom([e] + rest, at, t) == [e] + TakeFrom(rest, at + e.span, t)
  {
    assert ([e] + rest)[1..] == rest;
  }

  lemma TakeFromLast(last: Entry, at: nat, t: Take)
    ensures TakeFrom([last], at, t) in {[last], []}
    ensures last.name.Some? && t == ByAddress(Removal(at, last.name.value)) ==> TakeFrom([last], at, t) == []
  {
    assert [last][1..] == [];
    match t {
      case ByAddress(r) =>
        assert RemoveAt([last][1..], at + last.span, r) == None;
      case ByName(name) =>
        var kept := if last.name == Some(name) then [] else [last];
        assert WithoutName([last], name) == kept + WithoutName([], name) == kept;
    }
  }

  lemma TakeFromSprung(n: nat, text: string, second: string, at: nat, t: Take)
    ensures TakeFrom(Sprung(n, text, second), at, t) in {Sprung(n, text, second), Unnamed(n, text)}
    ensures t == ByAddress(Removal(at + n, second)) ==> TakeFrom(Sprung(n, text, second), at, t) == Unnamed(n, text)
  {
    var last := Entry(text, Some(second), 1);
    TakeBehindUnnamed(n, text, [last], at, t);
    TakeFromLast(last, at + n, t);
    assert Unnamed(n, text) + [] == Unnamed(n, text);
  }

  lemma TakeFromUnnamed(n: nat, text: string, at: nat, t: Take)
    ensures TakeFrom(Unnamed(n, text), at, t) == Unnamed(n, text)
  {
    TakeBehindUnnamed(n, text, [], at, t);
    assert Unnamed(n, text) + [] == Unnamed(n, text);
  }

  lemma TakeFromHead(e: Entry, rest: seq<Entry>, at: nat, t: Take)
    requires e.name.Some? && TakeFrom(rest, at + e.span, t) == rest
    ensures TakeFrom([e] + rest, at, t) == if Springs(t, at, e.name.value) then rest else [e] + rest
  {
    match t {
      case ByAddress(r) =>
        if r.at == at {
          RemoveHead(e, rest, r);
        } else if r.at > at {
          assert ([e] + rest)[1..] == rest;
        }
      case ByName(name) =>
        WithoutNameUnfolds(e, rest, name);
    }
  }

  lemma WithoutNameUnfolds(e: Entry, rest: seq<Entry>, name: string)
    ensures WithoutName([e] + rest, name) ==
      if e.name == Some(name) then WithoutName(rest, name) else [e] + WithoutName(rest, name)
  {
    assert ([e] + rest)[1..] == rest;
    assert [] + WithoutName(rest, name) == WithoutName(rest, name);
  }

  /** Within reach, and not of the second target's name. */
  predicate Misses(t: Take, top: nat, second: string) {
    match t
    case ByAddress(r) => r.at <= top
    case ByName(name) => name != second
  }

  lemma TakeFromTrap(
    low: nat, top: nat, gap: nat, text: string, first: string, second: string, at: nat, t: Take)
    requires Misses(t, top, second)
    ensures TakeFrom(LongTrap(low, top + 1, gap, text, first, second), at, t) ==
      if Springs(t, at + low, first) then Sprung(low + gap, text, second)
      else LongTrap(low, top + 1, gap, text, first, second)
  {
    var e, behind := Entry(text, Some(first), top + 1), Sprung(gap, text, second);
    TakeBehindUnnamed(low, text, [e] + behind, at, t);
    NotBehind(gap, text, second, at + low + top + 1, t, top);
    TakeFromHead(e, behind, at + low, t);
    SprungSum(low, gap, text, second);
  }

  lemma NotBehind(n: nat, text: string, second: string, at: nat, t: Take, top: nat)
    requires Misses(t, top, second) && top < at
    ensures TakeFrom(Sprung(n, text, second), at, t) == Sprung(n, text, second)
  {
    if t.ByName? {
      var last := Entry(text, Some(second), 1);
      TakeBehindUnnamed(n, text, [last], at, t);
      assert [last][1..] == [] && [last] + [] == [last];
      assert WithoutName([last], t.name) == [last] + WithoutName([], t.name);
    }
  }

  /** A list that no take of the run changes any more. */
  lemma {:induction false} RunLeaves(bare: seq<Entry>, at: nat, ts: seq<Take>)
    requires forall t :: t in ts ==> TakeFrom(bare, at, t) == bare
    ensures TakeEach(bare, at, ts) == bare
    decreases |ts|
  {
    if ts != [] {
      RunLeaves(bare, at, ts[1..]);
    }
  }

  /** A list that each take leaves or brings to its last state, and one does. */
  lemma {:induction false} RunTakesTheSecond(sprung: seq<Entry>, bare: seq<Entry>, at: nat, ts: seq<Take>, j: nat)
    requires forall t :: t in ts ==> TakeFrom(sprung, at, t) in {sprung, bare} && TakeFrom(bare, at, t) == bare
    requires j < |ts| && TakeFrom(sprung, at, ts[j]) == bare
    ensures TakeEach(sprung, at, ts) == bare
    decreases |ts|
  {
    assert ts[0] in ts;
    if TakeFrom(sprung, at, ts[0]) == bare {
      RunLeaves(bare, at, ts[1..]);
    } else {
      RunTakesTheSecond(sprung, bare, at, ts[1..], j - 1);
    }
  }

  lemma {:induction false} RunTakesBoth(
    full: seq<Entry>, sprung: seq<Entry>, bare: seq<Entry>, at: nat, ts: seq<Take>, i: nat, j: nat)
    requires forall t :: t in ts ==>
      && TakeFrom(full, at, t) in {full, sprung}
      && TakeFrom(sprung, at, t) in {sprung, bare}
      && TakeFrom(bare, at, t) == bare
    requires i < j < |ts| && TakeFrom(full, at, ts[i]) == sprung && TakeFrom(sprung, at, ts[j]) == bare
    ensures TakeEach(full, at, ts) == bare
    decreases |ts|
  {
    assert ts[0] in ts;
    if TakeFrom(full, at, ts[0]) == sprung {
      RunTakesTheSecond(sprung, bare, at, ts[1..], j - 1);
    } else {
      RunTakesBoth(full, sprung, bare, at, ts[1..], i - 1, j - 1);
    }
  }

  lemma RunFromTrap(
    low: nat, top: nat, gap: nat, text: string, first: string, second: string, at: nat, ts: seq<Take>, i: nat, j: nat)
    requires forall t :: t in ts ==> Misses(t, top, second)
    requires i < j < |ts| && Springs(ts[i], at + low, first) && ts[j] == ByAddress(Removal(at + low + gap, second))
    ensures TakeEach(LongTrap(low, top + 1, gap, text, first, second), at, ts) == Unnamed(low + gap, text)
  {
    var full := LongTrap(low, top + 1, gap, text, first, second);
    var sprung, bare := Sprung(low + gap, text, second), Unnamed(low + gap, text);
    forall t | t in ts
      ensures TakeFrom(full, at, t) == if Springs(t, at + low, first) then sprung else full
      ensures TakeFrom(sprung, at, t) in {sprung, bare}
      ensures TakeFrom(bare, at, t) == bare
    {
      TakeFromTrap(low, top, gap, text, first, second, at, t);
      TakeFromSprung(low + gap, text, second, at, t);
      TakeFromUnnamed(low + gap, text, at, t);
    }
    TakeFromSprung(low + gap, text, second, at, ts[j]);
    RunTakesBoth(full, sprung, bare, at, ts, i, j);
  }

  lemma {:induction false} NamesBehindUnnamed(n: nat, text: string, rest: seq<Entry>, names: set<string>)
    ensures WithoutNames(Unnamed(n, text) + rest, names) == Unnamed(n, text) + WithoutNames(rest, names)
  {
    if n == 0 {
      assert [] + rest == rest && [] + WithoutNames(rest, names) == WithoutNames(rest, names);
    } else {
      var e := Entry(text, None, 1);
      NamesBehindUnnamed(n - 1, text, rest, names);
      Reassociate([e], Unnamed(n - 1, text), rest);
      Reassociate([e], Unnamed(n - 1, text), WithoutNames(rest, names));
      assert ([e] + (Unnamed(n - 1, text) + rest))[1..] == Unnamed(n - 1, text) + rest;
    }
  }

  lemma SprungIsSpared(n: nat, text: string, second: string, at: nat, gone: set<Removal>, names: set<string>)
    requires second !in names && forall g :: g in gone ==> g.at < at
    ensures WithoutNames(Without(Sprung(n, text, second), at, gone), names) == Sprung(n, text, second)
  {
    var last := Entry(text, Some(second), 1);
    FilterBehindUnnamed(n, text, [last], at, gone, names);
    assert [last][1..] == [] && [last] + [] == [last];
    assert Without([last], at + n, gone) == [last] + Without([], at + n + 1, gone);
    assert WithoutNames([last], names) == [last] + WithoutNames([], names);
  }

  /** Of the trap only the first target is ever stood for. */
  lemma TrapSparesTheSecond(
    low: nat, top: nat, gap: nat, text: string, first: string, second: string, at: nat, gone: set<Removal>,
    names: set<string>)
    requires second !in names && forall g :: g in gone ==> g.at <= top
    requires Removal(at + low, first) in gone || first in names
    ensures WithoutNames(Without(LongTrap(low, top + 1, gap, text, first, second), at, gone), names)
         == Sprung(low + gap, text, second)
  {
    var e, behind := Entry(text, Some(first), top + 1), Sprung(gap, text, second);
    SprungIsSpared(gap, text, second, at + low + top + 1, gone, names);
    OnlyTheHeadGoes(low, text, e, behind, at, gone, names);
    SprungSum(low, gap, text, second);
  }

  lemma FilterBehindUnnamed(
    n: nat, text: string, rest: seq<Entry>, at: nat, gone: set<Removal>, names: set<string>)
    ensures WithoutNames(Without(Unnamed(n, text) + rest, at, gone), names)
         == Unnamed(n, text) + WithoutNames(Without(rest, at + n, gone), names)
  {
    UnnamedStay(n, text, rest, at, gone);
    NamesBehindUnnamed(n, text, Without(rest, at + n, gone), names);
  }

  lemma OnlyTheHeadGoes(
    n: nat, text: string, e: Entry, rest: seq<Entry>, at: nat, gone: set<Removal>, names: set<string>)
    requires e.name.Some? && (Removal(at + n, e.name.value) in gone || e.name.value in names)
    requires WithoutNames(Without(rest, at + n + e.span, gone), names) == rest
    ensures WithoutNames(Without(Unnamed(n, text) + ([e] + rest), at, gone), names) == Unnamed(n, text) + rest
  {
    FilterBehindUnnamed(n, text, [e] + rest, at, gone, names);
    HeadIsStoodFor(e, rest, at + n, gone, names);
  }

  lemma HeadIsStoodFor(e: Entry, rest: seq<Entry>, at: nat, gone: set<Removal>, names: set<string>)
    requires e.name.Some? && (Removal(at, e.name.value) in gone || e.name.value in names)
    ensures WithoutNames(Without([e] + rest, at, gone), names)
         == WithoutNames(Without(rest, at + e.span, gone), names)
  {
    var left := Without(rest, at + e.span, gone);
    WithoutUnfolds(e, rest, at, gone);
    assert ([e] + left)[1..] == left && [] + WithoutNames(left, names) == WithoutNames(left, names);
  }

  /** A run that is not steady takes one entry more from its trap. */
  lemma UnsteadyTakesTooMuch(at: nat, ts: seq<Take>, text: string) returns (trap: seq<Entry>)
    requires !Steady(at, ts)
    ensures |TakeEach(trap, at, ts)| < |Spared(trap, at, ts)|
    ensures forall e :: e in trap ==> e.text == text
  {
    var i, j, low, first := Unsteady(at, ts);
    var top, r := Highest(ts), ts[j].removal;
    var gap := r.at - at - low;
    trap := LongTrap(low, top + 1, gap, text, first, r.name);
    SpringIsStoodFor(at, ts, i, low, first);
    AllMiss(ts, r.name);
    RunFromTrap(low, top, gap, text, first, r.name, at, ts, i, j);
    TrapSparesTheSecond(low, top, gap, text, first, r.name, at, Addresses(ts), Names(ts));
    TrapReads(low, top + 1, gap, text, first, r.name);
  }

  lemma AllMiss(ts: seq<Take>, second: string)
    requires second !in Names(ts)
    ensures forall t :: t in ts ==> Misses(t, Highest(ts), second)
    ensures forall g :: g in Addresses(ts) ==> g.at <= Highest(ts)
  {
  }

  lemma TrapReads(low: nat, reach: Span, gap: nat, text: string, first: string, second: string)
    ensures forall e :: e in LongTrap(low, reach, gap, text, first, second) ==> e.text == text
  {
  }

  lemma SpringIsStoodFor(at: nat, ts: seq<Take>, i: nat, low: nat, first: string)
    requires i < |ts| && Springs(ts[i], at + low, first)
    ensures Removal(at + low, first) in Addresses(ts) || first in Names(ts)
  {
    assert ts[i] in ts;
  }
}

/**
 Removals run one after the other on one list: when they take exactly what they stand
 for. A removal goes by address or by name. What a run stands for is read off the list
 as first read: the entries its addresses name and all entries of its names.

 A run is steady when nothing before a removal by address can move its target: no
 removal by name, and no address as low. An address whose name the run removes by name
 anyway does not matter. A steady run takes exactly what it stands for, since until a
 removal runs all below its address is as first read.
 */
module Removals {
  import opened Common
  import opened Manifest

  function TakeFrom(entries: seq<Entry>, at: nat, t: Take): seq<Entry> {
    match t
    case ByAddress(r) => (
      match RemoveAt(entries, at, r)
      case Some(left) => left
      case None => entries
    )
    case ByName(name) => WithoutName(entries, name)
  }

  function TakeEach(entries: seq<Entry>, at: nat, ts: seq<Take>): seq<Entry>
    decreases |ts|
  {
    if ts == [] then entries else TakeEach(TakeFrom(entries, at, ts[0]), at, ts[1..])
  }

  function Addresses(ts: seq<Take>): set<Removal> {
    set t | t in ts && t.ByAddress? :: t.removal
  }

  function Names(ts: seq<Take>): set<string> {
    set t | t in ts && t.ByName? :: t.name
  }

  predicate NamedIn(e: Entry, names: set<string>) {
    e.name.Some? && e.name.value in names
  }

  function WithoutNames(entries: seq<Entry>, names: set<string>): seq<Entry> {
    if entries == [] then []
    else (if NamedIn(entries[0], names) then [] else [entries[0]]) + WithoutNames(entries[1..], names)
  }

  /** What the takes stand for, read off the list as first read. */
  function Spared(entries: seq<Entry>, at: nat, ts: seq<Take>): seq<Entry> {
    WithoutNames(Without(entries, at, Addresses(ts)), Names(ts))
  }

  /** A removal within the list whose name does not go anyway. */
  predicate Live(at: nat, names: set<string>, t: Take) {
    t.ByAddress? && t.removal.at >= at && t.removal.name !in names
  }

  /** `t` moves nothing that `later` is aimed at. */
  predicate LeavesBelow(at: nat, t: Take, later: Take)
    requires later.ByAddress?
  {
    t.ByAddress? && (t.removal.at >= at ==> t.removal.at > later.removal.at)
  }

  ghost predicate SteadyFor(at: nat, names: set<string>, ts: seq<Take>) {
    forall i, j :: 0 <= i < j < |ts| && Live(at, names, ts[j]) ==> LeavesBelow(at, ts[i], ts[j])
  }

  /** Nothing a live removal is aimed at has been moved by then. */
  ghost predicate Steady(at: nat, ts: seq<Take>) {
    SteadyFor(at, Names(ts), ts)
  }

  /** Removals past the list, or of names that go anyway. */
  ghost predicate Moot(at: nat, names: set<string>, gone: set<Removal>) {
    forall g :: g in gone ==> g.at < at || g.name in names
  }

  lemma {:induction false} MootMatterNot(entries: seq<Entry>, at: nat, names: set<string>, gone: set<Removal>)
    requires Moot(at, names, gone)
    ensures WithoutNames(Without(entries, at, gone), names) == WithoutNames(entries, names)
  {
    if entries != [] {
      var e, rest := entries[0], Without(entries[1..], at + entries[0].span, gone);
      MootMatterNot(entries[1..], at + e.span, names, gone);
      assert ([e] + rest)[1..] == rest;
    }
  }

  lemma {:induction false} NamesAbsorbName(entries: seq<Entry>, name: string, names: set<string>)
    requires name in names
    ensures WithoutNames(WithoutName(entries, name), names) == WithoutNames(entries, names)
  {
    if entries != [] {
      var e, rest := entries[0], WithoutName(entries[1..], name);
      NamesAbsorbName(entries[1..], name, names);
      assert ([e] + rest)[1..] == rest && [] + rest == rest;
    }
  }

  /** After `r` only lower addresses matter. */
  ghost predicate BelowOrMoot(at: nat, names: set<string>, r: Removal, gone: set<Removal>) {
    r.at >= at ==> forall g :: g in gone ==> g.at < r.at || g.name in names
  }

  lemma SkipHead(e: Entry, x: seq<Entry>, y: seq<Entry>, names: set<string>)
    requires WithoutNames(x, names) == WithoutNames(y, names)
    ensures WithoutNames([e] + x, names) == WithoutNames([e] + y, names)
  {
    assert ([e] + x)[1..] == x && ([e] + y)[1..] == y;
  }

  /** A removal and then the filter is the filter with that removal. */
  lemma {:induction false} TakeThenFilter(
    entries: seq<Entry>, at: nat, names: set<string>, r: Removal, gone: set<Removal>)
    requires BelowOrMoot(at, names, r, gone)
    ensures WithoutNames(Without(TakeFrom(entries, at, ByAddress(r)), at, gone), names)
         == WithoutNames(Without(entries, at, gone + {r}), names)
  {
    if r.at < at {
      OtherRemovalsMiss(entries, at, gone, r);
    } else if entries != [] {
      assert entries == [entries[0]] + entries[1..];
      if r.at == at {
        TakeHeadThenFilter(entries[0], entries[1..], names, r, gone);
      } else {
        TakeThenFilter(entries[1..], at + entries[0].span, names, r, gone);
        TakeBehindThenFilter(entries[0], entries[1..], at, names, r, gone);
      }
    }
  }

  lemma TakeHeadThenFilter(e: Entry, rest: seq<Entry>, names: set<string>, r: Removal, gone: set<Removal>)
    requires BelowOrMoot(r.at, names, r, gone)
    ensures WithoutNames(Without(TakeFrom([e] + rest, r.at, ByAddress(r)), r.at, gone), names)
         == WithoutNames(Without([e] + rest, r.at, gone + {r}), names)
  {
    RemoveHead(e, rest, r);
    if e.name == Some(r.name) {
      HeadIsTaken(e, rest, r, gone);
      TwoMootFilters(rest, r.at, r.at + e.span, names, gone);
    } else {
      HeadIsLeft(e, rest, r, gone);
    }
  }

  lemma HeadIsTaken(e: Entry, rest: seq<Entry>, r: Removal, gone: set<Removal>)
    requires e.name == Some(r.name)
    ensures Without([e] + rest, r.at, gone + {r}) == Without(rest, r.at + e.span, gone)
  {
    WithoutUnfolds(e, rest, r.at, gone + {r});
    OtherRemovalsMiss(rest, r.at + e.span, gone, r);
  }

  lemma HeadIsLeft(e: Entry, rest: seq<Entry>, r: Removal, gone: set<Removal>)
    requires e.name != Some(r.name)
    ensures Without([e] + rest, r.at, gone + {r}) == Without([e] + rest, r.at, gone)
  {
    WithoutUnfolds(e, rest, r.at, gone);
    WithoutUnfolds(e, rest, r.at, gone + {r});
    OtherRemovalsMiss(rest, r.at + e.span, gone, r);
  }

  lemma TwoMootFilters(entries: seq<Entry>, a: nat, b: nat, names: set<string>, gone: set<Removal>)
    requires a <= b && Moot(a, names, gone)
    ensures WithoutNames(Without(entries, a, gone), names) == WithoutNames(Without(entries, b, gone), names)
  {
    MootMatterNot(entries, a, names, gone);
    MootMatterNot(entries, b, names, gone);
  }

  lemma WithoutUnfolds(e: Entry, rest: seq<Entry>, at: nat, gone: set<Removal>)
    ensures Without([e] + rest, at, gone) ==
      if e.name.Some? && Removal(at, e.name.value) in gone then Without(rest, at + e.span, gone)
      else [e] + Without(rest, at + e.span, gone)
  {
    assert ([e] + rest)[1..] == rest;
  }

  lemma TakeBehindThenFilter(
    e: Entry, rest: seq<Entry>, at: nat, names: set<string>, r: Removal, gone: set<Removal>)
    requires at < r.at
    requires WithoutNames(Without(TakeFrom(rest, at + e.span, ByAddress(r)), at + e.span, gone), names)
          == WithoutNames(Without(rest, at + e.span, gone + {r}), names)
    ensures WithoutNames(Without(TakeFrom([e] + rest, at, ByAddress(r)), at, gone), names)
         == WithoutNames(Without([e] + rest, at, gone + {r}), names)
  {
    var left := TakeFrom(rest, at + e.span, ByAddress(r));
    assert ([e] + rest)[1..] == rest && ([e] + left)[1..] == left;
    assert TakeFrom([e] + rest, at, ByAddress(r)) == [e] + left;
    SkipHead(e, Without(left, at + e.span, gone), Without(rest, at + e.span, gone + {r}), names);
  }

  lemma TailIsSteady(at: nat, names: set<string>, ts: seq<Take>)
    requires ts != [] && SteadyFor(at, names, ts)
    ensures SteadyFor(at, names, ts[1..])
    ensures forall t :: t in ts[1..] && Live(at, names, t) ==> LeavesBelow(at, ts[0], t)
  {
    forall t | t in ts[1..] && Live(at, names, t) ensures LeavesBelow(at, ts[0], t) {
      var k :| 0 <= k < |ts[1..]| && ts[1..][k] == t;
      assert ts[k + 1] == t;
    }
  }

  lemma AddressesUnfold(ts: seq<Take>)
    requires ts != []
    ensures Names(ts[1..]) <= Names(ts)
    ensures Addresses(ts) == Addresses(ts[1..]) + if ts[0].ByAddress? then {ts[0].removal} else {}
  {
    assert ts == [ts[0]] + ts[1..];
  }

  lemma {:induction false} SteadyTakesFilter(entries: seq<Entry>, at: nat, names: set<string>, ts: seq<Take>)
    requires SteadyFor(at, names, ts) && Names(ts) <= names
    ensures WithoutNames(TakeEach(entries, at, ts), names)
         == WithoutNames(Without(entries, at, Addresses(ts)), names)
    decreases |ts|
  {
    if ts == [] {
      assert Addresses(ts) == {};
      NothingGone(entries, at);
    } else {
      TailIsSteady(at, names, ts);
      AddressesUnfold(ts);
      SteadyTakesFilter(TakeFrom(entries, at, ts[0]), at, names, ts[1..]);
      RestIsBelowOrMoot(at, names, ts);
      match ts[0] {
        case ByAddress(r) => TakeThenFilter(entries, at, names, r, Addresses(ts[1..]));
        case ByName(name) =>
          assert name in Names(ts) && Addresses(ts) == Addresses(ts[1..]);
          NamesAbsorbName(entries, name, names);
          MootMatterNot(WithoutName(entries, name), at, names, Addresses(ts[1..]));
          MootMatterNot(entries, at, names, Addresses(ts[1..]));
      }
    }
  }

  lemma RestIsBelowOrMoot(at: nat, names: set<string>, ts: seq<Take>)
    requires ts != [] && forall t :: t in ts[1..] && Live(at, names, t) ==> LeavesBelow(at, ts[0], t)
    ensures ts[0].ByAddress? ==> BelowOrMoot(at, names, ts[0].removal, Addresses(ts[1..]))
    ensures ts[0].ByName? ==> Moot(at, names, Addresses(ts[1..]))
  {
    forall g | g in Addresses(ts[1..]) ensures ByAddress(g) in ts[1..] {
    }
  }

  lemma {:induction false} WithoutNameMembers(entries: seq<Entry>, name: string)
    ensures forall e :: e in WithoutName(entries, name) <==> e in entries && e.name != Some(name)
  {
    WithoutNameIsFilter(entries, name);
  }

  lemma TakeFromMembers(entries: seq<Entry>, at: nat, t: Take)
    ensures forall e :: e in TakeFrom(entries, at, t) ==> e in entries && (t.ByName? ==> e.name != Some(t.name))
    ensures |TakeFrom(entries, at, t)| <= |entries|
  {
    match t {
      case ByAddress(r) => RemoveAtMembers(entries, at, r);
      case ByName(name) =>
        WithoutNameMembers(entries, name);
        WithoutNameShrinks(entries, name);
    }
  }

  lemma {:induction false} WithoutNameShrinks(entries: seq<Entry>, name: string)
    ensures |WithoutName(entries, name)| <= |entries|
  {
    if entries != [] {
      WithoutNameShrinks(entries[1..], name);
    }
  }

  lemma {:induction false} RemoveAtMembers(entries: seq<Entry>, at: nat, r: Removal)
    ensures var left := RemoveAt(entries, at, r);
      left.Some? ==> |left.value| == |entries| - 1 && forall e :: e in left.value ==> e in entries
  {
    if entries != [] && r.at > at {
      RemoveAtMembers(entries[1..], at + entries[0].span, r);
    }
  }

  lemma {:induction false} TakeEachMembers(entries: seq<Entry>, at: nat, ts: seq<Take>)
    ensures forall e :: e in TakeEach(entries, at, ts) ==> e in entries && !NamedIn(e, Names(ts))
    decreases |ts|
  {
    if ts != [] {
      TakeFromMembers(entries, at, ts[0]);
      TakeEachMembers(TakeFrom(entries, at, ts[0]), at, ts[1..]);
      assert forall n :: n in Names(ts) ==> n in Names(ts[1..]) || ts[0] == ByName(n);
    }
  }

  lemma {:induction false} NoneNamed(entries: seq<Entry>, names: set<string>)
    requires forall e :: e in entries ==> !NamedIn(e, names)
    ensures WithoutNames(entries, names) == entries
  {
    if entries != [] {
      NoneNamed(entries[1..], names);
      assert entries == [entries[0]] + entries[1..];
    }
  }

  /** A steady run takes exactly what it stands for. */
  lemma SteadyTakesSpare(entries: seq<Entry>, at: nat, ts: seq<Take>)
    requires Steady(at, ts)
    ensures TakeEach(entries, at, ts) == Spared(entries, at, ts)
  {
    SteadyTakesFilter(entries, at, Names(ts), ts);
    TakeEachMembers(entries, at, ts);
    NoneNamed(TakeEach(entries, at, ts), Names(ts));
  }

  // ---------------------------------------------------- nothing goes by name

  function RemoveEach(entries: seq<Entry>, at: nat, rs: seq<Removal>): seq<Entry>
    decreases |rs|
  {
    if rs == [] then entries
    else
      var left := RemoveAt(entries, at, rs[0]);
      RemoveEach(if left.Some? then left.value else entries, at, rs[1..])
  }

  function AsSet(rs: seq<Removal>): set<Removal> {
    set r | r in rs
  }

  /** Within a list that starts at `at`, every removal is below all before it. */
  ghost predicate Falling(at: nat, rs: seq<Removal>) {
    forall i, j :: 0 <= i < j < |rs| && rs[i].at >= at && rs[j].at >= at ==> rs[i].at > rs[j].at
  }

  ghost predicate HighestFirst(rs: seq<Removal>) {
    forall i, j :: 0 <= i < j < |rs| ==> rs[i].at >= rs[j].at
  }

  /** No two removals share an address of a list that starts at `at`. */
  ghost predicate NoRepeat(at: nat, rs: seq<Removal>) {
    forall i, j :: 0 <= i < j < |rs| && rs[i].at >= at ==> rs[i].at != rs[j].at
  }

  lemma HighestFirstFalls(at: nat, rs: seq<Removal>)
    requires HighestFirst(rs)
    ensures Falling(at, rs) <==> NoRepeat(at, rs)
  {
  }

  function ByAddresses(rs: seq<Removal>): seq<Take> {
    seq(|rs|, i requires 0 <= i < |rs| => ByAddress(rs[i]))
  }

  lemma ByAddressesAre(rs: seq<Removal>)
    ensures Addresses(ByAddresses(rs)) == AsSet(rs) && Names(ByAddresses(rs)) == {}
  {
    var ts := ByAddresses(rs);
    assert forall r :: r in rs ==> ByAddress(r) in ts by {
      forall r | r in rs ensures ByAddress(r) in ts {
        var k :| 0 <= k < |rs| && rs[k] == r;
        assert ts[k] == ByAddress(r);
      }
    }
  }

  lemma {:induction false} ByAddressesRemoveEach(entries: seq<Entry>, at: nat, rs: seq<Removal>)
    ensures TakeEach(entries, at, ByAddresses(rs)) == RemoveEach(entries, at, rs)
    decreases |rs|
  {
    if rs != [] {
      assert ByAddresses(rs)[1..] == ByAddresses(rs[1..]);
      ByAddressesRemoveEach(TakeFrom(entries, at, ByAddress(rs[0])), at, rs[1..]);
    }
  }

  lemma SteadyIsFalling(at: nat, rs: seq<Removal>)
    ensures Steady(at, ByAddresses(rs)) <==> Falling(at, rs)
  {
    var ts := ByAddresses(rs);
    ByAddressesAre(rs);
    if Steady(at, ts) {
      forall i, j | 0 <= i < j < |rs| && rs[i].at >= at && rs[j].at >= at ensures rs[i].at > rs[j].at {
        assert Live(at, Names(ts), ts[j]) && LeavesBelow(at, ts[i], ts[j]);
      }
    }
  }

  lemma ByAddressesSpare(entries: seq<Entry>, at: nat, rs: seq<Removal>)
    ensures Spared(entries, at, ByAddresses(rs)) == Without(entries, at, AsSet(rs))
  {
    ByAddressesAre(rs);
    NoneNamed(Without(entries, at, AsSet(rs)), {});
  }

  lemma FallingFromTheStart(entries: seq<Entry>, at: nat, rs: seq<Removal>)
    requires Falling(at, rs)
    ensures RemoveEach(entries, at, rs) == Without(entries, at, AsSet(rs))
  {
    SteadyIsFalling(at, rs);
    SteadyTakesSpare(entries, at, ByAddresses(rs));
    ByAddressesSpare(entries, at, rs);
    ByAddressesRemoveEach(entries, at, rs);
  }
}

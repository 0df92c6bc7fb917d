/**
 Exactly which runs and plans drop what they name, and how the others go wrong.
 */
module FixExact {
  import opened Common
  import opened Text
  import opened FixPlan
  import opened FixOrder
  import opened Manifest
  import opened FixRuns
  import opened FixApply
  import opened Removals
  import opened Traps

  // ------------------------------------------------------- why the order matters

  /** Removing top-down instead, the second edit finds its target moved. */
  lemma TopDownMissesItsTarget(a: Entry, b: Entry)
    requires a.name == Some("a") && b.name == Some("b") && a.span == b.span == 1
    ensures RemoveAt([a, b], 0, Removal(0, "a")) == Some([b])
    ensures RemoveAt([b], 0, Removal(1, "b")) == None
    ensures Without([a, b], 0, {Removal(0, "a"), Removal(1, "b")}) == []
  {
    assert [a, b][1..] == [b] && [b][1..] == [];
    assert RemoveAt([b][1..], 1, Removal(1, "b")) == None;
    assert Without([b], 1, {Removal(0, "a"), Removal(1, "b")}) ==
      Without([b][1..], 2, {Removal(0, "a"), Removal(1, "b")});
  }

  /** Two removals of one position take a second declaration of the same name. */
  lemma SharedPositionTakesANeighbour(a: Entry, b: Entry)
    requires a.name == Some("a") && b.name == Some("a") && a.span == b.span == 1
    ensures RemoveAt([a, b], 0, Removal(0, "a")) == Some([b])
    ensures RemoveAt([b], 0, Removal(0, "a")) == Some([])
    ensures Without([a, b], 0, {Removal(0, "a")}) == [b]
  {
    assert [a, b][1..] == [b] && [b][1..] == [];
    assert Without([b][1..], 2, {Removal(0, "a")}) == [];
  }

  // ------------------------------------------------------- of runs on one list

  ghost predicate AlwaysSpares(at: nat, ts: seq<Take>) {
    forall entries :: TakeEach(entries, at, ts) == Spared(entries, at, ts)
  }

  /** Removals by address and by name, run one after the other, take exactly what
      they stand for from every list if and only if the run is steady. */
  lemma TakesSpareExactlyWhen(at: nat, ts: seq<Take>)
    ensures AlwaysSpares(at, ts) <==> Steady(at, ts)
  {
    if Steady(at, ts) {
      forall entries ensures TakeEach(entries, at, ts) == Spared(entries, at, ts) {
        SteadyTakesSpare(entries, at, ts);
      }
    } else {
      var trap := UnsteadyTakesTooMuch(at, ts, "");
      assert TakeEach(trap, at, ts) != Spared(trap, at, ts);
    }
  }

  ghost predicate AlwaysFilters(at: nat, rs: seq<Removal>) {
    forall entries :: RemoveEach(entries, at, rs) == Without(entries, at, AsSet(rs))
  }

  /** Where nothing goes by name, exactly when they fall. */
  lemma RemovalsFilterExactlyWhen(at: nat, rs: seq<Removal>)
    ensures AlwaysFilters(at, rs) <==> Falling(at, rs)
  {
    TakesSpareExactlyWhen(at, ByAddresses(rs));
    SteadyIsFalling(at, rs);
    forall entries
      ensures TakeEach(entries, at, ByAddresses(rs)) == RemoveEach(entries, at, rs)
      ensures Spared(entries, at, ByAddresses(rs)) == Without(entries, at, AsSet(rs))
    {
      ByAddressesRemoveEach(entries, at, rs);
      ByAddressesSpare(entries, at, rs);
    }
    if AlwaysFilters(at, rs) {
      forall entries ensures TakeEach(entries, at, ByAddresses(rs)) == Spared(entries, at, ByAddresses(rs)) {
        assert RemoveEach(entries, at, rs) == Without(entries, at, AsSet(rs));
      }
    }
  }

  /** Run highest first, they do exactly when no two share an address of the list. */
  lemma HighestFirstFiltersExactlyWhen(at: nat, rs: seq<Removal>)
    requires HighestFirst(rs)
    ensures AlwaysFilters(at, rs) <==> NoRepeat(at, rs)
  {
    RemovalsFilterExactlyWhen(at, rs);
    HighestFirstFalls(at, rs);
  }

  // ------------------------------------------------------------ of whole plans

  /** The bottom-up run stands for what the plan stands for. */
  lemma BottomUpSparesTheSame(env: Env, doc: Doc, actions: seq<Action>, file: string, list: string, was: seq<Entry>)
    ensures Spared(was, FirstAddress(doc), TakeSeq(env, doc, InBottomUpOrder(actions), file, list))
         == Spared(was, FirstAddress(doc), TakeSeq(env, doc, actions, file, list))
  {
    var order, run := BottomUp(actions, |actions|), InBottomUpOrder(actions);
    var ts, us := TakeSeq(env, doc, run, file, list), TakeSeq(env, doc, actions, file, list);
    forall t ensures t in ts <==> t in us {
      TakeSeqMembers(env, doc, run, file, list, t);
      TakeSeqMembers(env, doc, actions, file, list, t);
      if k :| 0 <= k < |run| && TakeBy(env, doc, run[k], file, list) == Some(t) {
        assert run[k] == actions[order[k]];
      }
      if i :| 0 <= i < |actions| && TakeBy(env, doc, actions[i], file, list) == Some(t) {
        assert i in order;
        var k :| 0 <= k < |order| && order[k] == i;
        assert run[k] == actions[i];
      }
    }
    assert Addresses(ts) == Addresses(us) && Names(ts) == Names(us);
  }

  /** The plan's removals of one list, by plan index. */
  ghost predicate SharedAddress(env: Env, doc: Doc, actions: seq<Action>, file: string, list: string, i: nat, j: nat) {
    && i < |actions| && j < |actions| && i != j
    && var a, b := Aim(env, doc, actions[i], file, list), Aim(env, doc, actions[j], file, list);
       a.Some? && b.Some? && a.value.at == b.value.at >= FirstAddress(doc)
  }

  ghost predicate NoSharedAddress(env: Env, doc: Doc, actions: seq<Action>, file: string, list: string) {
    forall i: nat, j: nat :: !SharedAddress(env, doc, actions, file, list, i, j)
  }

  /** The run leaves the list as it was less exactly what the plan removes, by
      address and by name; only the runtime list may have grown. */
  ghost predicate RunFilters(env: Env, disk: Disk, actions: seq<Action>, file: string, list: string)
    requires file in disk
  {
    var run := Run(env, false, disk, InBottomUpOrder(actions));
    var was, at := EntriesOf(disk[file], list), FirstAddress(disk[file]);
    && file in run.disk
    && exists added ::
         && (!Grows(disk[file], list) ==> added == [])
         && EntriesOf(run.disk[file], list) == Spared(was, at, TakeSeq(env, disk[file], actions, file, list)) + added
  }

  /** Array entries have one address each; a requirement may take several lines. */
  ghost predicate IsWritable(doc: Doc) {
    !doc.Lines? ==> forall list, e :: e in EntriesOf(doc, list) ==> e.span == 1
  }

  /** Whatever the file's lists hold, the run drops exactly the planned entries. */
  ghost predicate PlanAlwaysFilters(env: Env, doc: Doc, actions: seq<Action>, file: string, list: string) {
    forall disk: Disk :: file in disk && SameShape(doc, disk[file]) && IsWritable(disk[file]) ==>
      RunFilters(env, disk, actions, file, list)
  }

  /** Labels that say nothing but the file do not order its removals. */
  predicate OrderedByAddress(doc: Doc, file: string) {
    !(doc.Lines? && IndexedTag(file).Some?)
  }

  lemma BottomUpIsHighestFirst(env: Env, doc: Doc, actions: seq<Action>, file: string, list: string)
    requires GoByAddress(doc, actions, file) && OrderedByAddress(doc, file)
    ensures HighestFirst(AimSeq(env, doc, InBottomUpOrder(actions), file, list))
  {
    var order := BottomUp(actions, |actions|);
    var run := InBottomUpOrder(actions);
    var aims := AimSeq(env, doc, run, file, list);
    BottomUpIsInOrder(actions, |actions|);
    forall i, j | 0 <= i < j < |aims| ensures aims[i].at >= aims[j].at {
      var k, l := SomesPair(AimOptions(env, doc, run, file, list), i, j);
      assert Precedes(actions, order[k], order[l]);
      AimHasPosition(env, doc, run[k], file, list);
      AimHasPosition(env, doc, run[l], file, list);
    }
  }

  lemma RepeatMeansSharing(env: Env, doc: Doc, actions: seq<Action>, file: string, list: string)
    requires NoSharedAddress(env, doc, actions, file, list)
    ensures NoRepeat(FirstAddress(doc), AimSeq(env, doc, InBottomUpOrder(actions), file, list))
  {
    var order := BottomUp(actions, |actions|);
    var run := InBottomUpOrder(actions);
    var aims := AimSeq(env, doc, run, file, list);
    BottomUpIsInOrder(actions, |actions|);
    forall i, j | 0 <= i < j < |aims| && aims[i].at >= FirstAddress(doc) ensures aims[i].at != aims[j].at {
      var k, l := SomesPair(AimOptions(env, doc, run, file, list), i, j);
      assert run[k] == actions[order[k]] && run[l] == actions[order[l]];
      assert !SharedAddress(env, doc, actions, file, list, order[k], order[l]);
    }
  }

  /** Where two plan indices stand in the run. */
  lemma PlacesOf(actions: seq<Action>, i: nat, j: nat) returns (k: nat, l: nat)
    requires i < |actions| && j < |actions| && i != j
    ensures var run := InBottomUpOrder(actions);
      k < l < |run| && (run[k], run[l]) in {(actions[i], actions[j]), (actions[j], actions[i])}
  {
    var order := BottomUp(actions, |actions|);
    assert i in order && j in order;
    k :| 0 <= k < |order| && order[k] == i;
    l :| 0 <= l < |order| && order[l] == j;
    k, l := if k < l then k else l, if k < l then l else k;
  }

  lemma SharingMeansRepeat(env: Env, doc: Doc, actions: seq<Action>, file: string, list: string, i: nat, j: nat)
    requires SharedAddress(env, doc, actions, file, list, i, j)
    ensures !NoRepeat(FirstAddress(doc), AimSeq(env, doc, InBottomUpOrder(actions), file, list))
  {
    var run := InBottomUpOrder(actions);
    var k, l := PlacesOf(actions, i, j);
    var p, q := SomesOfPair(AimOptions(env, doc, run, file, list), k, l);
  }

  function Longest(actions: seq<Action>): nat {
    if actions == [] then 0
    else
      var here := if Wanted(actions[0]).Some? then |Wanted(actions[0]).value| else 0;
      var rest := Longest(actions[1..]);
      if here < rest then rest else here
  }

  lemma {:induction false} LongestBounds(actions: seq<Action>, k: nat)
    requires k < |actions| && Wanted(actions[k]).Some?
    ensures |Wanted(actions[k]).value| <= Longest(actions)
  {
    if k > 0 {
      LongestBounds(actions[1..], k - 1);
    }
  }

  /** A requirement nobody asks for. */
  lemma UnaskedText(actions: seq<Action>) returns (text: string)
    ensures forall k :: 0 <= k < |actions| ==> Wanted(actions[k]) != Some(text)
  {
    text := seq(Longest(actions) + 1, i => 'x');
    forall k | 0 <= k < |actions| && Wanted(actions[k]).Some? ensures Wanted(actions[k]).value != text {
      LongestBounds(actions, k);
    }
  }

  function Emptied(lists: map<string, Listing>): map<string, Listing> {
    map l | l in lists :: Listing([], lists[l].frozen)
  }

  /** A document of the same shape that holds `entries` in one list only. */
  function WithEntries(doc: Doc, list: string, entries: seq<Entry>): Doc {
    match doc
    case Toml(lists, _, _) => doc.(lists := Emptied(lists)[list := Listing(entries, false)])
    case Cfg(lists) => Cfg(Emptied(lists)[list := Listing(entries, false)])
    case Lines(_) => Lines(Listing(entries, false))
    case Other => Other
  }

  lemma WithEntriesHasShape(env: Env, doc: Doc, action: Action, list: string, entries: seq<Entry>)
    requires TakeOn(env, doc, action, list).Some?
    requires !doc.Lines? ==> forall e :: e in entries ==> e.span == 1
    ensures var with := WithEntries(doc, list, entries);
      SameShape(doc, with) && IsWritable(with) && EntriesOf(with, list) == entries
  {
  }

  lemma {:induction false} WithoutMembers(entries: seq<Entry>, at: nat, gone: set<Removal>)
    ensures forall e :: e in Without(entries, at, gone) ==> e in entries
  {
    if entries != [] {
      WithoutMembers(entries[1..], at + entries[0].span, gone);
    }
  }

  lemma {:induction false} WithoutNamesMembers(entries: seq<Entry>, names: set<string>)
    ensures forall e :: e in WithoutNames(entries, names) <==> e in entries && !NamedIn(e, names)
  {
    if entries != [] {
      WithoutNamesMembers(entries[1..], names);
      assert entries == [entries[0]] + entries[1..];
    }
  }

  lemma SparedMembers(entries: seq<Entry>, at: nat, ts: seq<Take>)
    ensures forall e :: e in Spared(entries, at, ts) ==> e in entries
  {
    WithoutMembers(entries, at, Addresses(ts));
    WithoutNamesMembers(Without(entries, at, Addresses(ts)), Names(ts));
  }

  /** A shorter list cannot be made up for by entries that read otherwise. */
  lemma NoMakingUp(short: seq<Entry>, rest: seq<Entry>, filtered: seq<Entry>, added: seq<Entry>, text: string)
    requires |short| < |filtered| && NoneReads(rest, text) && forall e :: e in filtered ==> e.text == text
    ensures short + rest != filtered + added
  {
    assert (filtered + added)[|short|] == filtered[|short|] && filtered[|short|] in filtered;
    if rest == [] {
      assert |short + rest| < |filtered + added|;
    } else {
      assert (short + rest)[|short|] == rest[0] && rest[0] in rest;
    }
  }

  /** A plan whose run is steady filters on every disk, however entries are spread. */
  lemma SteadyPlanFilters(env: Env, disk: Disk, actions: seq<Action>, file: string, list: string)
    requires env.contained(file) && EditsOnly(actions, file) && file in disk
    requires Steady(FirstAddress(disk[file]), TakeSeq(env, disk[file], InBottomUpOrder(actions), file, list))
    ensures RunFilters(env, disk, actions, file, list)
  {
    var doc, run := disk[file], InBottomUpOrder(actions);
    var was, at := EntriesOf(doc, list), FirstAddress(doc);
    BottomUpKeepsLimits(env, doc, actions, file, list, 0);
    var text := UnaskedText(run);
    assert was + [] == was;
    var added := RunOnParts(env, disk, run, file, list, was, [], text);
    SteadyTakesSpare(was, at, TakeSeq(env, doc, run, file, list));
    BottomUpSparesTheSame(env, doc, actions, file, list, was);
  }

  /** Entries of which a run that is not steady takes too much: one address each
      in an array, as wide as it takes in a requirements file. */
  lemma TrapFor(env: Env, doc: Doc, actions: seq<Action>, file: string, list: string, text: string)
    returns (trap: seq<Entry>)
    requires !Steady(FirstAddress(doc), TakeSeq(env, doc, InBottomUpOrder(actions), file, list))
    ensures var ts, at := TakeSeq(env, doc, InBottomUpOrder(actions), file, list), FirstAddress(doc);
      |TakeEach(trap, at, ts)| < |Spared(trap, at, ts)|
    ensures forall e :: e in trap ==> e.text == text && (!doc.Lines? ==> e.span == 1)
  {
    var at, run := FirstAddress(doc), InBottomUpOrder(actions);
    if doc.Lines? {
      trap := UnsteadyTakesTooMuch(at, TakeSeq(env, doc, run, file, list), text);
    } else {
      var rs := AimSeq(env, doc, run, file, list);
      AddressesAreAims(env, doc, run, file, list);
      BottomUpIsHighestFirst(env, doc, actions, file, list);
      SteadyIsFalling(at, rs);
      HighestFirstFalls(at, rs);
      var k := FirstRepeat(at, rs);
      trap := RepeatTakesTooMuch(at, rs, k, text);
      ByAddressesRemoveEach(trap, at, rs);
      ByAddressesSpare(trap, at, rs);
    }
  }

  lemma SomethingTaken(env: Env, doc: Doc, actions: seq<Action>, file: string, list: string) returns (k: nat)
    requires TakeSeq(env, doc, actions, file, list) != []
    ensures k < |actions| && TakeBy(env, doc, actions[k], file, list).Some?
  {
    var t := TakeSeq(env, doc, actions, file, list)[0];
    TakeSeqMembers(env, doc, actions, file, list, t);
    k :| 0 <= k < |actions| && TakeBy(env, doc, actions[k], file, list) == Some(t);
  }

  lemma UnsteadyPlanFailsSomewhere(env: Env, doc: Doc, actions: seq<Action>, file: string, list: string)
    returns (disk: Disk)
    requires env.contained(file) && EditsOnly(actions, file)
    requires !Steady(FirstAddress(doc), TakeSeq(env, doc, InBottomUpOrder(actions), file, list))
    ensures file in disk && SameShape(doc, disk[file]) && IsWritable(disk[file])
    ensures !RunFilters(env, disk, actions, file, list)
  {
    var run := InBottomUpOrder(actions);
    BottomUpKeepsLimits(env, doc, actions, file, list, 0);
    var text := UnaskedText(run);
    var trap := TrapFor(env, doc, actions, file, list, text);
    var k := SomethingTaken(env, doc, run, file, list);
    WithEntriesHasShape(env, doc, run[k], list, trap);
    disk := map[file := WithEntries(doc, list, trap)];
    SameShapeSameTakes(env, doc, disk[file], run, file, list);
    TrapIsSprung(env, disk, actions, file, list, trap, text);
  }

  lemma TrapIsSprung(
    env: Env, disk: Disk, actions: seq<Action>, file: string, list: string, trap: seq<Entry>, text: string)
    requires env.contained(file) && EditsOnly(InBottomUpOrder(actions), file) && file in disk
    requires EntriesOf(disk[file], list) == trap
    requires forall k :: 0 <= k < |InBottomUpOrder(actions)| ==> Wanted(InBottomUpOrder(actions)[k]) != Some(text)
    requires forall e :: e in trap ==> e.text == text
    requires var ts, at := TakeSeq(env, disk[file], InBottomUpOrder(actions), file, list), FirstAddress(disk[file]);
      |TakeEach(trap, at, ts)| < |Spared(trap, at, ts)|
    ensures !RunFilters(env, disk, actions, file, list)
  {
    var doc, run := disk[file], InBottomUpOrder(actions);
    var at, ts := FirstAddress(doc), TakeSeq(env, doc, run, file, list);
    assert trap + [] == trap;
    var rest := RunOnParts(env, disk, run, file, list, trap, [], text);
    BottomUpSparesTheSame(env, doc, actions, file, list, trap);
    SparedMembers(trap, at, ts);
    forall added ensures TakeEach(trap, at, ts) + rest != Spared(trap, at, ts) + added {
      NoMakingUp(TakeEach(trap, at, ts), rest, Spared(trap, at, ts), added, text);
    }
  }

  /** A plan takes from a list exactly what its removals stand for, whatever the
      list holds, if and only if its run is steady: when a removal by address runs,
      nothing it is aimed at has been moved. */
  lemma PlanFiltersExactlyWhen(env: Env, doc: Doc, actions: seq<Action>, file: string, list: string)
    requires env.contained(file) && EditsOnly(actions, file)
    ensures PlanAlwaysFilters(env, doc, actions, file, list) <==>
      Steady(FirstAddress(doc), TakeSeq(env, doc, InBottomUpOrder(actions), file, list))
  {
    var run := InBottomUpOrder(actions);
    if Steady(FirstAddress(doc), TakeSeq(env, doc, run, file, list)) {
      forall disk: Disk | file in disk && SameShape(doc, disk[file])
        ensures RunFilters(env, disk, actions, file, list)
      {
        SameShapeSameTakes(env, doc, disk[file], run, file, list);
        SteadyPlanFilters(env, disk, actions, file, list);
      }
    } else {
      var disk := UnsteadyPlanFailsSomewhere(env, doc, actions, file, list);
    }
  }

  /** Where nothing goes by name, exactly when the addresses of the run fall. */
  lemma AddressesFilterExactlyWhen(env: Env, doc: Doc, actions: seq<Action>, file: string, list: string)
    requires env.contained(file) && EditsOnly(actions, file) && GoByAddress(doc, actions, file)
    ensures PlanAlwaysFilters(env, doc, actions, file, list) <==>
      Falling(FirstAddress(doc), AimSeq(env, doc, InBottomUpOrder(actions), file, list))
  {
    PlanFiltersExactlyWhen(env, doc, actions, file, list);
    BottomUpKeepsLimits(env, doc, actions, file, list, 0);
    AddressesAreAims(env, doc, InBottomUpOrder(actions), file, list);
    SteadyIsFalling(FirstAddress(doc), AimSeq(env, doc, InBottomUpOrder(actions), file, list));
  }

  /** Where labels carry the address that is so exactly when no two removals of the
      plan share an address of the list. */
  lemma AddressedPlanFiltersExactlyWhen(env: Env, doc: Doc, actions: seq<Action>, file: string, list: string)
    requires env.contained(file) && EditsOnly(actions, file)
    requires GoByAddress(doc, actions, file) && OrderedByAddress(doc, file)
    ensures PlanAlwaysFilters(env, doc, actions, file, list) <==> NoSharedAddress(env, doc, actions, file, list)
  {
    var at, rs := FirstAddress(doc), AimSeq(env, doc, InBottomUpOrder(actions), file, list);
    AddressesFilterExactlyWhen(env, doc, actions, file, list);
    BottomUpIsHighestFirst(env, doc, actions, file, list);
    HighestFirstFalls(at, rs);
    if NoSharedAddress(env, doc, actions, file, list) {
      RepeatMeansSharing(env, doc, actions, file, list);
    } else {
      var i: nat, j: nat :| SharedAddress(env, doc, actions, file, list, i, j);
      SharingMeansRepeat(env, doc, actions, file, list, i, j);
    }
  }

  // In a requirements file named like `x[1]` every label reads as an index, the
  // same for all its entries, so its removals tie and run in plan order.

  /** The plan lists its removals of the file from the bottom up. */
  ghost predicate ListedBottomUp(env: Env, doc: Doc, actions: seq<Action>, file: string, list: string) {
    forall i, j :: 0 <= i < j < |actions| ==> Descend(env, doc, actions, file, list, i, j)
  }

  /** Removed in plan order, the later of two edits is below the earlier. */
  predicate Descend(env: Env, doc: Doc, actions: seq<Action>, file: string, list: string, i: nat, j: nat)
    requires i < |actions| && j < |actions|
  {
    var a, b := Aim(env, doc, actions[i], file, list), Aim(env, doc, actions[j], file, list);
    a.Some? && b.Some? && a.value.at >= FirstAddress(doc) && b.value.at >= FirstAddress(doc) ==> a.value.at > b.value.at
  }

  lemma TiedIsNotBelow(actions: seq<Action>, i: nat, j: nat)
    requires i < |actions| && j < |actions| && RemovalPosition(actions[i]) == RemovalPosition(actions[j])
    ensures !Below(actions, i, j)
  {
    var p := RemovalPosition(actions[i]);
    if p.Some? {
      LessIsIrreflexive(p.value.file);
      LessIsIrreflexive(p.value.list);
    }
  }

  lemma TiesKeepPlanOrder(actions: seq<Action>, order: seq<nat>, k: nat, l: nat)
    requires InOrder(actions, order) && k < l < |order| && order[k] < |actions| && order[l] < |actions|
    requires RemovalPosition(actions[order[k]]) == RemovalPosition(actions[order[l]])
    ensures order[k] < order[l]
  {
    assert Precedes(actions, order[k], order[l]);
    TiedIsNotBelow(actions, order[k], order[l]);
  }

  /** Removals of a bracketed file tie. */
  lemma BracketedAimsTie(env: Env, doc: Doc, a: Action, b: Action, file: string, list: string)
    requires LineAddressed(a) && LineAddressed(b) && !OrderedByAddress(doc, file)
    requires Aim(env, doc, a, file, list).Some? && Aim(env, doc, b, file, list).Some?
    ensures RemovalPosition(a) == RemovalPosition(b)
  {
    AimHasPosition(env, doc, a, file, list);
    AimHasPosition(env, doc, b, file, list);
  }

  lemma BracketedRunFalls(env: Env, doc: Doc, actions: seq<Action>, file: string, list: string)
    requires EditsOnly(actions, file) && GoByAddress(doc, actions, file) && !OrderedByAddress(doc, file)
    requires ListedBottomUp(env, doc, actions, file, list)
    ensures Falling(FirstAddress(doc), AimSeq(env, doc, InBottomUpOrder(actions), file, list))
  {
    var order := BottomUp(actions, |actions|);
    var run := InBottomUpOrder(actions);
    var aims := AimSeq(env, doc, run, file, list);
    BottomUpIsInOrder(actions, |actions|);
    var at := FirstAddress(doc);
    forall i, j | 0 <= i < j < |aims| && aims[i].at >= at && aims[j].at >= at ensures aims[i].at > aims[j].at {
      var k, l := SomesPair(AimOptions(env, doc, run, file, list), i, j);
      BracketedAimsTie(env, doc, run[k], run[l], file, list);
      TiesKeepPlanOrder(actions, order, k, l);
      assert Descend(env, doc, actions, file, list, order[k], order[l]);
    }
  }

  /** Where two plan indices of tied removals stand in the run. */
  lemma PlacesOfTied(actions: seq<Action>, i: nat, j: nat) returns (k: nat, l: nat)
    requires i < j < |actions| && RemovalPosition(actions[i]) == RemovalPosition(actions[j])
    ensures var run := InBottomUpOrder(actions); k < l < |run| && run[k] == actions[i] && run[l] == actions[j]
  {
    var order := BottomUp(actions, |actions|);
    BottomUpIsInOrder(actions, |actions|);
    assert i in order && j in order;
    k :| 0 <= k < |order| && order[k] == i;
    l :| 0 <= l < |order| && order[l] == j;
    if l < k {
      TiesKeepPlanOrder(actions, order, l, k);
    }
  }

  lemma FallingRunIsListedBottomUp(env: Env, doc: Doc, actions: seq<Action>, file: string, list: string, i: nat, j: nat)
    requires EditsOnly(actions, file) && GoByAddress(doc, actions, file) && !OrderedByAddress(doc, file)
    requires i < j < |actions|
    requires Falling(FirstAddress(doc), AimSeq(env, doc, InBottomUpOrder(actions), file, list))
    ensures Descend(env, doc, actions, file, list, i, j)
  {
    var run := InBottomUpOrder(actions);
    if Aim(env, doc, actions[i], file, list).Some? && Aim(env, doc, actions[j], file, list).Some? {
      BracketedAimsTie(env, doc, actions[i], actions[j], file, list);
      var k, l := PlacesOfTied(actions, i, j);
        var p, q := SomesOfPair(AimOptions(env, doc, run, file, list), k, l);
    }
  }

  /** There the plan filters exactly when it already lists its removals bottom-up. */
  lemma BracketedPlanFiltersExactlyWhen(env: Env, doc: Doc, actions: seq<Action>, file: string, list: string)
    requires env.contained(file) && EditsOnly(actions, file)
    requires GoByAddress(doc, actions, file) && !OrderedByAddress(doc, file)
    ensures PlanAlwaysFilters(env, doc, actions, file, list) <==> ListedBottomUp(env, doc, actions, file, list)
  {
    AddressesFilterExactlyWhen(env, doc, actions, file, list);
    if ListedBottomUp(env, doc, actions, file, list) {
      BracketedRunFalls(env, doc, actions, file, list);
    } else {
      var i, j :| 0 <= i < j < |actions| && !Descend(env, doc, actions, file, list, i, j);
      if Falling(FirstAddress(doc), AimSeq(env, doc, InBottomUpOrder(actions), file, list)) {
        FallingRunIsListedBottomUp(env, doc, actions, file, list, i, j);
      }
    }
  }

  /** Two removals of one such file, the upper line planned first. */
  function TwoLines(file: string, a: string, b: string, upper: nat, lower: nat): seq<Action> {
    [RemoveDependency(Chk002, a, file, file, Some(upper)), RemoveDependency(Chk002, b, file, file, Some(lower))]
  }

  /** So the order promised does not hold there: removals that share no address may
      see shifted lines. */
  lemma BracketedFileShiftsLines(env: Env, file: string, a: string, b: string, upper: nat, lower: nat)
    requires env.contained(file) && KindOf(file).LinesFile? && IndexedTag(file).Some? && 1 <= upper < lower
    ensures var doc, actions := Lines(Listing([], false)), TwoLines(file, a, b, upper, lower);
      NoSharedAddress(env, doc, actions, file, "") && !PlanAlwaysFilters(env, doc, actions, file, "")
  {
    var doc, actions := Lines(Listing([], false)), TwoLines(file, a, b, upper, lower);
    TwoLinesAim(env, file, a, b, upper, lower);
    assert !Descend(env, doc, actions, file, "", 0, 1);
    forall i: nat, j: nat ensures !SharedAddress(env, doc, actions, file, "", i, j) {
      assert i < 2 && j < 2 && i != j ==> (i == 0 && j == 1) || (i == 1 && j == 0);
    }
    BracketedPlanFiltersExactlyWhen(env, doc, actions, file, "");
  }

  lemma TwoLinesAim(env: Env, file: string, a: string, b: string, upper: nat, lower: nat)
    requires KindOf(file).LinesFile?
    ensures var doc, actions := Lines(Listing([], false)), TwoLines(file, a, b, upper, lower);
      && Aim(env, doc, actions[0], file, "") == Some(Removal(upper, env.normalize(a)))
      && Aim(env, doc, actions[1], file, "") == Some(Removal(lower, env.normalize(b)))
      && EditsOnly(actions, file) && GoByAddress(doc, actions, file)
  {
  }

  lemma BaseOneIsBracketed()
    ensures KindOf("base[1]").LinesFile? && IndexedTag("base[1]") == Some(Indexed("base", 1))
  {
    var file := "base[1]";
    assert Lower(file[2..])[0] == 's' && Lower(file[3..])[0] == 'e';
    PrintedLabelReadsBack("base", 1);
    assert file == "base" + "[" + Print(1) + "]";
  }

  /** A plan that deletes the file leaves no list of it to speak of. */
  lemma {:induction false} DeletedFileIsGone(env: Env, disk: Disk, actions: seq<Action>, file: string)
    requires env.contained(file) && (RemoveFile(file) in actions || file !in disk)
    ensures file !in Run(env, false, disk, actions).disk
    decreases |actions|
  {
    if actions != [] {
      DeletedFileIsGone(env, After(env, disk, actions[0]), actions[1..], file);
      RunSteps(env, disk, actions);
    }
  }

  // Entries that are table keys have no index; they go by key.

  /** The key of a table entry the action removes. */
  function KeyTaken(doc: Doc, action: Action, file: string): Option<string> {
    if FileOf(action) != file || !doc.Toml? || action.AddMissingDependency? || action.RemoveFile? then None
    else if IndexedTag(action.tag).Some? then None
    else if action.RemoveDependency? && !KindOf(file).TomlFile? then None
    else if action.MoveToRuntime? && !doc.isOpen then None
    else Some(action.tag)
  }

  lemma AttemptOnKeys(env: Env, disk: Disk, action: Action, file: string)
    requires env.contained(file) && action != RemoveFile(file) && file in disk && disk[file].Toml?
    ensures var after, key := After(env, disk, action), KeyTaken(disk[file], action, file);
      && file in after && after[file].Toml? && after[file].isOpen == disk[file].isOpen
      && after[file].keys == disk[file].keys - if key.Some? then {key.value} else {}
  {
  }

  /** The keys of table entries left are those no planned removal names, in any order. */
  lemma {:induction false} KeysDropExactlyThePlanned(env: Env, disk: Disk, actions: seq<Action>, file: string)
    requires env.contained(file) && EditsOnly(actions, file) && file in disk && disk[file].Toml?
    ensures var last := Run(env, false, disk, actions).disk;
      && file in last && last[file].Toml?
      && forall key :: key in last[file].keys <==>
           && key in disk[file].keys
           && forall k :: 0 <= k < |actions| ==> KeyTaken(disk[file], actions[k], file) != Some(key)
    decreases |actions|
  {
    if actions != [] {
      var after := After(env, disk, actions[0]);
      AttemptOnKeys(env, disk, actions[0], file);
      KeysDropExactlyThePlanned(env, after, actions[1..], file);
      RunSteps(env, disk, actions);
      forall k | 0 < k < |actions|
        ensures KeyTaken(after[file], actions[1..][k - 1], file) == KeyTaken(disk[file], actions[k], file)
      {
      }
      forall key ensures
        (forall k :: 0 <= k < |actions| ==> KeyTaken(disk[file], actions[k], file) != Some(key)) <==>
        && KeyTaken(disk[file], actions[0], file) != Some(key)
        && forall k :: 0 <= k < |actions[1..]| ==> KeyTaken(after[file], actions[1..][k], file) != Some(key)
      {
        if forall k :: 0 <= k < |actions[1..]| ==> KeyTaken(after[file], actions[1..][k], file) != Some(key) {
          forall k | 0 < k < |actions| ensures KeyTaken(disk[file], actions[k], file) != Some(key) {
            assert KeyTaken(after[file], actions[1..][k - 1], file) != Some(key);
          }
        }
      }
    }
  }
}

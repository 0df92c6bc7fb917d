/**
 Removals from a `setup.py`. Its entries carry no line, so removals go by name, each
 taking every entry of that name.
 */
module FixByName {
  import opened Common
  import opened FixPlan
  import opened FixOrder
  import opened Manifest
  import opened FixRuns
  import opened FixApply
  import opened Removals
  import opened FixExact

  ghost predicate GoByName(actions: seq<Action>, file: string) {
    forall k :: 0 <= k < |actions| && actions[k].RemoveDependency? && actions[k].file == file ==>
      actions[k].line.None?
  }

  /** The names that go; none where the file refuses removals. */
  function NamedBy(env: Env, doc: Doc, actions: seq<Action>, file: string): set<string> {
    if !KindOf(file).LinesFile? || !doc.Lines? || doc.listing.frozen then {}
    else
      set k | 0 <= k < |actions| && actions[k].RemoveDependency? && actions[k].file == file ::
        env.normalize(actions[k].name)
  }

  lemma NamesTaken(env: Env, doc: Doc, actions: seq<Action>, file: string)
    requires GoByName(actions, file) && doc.Lines?
    ensures var ts := TakeSeq(env, doc, actions, file, "");
      && Names(ts) == NamedBy(env, doc, actions, file) && Addresses(ts) == {}
      && forall t :: t in ts ==> t.ByName?
  {
    var ts := TakeSeq(env, doc, actions, file, "");
    forall t ensures t in ts <==> t.ByName? && t.name in NamedBy(env, doc, actions, file) {
      NameTaken(env, doc, actions, file, t);
    }
    forall n ensures n in Names(ts) <==> n in NamedBy(env, doc, actions, file) {
      assert ByName(n) in ts <==> n in NamedBy(env, doc, actions, file);
    }
  }

  lemma NameTaken(env: Env, doc: Doc, actions: seq<Action>, file: string, t: Take)
    requires GoByName(actions, file) && doc.Lines?
    ensures t in TakeSeq(env, doc, actions, file, "") <==> t.ByName? && t.name in NamedBy(env, doc, actions, file)
  {
    TakeSeqMembers(env, doc, actions, file, "", t);
    forall k | 0 <= k < |actions| && TakeBy(env, doc, actions[k], file, "") == Some(t)
      ensures t == ByName(env.normalize(actions[k].name)) && t.name in NamedBy(env, doc, actions, file)
    {
      NamedTake(env, doc, actions[k], file);
    }
    if t.ByName? && t.name in NamedBy(env, doc, actions, file) {
      var k :| 0 <= k < |actions| && actions[k].RemoveDependency? && actions[k].file == file
        && env.normalize(actions[k].name) == t.name;
      NamedTake(env, doc, actions[k], file);
    }
  }

  lemma NamedTake(env: Env, doc: Doc, action: Action, file: string)
    requires doc.Lines? && (action.RemoveDependency? && action.file == file ==> action.line.None?)
    ensures TakeBy(env, doc, action, file, "") ==
      if action.RemoveDependency? && action.file == file && KindOf(file).LinesFile? && !doc.listing.frozen
      then Some(ByName(env.normalize(action.name)))
      else None
  {
  }

  /** In any order, removals by name leave exactly the entries of other names. */
  lemma NamedRemovalsSpare(env: Env, disk: Disk, actions: seq<Action>, file: string)
    requires env.contained(file) && EditsOnly(actions, file) && file in disk
    requires disk[file].Lines? && GoByName(actions, file)
    ensures var run := Run(env, false, disk, actions);
      && file in run.disk
      && EntriesOf(run.disk[file], "") ==
         WithoutNames(EntriesOf(disk[file], ""), NamedBy(env, disk[file], actions, file))
  {
    var doc := disk[file];
    var was, ts := EntriesOf(doc, ""), TakeSeq(env, doc, actions, file, "");
    var text := UnaskedText(actions);
    assert was + [] == was;
    var rest := RunOnParts(env, disk, actions, file, "", was, [], text);
    NamesTaken(env, doc, actions, file);
    assert forall j :: 0 <= j < |ts| ==> ts[j] in ts;
    SteadyTakesSpare(was, FirstAddress(doc), ts);
    NothingGone(was, FirstAddress(doc));
    assert EntriesOf(Run(env, false, disk, actions).disk[file], "") == Spared(was, FirstAddress(doc), ts) + [];
  }

  ghost predicate HasName(entries: seq<Entry>, name: string) {
    exists e :: e in entries && e.name == Some(name)
  }

  /** An action that removes `name` from the file. */
  predicate RemovesName(env: Env, action: Action, file: string, name: string) {
    action.RemoveDependency? && action.file == file && env.normalize(action.name) == name
  }

  lemma NamedAttempt(env: Env, disk: Disk, action: Action, file: string, name: string)
    requires env.contained(file) && action != RemoveFile(file) && file in disk && disk[file].Lines?
    requires KindOf(file).LinesFile? && !disk[file].listing.frozen && GoByName([action], file)
    ensures var was, after := EntriesOf(disk[file], ""), After(env, disk, action);
      && file in after && SameShape(disk[file], after[file])
      && (HasName(EntriesOf(after[file], ""), name) <==> HasName(was, name) && !RemovesName(env, action, file, name))
      && (RemovesName(env, action, file, name) ==> (Attempt(env, false, disk, action).Some? <==> HasName(was, name)))
  {
    assert [action][0] == action;
    if FileOf(action) == file {
      EditOnList(env, disk[file], action, "");
      if action.RemoveDependency? {
        WithoutNameIsFilter(EntriesOf(disk[file], ""), env.normalize(action.name));
      }
    }
  }

  /** A removal by name succeeds exactly when the file as first read has the name
      and no action before it removed it. */
  lemma {:induction false} NamedRemovalSucceedsExactlyWhen(
    env: Env, disk: Disk, actions: seq<Action>, file: string, name: string, k: nat)
    requires env.contained(file) && EditsOnly(actions, file) && file in disk && disk[file].Lines?
    requires KindOf(file).LinesFile? && !disk[file].listing.frozen && GoByName(actions, file)
    requires k < |actions| && RemovesName(env, actions[k], file, name)
    ensures Run(env, false, disk, actions).oks[k] <==>
      HasName(EntriesOf(disk[file], ""), name) && forall l :: 0 <= l < k ==> !RemovesName(env, actions[l], file, name)
    decreases |actions|
  {
    NamedAttempt(env, disk, actions[0], file, name);
    RunSteps(env, disk, actions);
    if k > 0 {
      NamedRemovalSucceedsExactlyWhen(env, After(env, disk, actions[0]), actions[1..], file, name, k - 1);
      assert forall l :: 0 < l < k ==> actions[l] == actions[1..][l - 1];
      assert (forall l :: 0 <= l < k - 1 ==> !RemovesName(env, actions[1..][l], file, name)) <==>
             (forall l :: 0 < l < k ==> !RemovesName(env, actions[l], file, name)) by {
        forall l | 0 <= l < k - 1 ensures actions[1..][l] == actions[l + 1] {
        }
      }
    }
  }

  /** The entries a plan does not mean, `from` being the index of the first. */
  function Unplanned(entries: seq<Entry>, planned: set<nat>, from: nat): seq<Entry> {
    if entries == [] then []
    else (if from in planned then [] else [entries[0]]) + Unplanned(entries[1..], planned, from + 1)
  }

  ghost predicate UnplannedAreUnnamed(entries: seq<Entry>, planned: set<nat>, from: nat, names: set<string>) {
    forall i :: 0 <= i < |entries| && from + i !in planned ==> !NamedIn(entries[i], names)
  }

  lemma UnplannedTail(entries: seq<Entry>, planned: set<nat>, from: nat, names: set<string>)
    requires entries != []
    ensures UnplannedAreUnnamed(entries, planned, from, names) <==>
      && (from !in planned ==> !NamedIn(entries[0], names))
      && UnplannedAreUnnamed(entries[1..], planned, from + 1, names)
  {
    var rest := entries[1..];
    if UnplannedAreUnnamed(rest, planned, from + 1, names) && (from !in planned ==> !NamedIn(entries[0], names)) {
      forall i | 0 <= i < |entries| && from + i !in planned ensures !NamedIn(entries[i], names) {
        if i > 0 {
          assert rest[i - 1] == entries[i] && from + 1 + (i - 1) == from + i;
        }
      }
    }
    if UnplannedAreUnnamed(entries, planned, from, names) {
      forall i | 0 <= i < |rest| && from + 1 + i !in planned ensures !NamedIn(rest[i], names) {
        assert entries[i + 1] == rest[i] && from + (i + 1) == from + 1 + i;
      }
      assert from + 0 == from;
    }
  }

  lemma {:induction false} NamesTakeOnlyThePlanned(
    entries: seq<Entry>, planned: set<nat>, from: nat, names: set<string>)
    requires forall i :: 0 <= i < |entries| && from + i in planned ==> NamedIn(entries[i], names)
    ensures |WithoutNames(entries, names)| <= |Unplanned(entries, planned, from)|
    ensures WithoutNames(entries, names) == Unplanned(entries, planned, from) <==>
      UnplannedAreUnnamed(entries, planned, from, names)
  {
    if entries != [] {
      forall i | 0 <= i < |entries[1..]| && from + 1 + i in planned ensures NamedIn(entries[1..][i], names) {
        assert entries[i + 1] == entries[1..][i] && from + (i + 1) == from + 1 + i;
      }
      assert from in planned ==> from + 0 in planned && NamedIn(entries[0], names);
      NamesTakeOnlyThePlanned(entries[1..], planned, from + 1, names);
      UnplannedTail(entries, planned, from, names);
      var x, y := WithoutNames(entries[1..], names), Unplanned(entries[1..], planned, from + 1);
      assert ([entries[0]] + x)[1..] == x && ([entries[0]] + y)[1..] == y && [] + x == x && [] + y == y;
    }
  }

  /** So only planned entries go if and only if no other entry has a planned name. */
  lemma OnlyPlannedGoExactlyWhen(env: Env, disk: Disk, actions: seq<Action>, file: string, planned: set<nat>)
    requires env.contained(file) && EditsOnly(actions, file) && file in disk
    requires disk[file].Lines? && GoByName(actions, file)
    requires var was := EntriesOf(disk[file], "");
      forall i :: 0 <= i < |was| && i in planned ==> NamedIn(was[i], NamedBy(env, disk[file], actions, file))
    ensures
      var was, run := EntriesOf(disk[file], ""), Run(env, false, disk, actions);
      && file in run.disk
      && (EntriesOf(run.disk[file], "") == Unplanned(was, planned, 0) <==>
            forall i :: 0 <= i < |was| && i !in planned ==>
              !NamedIn(was[i], NamedBy(env, disk[file], actions, file)))
  {
    NamedRemovalsSpare(env, disk, actions, file);
    NamesTakeOnlyThePlanned(EntriesOf(disk[file], ""), planned, 0, NamedBy(env, disk[file], actions, file));
  }

  /** Two spellings of one requirement, one of which is planned to go: both go. */
  lemma BothSpellingsGo(env: Env, file: string, tag: string, name: string, a: Entry, b: Entry)
    requires env.contained(file) && KindOf(file).LinesFile? && a.name == b.name == Some(env.normalize(name))
    ensures
      var actions := [RemoveDependency(Chk009, name, file, tag, None)];
      var run := Run(env, false, map[file := Lines(Listing([a, b], false))], InBottomUpOrder(actions));
      && DistinctPositions(actions) && file in run.disk
      && EntriesOf(run.disk[file], "") == [] && Unplanned([a, b], {1}, 0) == [a]
  {
    var actions := [RemoveDependency(Chk009, name, file, tag, None)];
    var disk: Disk := map[file := Lines(Listing([a, b], false))];
    OneActionRuns(actions);
    NamedRemovalsSpare(env, disk, actions, file);
    var names := NamedBy(env, disk[file], actions, file);
    assert env.normalize(name) in names by {
      assert actions[0].RemoveDependency? && actions[0].file == file && actions[0].name == name;
    }
    NothingLeft(a, b, names);
    assert [a, b][1..] == [b] && [b][1..] == [];
    assert Unplanned([b], {1}, 1) == [] + Unplanned([], {1}, 2);
  }

  lemma NothingLeft(a: Entry, b: Entry, names: set<string>)
    requires NamedIn(a, names) && NamedIn(b, names)
    ensures WithoutNames([a, b], names) == []
  {
    assert [a, b][1..] == [b] && [b][1..] == [];
    assert WithoutNames([b], names) == [] + WithoutNames([], names);
  }

  /** `install_requires[1]` of a `setup.py` has a position but goes by name. */
  lemma SetupPyGoesByName(name: string)
    ensures KindOf("setup.py").LinesFile?
    ensures var action := RemoveDependency(Chk009, name, "setup.py", "install_requires[1]", None);
      GoByName([action], "setup.py") && RemovalPosition(action) == Some(Position("setup.py", "install_requires", 1))
  {
    var file := "setup.py";
    assert Lower(file[3..])[0] == 'u' && Lower(file[4..])[0] == 'p';
    PrintedLabelReadsBack("install_requires", 1);
    assert "install_requires[1]" == "install_requires" + "[" + Print(1) + "]";
  }

  lemma OneActionRuns(actions: seq<Action>)
    requires |actions| == 1
    ensures InBottomUpOrder(actions) == actions
  {
    assert 0 in BottomUp(actions, 1);
  }
}

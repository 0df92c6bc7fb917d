/**
 Runs of edits, seen from one list of one file.

 The first half follows a run whose removals from the list go by descending addresses:
 none of them sees a shifted address, so each succeeds or fails as on the list first
 read, and the list ends as that less what was aimed at, plus what was appended. The
 second half follows any run. There the list as first read and what was appended to
 it are kept apart: what a run removes it takes from the first part just as if it stood
 alone, one action after the other, by address or by name.
 */
module FixRuns {
  import opened Common
  import opened FixPlan
  import opened Manifest
  import opened Removals

  // ---------------------------------------------------- by descending addresses

  /** What an action removes from one list of one file. */
  function Aim(env: Env, doc: Doc, action: Action, file: string, list: string): Option<Removal> {
    if FileOf(action) == file then RemovalOn(env, doc, action, list) else None
  }

  function Aims(env: Env, doc: Doc, actions: seq<Action>, file: string, list: string): set<Removal> {
    if actions == [] then {}
    else
      match Aim(env, doc, actions[0], file, list)
      case Some(r) => {r} + Aims(env, doc, actions[1..], file, list)
      case None => Aims(env, doc, actions[1..], file, list)
  }

  lemma {:induction false} AimsMembers(env: Env, doc: Doc, actions: seq<Action>, file: string, list: string, r: Removal)
    ensures r in Aims(env, doc, actions, file, list) <==>
            exists k :: 0 <= k < |actions| && Aim(env, doc, actions[k], file, list) == Some(r)
  {
    if actions != [] {
      var rest := actions[1..];
      AimsMembers(env, doc, rest, file, list, r);
      if r in Aims(env, doc, rest, file, list) {
        var k :| 0 <= k < |rest| && Aim(env, doc, rest[k], file, list) == Some(r);
        assert actions[k + 1] == rest[k];
      }
      if k :| 0 <= k < |actions| && Aim(env, doc, actions[k], file, list) == Some(r) {
        assert k > 0 ==> actions[k] == rest[k - 1];
      }
    }
  }

  lemma {:induction false} SameShapeSameAims(env: Env, a: Doc, b: Doc, actions: seq<Action>, file: string, list: string)
    requires SameShape(a, b)
    ensures Aims(env, a, actions, file, list) == Aims(env, b, actions, file, list)
  {
    if actions != [] {
      SameShapeSameAims(env, a, b, actions[1..], file, list);
    }
  }

  ghost predicate Descends(env: Env, doc: Doc, actions: seq<Action>, file: string, list: string) {
    forall k, l ::
      && 0 <= k < l < |actions|
      && Aim(env, doc, actions[k], file, list).Some?
      && Aim(env, doc, actions[l], file, list).Some? ==>
      Aim(env, doc, actions[k], file, list).value.at > Aim(env, doc, actions[l], file, list).value.at
  }

  /** Every aim is below `bound`'s addresses and inside the list as first read. */
  ghost predicate AllBelow(env: Env, doc: Doc, actions: seq<Action>, file: string, list: string, gone: set<Removal>) {
    forall k, g :: 0 <= k < |actions| && Aim(env, doc, actions[k], file, list).Some? && g in gone ==>
      Aim(env, doc, actions[k], file, list).value.at < g.at
  }

  ghost predicate AllInside(env: Env, doc: Doc, actions: seq<Action>, file: string, list: string, end: nat) {
    forall k :: 0 <= k < |actions| && Aim(env, doc, actions[k], file, list).Some? ==>
      Aim(env, doc, actions[k], file, list).value.at < end
  }

  ghost predicate EditsOnly(actions: seq<Action>, file: string) {
    forall k :: 0 <= k < |actions| ==> actions[k] != RemoveFile(file)
  }

  /** No action removes from the file by name. */
  ghost predicate GoByAddress(doc: Doc, actions: seq<Action>, file: string) {
    doc.Lines? ==> forall k :: 0 <= k < |actions| && FileOf(actions[k]) == file ==> LineAddressed(actions[k])
  }

  /** The list is the original minus `gone` plus `added`. */
  ghost predicate Holds(doc: Doc, list: string, entries: seq<Entry>, at: nat, gone: set<Removal>, added: seq<Entry>) {
    && FirstAddress(doc) == at
    && EntriesOf(doc, list) == Without(entries, at, gone) + added
    && (!Grows(doc, list) ==> added == [])
  }

  function With(gone: set<Removal>, aim: Option<Removal>): set<Removal> {
    if aim.Some? then gone + {aim.value} else gone
  }

  ghost predicate AimIsNext(
    doc: Doc, aim: Option<Removal>, list: string, entries: seq<Entry>, at: nat, gone: set<Removal>) {
    aim.Some? ==>
      && (forall g :: g in gone ==> aim.value.at < g.at)
      && (Grows(doc, list) ==> aim.value.at < EndAddress(entries, at))
  }

  /** What is appended so far, after one more action. */
  function OneMore(
    env: Env, doc: Doc, action: Action, ok: bool, list: string,
    entries: seq<Entry>, at: nat, gone: set<Removal>, added: seq<Entry>): seq<Entry>
  {
    if ok then added + AddedBy(env, doc, action, list, Without(entries, at, gone) + added) else added
  }

  lemma EditHolds(
    env: Env, doc: Doc, action: Action, list: string,
    entries: seq<Entry>, at: nat, gone: set<Removal>, added: seq<Entry>)
    requires !action.RemoveFile? && (doc.Lines? ==> LineAddressed(action))
    requires Holds(doc, list, entries, at, gone, added)
    requires AimIsNext(doc, RemovalOn(env, doc, action, list), list, entries, at, gone)
    ensures
      var edited := Edit(env, doc, action);
      var aim := RemovalOn(env, doc, action, list);
      && (edited.Some? ==> SameShape(doc, edited.value))
      && (edited.Some? ==>
            Holds(edited.value, list, entries, at, With(gone, aim),
                  OneMore(env, doc, action, true, list, entries, at, With(gone, aim), added)))
      && (edited.None? ==> Holds(doc, list, entries, at, With(gone, aim), added))
      && (aim.Some? ==> (edited.Some? <==> RemoveAt(entries, at, aim.value).Some?))
  {
    EditOnList(env, doc, action, list);
    var edited := Edit(env, doc, action);
    var aim := RemovalOn(env, doc, action, list);
    if aim.Some? {
      NextRemovalHitsItsTarget(entries, at, gone, added, aim.value);
    }
    var kept := Without(entries, at, With(gone, aim)) + added;
    Reassociate(Without(entries, at, With(gone, aim)), added, AddedBy(env, doc, action, list, kept));
  }

  lemma SameShapeIsReflexive(doc: Doc)
    ensures SameShape(doc, doc)
  {
  }

  /** The additions standing after one more action of a run. */
  function Standing(
    env: Env, doc: Doc, action: Action, ok: bool, file: string, list: string,
    entries: seq<Entry>, at: nat, gone: set<Removal>, added: seq<Entry>): seq<Entry>
  {
    var aim := Aim(env, doc, action, file, list);
    OneMore(env, doc, action, ok && FileOf(action) == file, list, entries, at, With(gone, aim), added)
  }

  /** One action of a run. */
  lemma AttemptHolds(
    env: Env, disk: Disk, action: Action, file: string, list: string,
    entries: seq<Entry>, at: nat, gone: set<Removal>, added: seq<Entry>)
    requires env.contained(file) && action != RemoveFile(file) && file in disk
    requires disk[file].Lines? && FileOf(action) == file ==> LineAddressed(action)
    requires Holds(disk[file], list, entries, at, gone, added)
    requires AimIsNext(disk[file], Aim(env, disk[file], action, file, list), list, entries, at, gone)
    ensures
      var t := Attempt(env, false, disk, action);
      var after := if t.Some? then t.value else disk;
      var aim := Aim(env, disk[file], action, file, list);
      && file in after && SameShape(disk[file], after[file])
      && Holds(after[file], list, entries, at, With(gone, aim),
               Standing(env, disk[file], action, t.Some?, file, list, entries, at, gone, added))
      && (aim.Some? ==> (t.Some? <==> RemoveAt(entries, at, aim.value).Some?))
  {
    SameShapeIsReflexive(disk[file]);
    if FileOf(action) == file {
      EditHolds(env, disk[file], action, list, entries, at, gone, added);
    }
  }

  /** A removal succeeds exactly when it would on the list as first read. */
  ghost predicate OksAgree(
    env: Env, doc: Doc, actions: seq<Action>, file: string, list: string, entries: seq<Entry>, at: nat,
    oks: seq<bool>) {
    && |oks| == |actions|
    && forall k :: 0 <= k < |actions| && Aim(env, doc, actions[k], file, list).Some? ==>
         (oks[k] <==> RemoveAt(entries, at, Aim(env, doc, actions[k], file, list).value).Some?)
  }

  lemma OksShift(
    env: Env, doc: Doc, after: Doc, actions: seq<Action>, file: string, list: string,
    entries: seq<Entry>, at: nat, ok: bool, oks: seq<bool>)
    requires actions != [] && SameShape(doc, after)
    requires OksAgree(env, after, actions[1..], file, list, entries, at, oks)
    requires Aim(env, doc, actions[0], file, list).Some? ==>
      (ok <==> RemoveAt(entries, at, Aim(env, doc, actions[0], file, list).value).Some?)
    ensures OksAgree(env, doc, actions, file, list, entries, at, [ok] + oks)
  {
    forall k | 0 <= k < |actions| && Aim(env, doc, actions[k], file, list).Some?
      ensures ([ok] + oks)[k] <==> RemoveAt(entries, at, Aim(env, doc, actions[k], file, list).value).Some?
    {
      if k > 0 {
        assert actions[1..][k - 1] == actions[k] && ([ok] + oks)[k] == oks[k - 1];
      }
    }
  }

  /** The rest of a descending run stays below what its first action removed. */
  lemma RestOfRun(
    env: Env, doc: Doc, after: Doc, actions: seq<Action>, file: string, list: string, gone: set<Removal>, end: nat)
    requires actions != [] && SameShape(doc, after)
    requires Descends(env, doc, actions, file, list) && AllBelow(env, doc, actions, file, list, gone)
    ensures Descends(env, after, actions[1..], file, list)
    ensures AllBelow(env, after, actions[1..], file, list, With(gone, Aim(env, doc, actions[0], file, list)))
    ensures AllInside(env, doc, actions, file, list, end) ==> AllInside(env, after, actions[1..], file, list, end)
  {
    var rest := actions[1..];
    forall k | 0 <= k < |rest|
      ensures Aim(env, after, rest[k], file, list) == Aim(env, doc, actions[k + 1], file, list)
    {
    }
  }

  /** The additions standing at the end of a run: each action that succeeded and
      asked for one appended it, unless an entry left by then, original or
      appended, already declared its name. */
  function Grown(
    env: Env, doc: Doc, actions: seq<Action>, oks: seq<bool>, file: string, list: string,
    entries: seq<Entry>, at: nat, gone: set<Removal>, added: seq<Entry>): seq<Entry>
    requires |oks| == |actions|
  {
    if actions == [] then added
    else
      Grown(env, doc, actions[1..], oks[1..], file, list, entries, at,
            With(gone, Aim(env, doc, actions[0], file, list)),
            Standing(env, doc, actions[0], oks[0], file, list, entries, at, gone, added))
  }

  lemma {:induction false} SameShapeSameGrowth(
    env: Env, a: Doc, b: Doc, actions: seq<Action>, oks: seq<bool>, file: string, list: string,
    entries: seq<Entry>, at: nat, gone: set<Removal>, added: seq<Entry>)
    requires |oks| == |actions| && SameShape(a, b)
    ensures Grown(env, a, actions, oks, file, list, entries, at, gone, added) ==
      Grown(env, b, actions, oks, file, list, entries, at, gone, added)
  {
    if actions != [] {
      SameShapeSameGrowth(env, a, b, actions[1..], oks[1..], file, list, entries, at,
                          With(gone, Aim(env, a, actions[0], file, list)),
                          Standing(env, a, actions[0], oks[0], file, list, entries, at, gone, added));
    }
  }

  /** Elsewhere than on the runtime list nothing is appended. */
  lemma {:induction false} GrownOnlyAtRuntime(
    env: Env, doc: Doc, actions: seq<Action>, oks: seq<bool>, file: string, list: string,
    entries: seq<Entry>, at: nat, gone: set<Removal>, added: seq<Entry>)
    requires |oks| == |actions| && !Grows(doc, list)
    ensures Grown(env, doc, actions, oks, file, list, entries, at, gone, added) == added
  {
    if actions != [] {
      assert added + [] == added;
      GrownOnlyAtRuntime(env, doc, actions[1..], oks[1..], file, list, entries, at,
                         With(gone, Aim(env, doc, actions[0], file, list)), added);
    }
  }

  ghost predicate RunIsRight(
    env: Env, disk: Disk, actions: seq<Action>, file: string, list: string,
    entries: seq<Entry>, at: nat, gone: set<Removal>, added: seq<Entry>)
    requires file in disk
  {
    var run := Run(env, false, disk, actions);
    && file in run.disk
    && EntriesOf(run.disk[file], list) ==
       Without(entries, at, gone + Aims(env, disk[file], actions, file, list))
       + Grown(env, disk[file], actions, run.oks, file, list, entries, at, gone, added)
    && OksAgree(env, disk[file], actions, file, list, entries, at, run.oks)
  }

  /** The first action of a run, and the rest after it. */
  ghost predicate FirstIsRight(
    env: Env, disk: Disk, after: Disk, ok: bool, actions: seq<Action>, file: string, list: string,
    entries: seq<Entry>, at: nat, gone: set<Removal>, added: seq<Entry>)
    requires actions != [] && file in disk && file in after
  {
    var aim := Aim(env, disk[file], actions[0], file, list);
    && SameShape(disk[file], after[file])
    && (aim.Some? ==> (ok <==> RemoveAt(entries, at, aim.value).Some?))
    && RunIsRight(env, after, actions[1..], file, list, entries, at, With(gone, aim),
                  Standing(env, disk[file], actions[0], ok, file, list, entries, at, gone, added))
  }

  function After(env: Env, disk: Disk, action: Action): Disk {
    var t := Attempt(env, false, disk, action);
    if t.Some? then t.value else disk
  }

  lemma RunSteps(env: Env, disk: Disk, actions: seq<Action>)
    requires actions != []
    ensures var rest := Run(env, false, After(env, disk, actions[0]), actions[1..]);
      Run(env, false, disk, actions) == Outcome(rest.disk, [Attempt(env, false, disk, actions[0]).Some?] + rest.oks)
  {
  }

  lemma GrownSteps(
    env: Env, doc: Doc, after: Doc, actions: seq<Action>, ok: bool, oks: seq<bool>, file: string, list: string,
    entries: seq<Entry>, at: nat, gone: set<Removal>, added: seq<Entry>)
    requires actions != [] && |oks| == |actions[1..]| && SameShape(doc, after)
    ensures Grown(env, doc, actions, [ok] + oks, file, list, entries, at, gone, added)
         == Grown(env, after, actions[1..], oks, file, list, entries, at,
                  With(gone, Aim(env, doc, actions[0], file, list)),
                  Standing(env, doc, actions[0], ok, file, list, entries, at, gone, added))
  {
    assert ([ok] + oks)[1..] == oks;
    SameShapeSameGrowth(env, doc, after, actions[1..], oks, file, list, entries, at,
                        With(gone, Aim(env, doc, actions[0], file, list)),
                        Standing(env, doc, actions[0], ok, file, list, entries, at, gone, added));
  }

  lemma RunStep(
    env: Env, disk: Disk, actions: seq<Action>, file: string, list: string,
    entries: seq<Entry>, at: nat, gone: set<Removal>, added: seq<Entry>)
    requires actions != [] && file in disk && file in After(env, disk, actions[0])
    requires FirstIsRight(env, disk, After(env, disk, actions[0]), Attempt(env, false, disk, actions[0]).Some?,
                          actions, file, list, entries, at, gone, added)
    ensures RunIsRight(env, disk, actions, file, list, entries, at, gone, added)
  {
    var after := After(env, disk, actions[0]);
    var ok := Attempt(env, false, disk, actions[0]).Some?;
    var oks := Run(env, false, after, actions[1..]).oks;
    RunSteps(env, disk, actions);
    AimsStep(env, disk[file], after[file], actions, file, list, gone);
    GrownSteps(env, disk[file], after[file], actions, ok, oks, file, list, entries, at, gone, added);
    OksShift(env, disk[file], after[file], actions, file, list, entries, at, ok, oks);
  }

  /** What a run needs: removals in descending order, below everything gone, and
      inside the list as first read where it grows. */
  ghost predicate Runnable(
    env: Env, doc: Doc, actions: seq<Action>, file: string, list: string, entries: seq<Entry>, at: nat,
    gone: set<Removal>) {
    && EditsOnly(actions, file) && GoByAddress(doc, actions, file)
    && Descends(env, doc, actions, file, list)
    && AllBelow(env, doc, actions, file, list, gone)
    && (Grows(doc, list) ==> AllInside(env, doc, actions, file, list, EndAddress(entries, at)))
  }

  lemma RunnableRest(
    env: Env, doc: Doc, after: Doc, actions: seq<Action>, file: string, list: string, entries: seq<Entry>, at: nat,
    gone: set<Removal>)
    requires actions != [] && SameShape(doc, after) && Runnable(env, doc, actions, file, list, entries, at, gone)
    ensures
      Runnable(env, after, actions[1..], file, list, entries, at, With(gone, Aim(env, doc, actions[0], file, list)))
  {
    RestOfRun(env, doc, after, actions, file, list, gone, EndAddress(entries, at));
  }

  lemma FirstStep(
    env: Env, disk: Disk, actions: seq<Action>, file: string, list: string,
    entries: seq<Entry>, at: nat, gone: set<Removal>, added: seq<Entry>)
    requires env.contained(file) && file in disk && actions != []
    requires Holds(disk[file], list, entries, at, gone, added)
    requires Runnable(env, disk[file], actions, file, list, entries, at, gone)
    ensures
      var after := After(env, disk, actions[0]);
      var ok := Attempt(env, false, disk, actions[0]).Some?;
      var aim := Aim(env, disk[file], actions[0], file, list);
      && file in after && SameShape(disk[file], after[file])
      && Holds(after[file], list, entries, at, With(gone, aim),
               Standing(env, disk[file], actions[0], ok, file, list, entries, at, gone, added))
      && (aim.Some? ==> (ok <==> RemoveAt(entries, at, aim.value).Some?))
  {
    AttemptHolds(env, disk, actions[0], file, list, entries, at, gone, added);
  }

  /** No edit of a descending run sees a shifted address. */
  lemma {:induction false} RunOnList(
    env: Env, disk: Disk, actions: seq<Action>, file: string, list: string,
    entries: seq<Entry>, at: nat, gone: set<Removal>, added: seq<Entry>)
    requires env.contained(file) && file in disk
    requires Holds(disk[file], list, entries, at, gone, added)
    requires Runnable(env, disk[file], actions, file, list, entries, at, gone)
    ensures RunIsRight(env, disk, actions, file, list, entries, at, gone, added)
    decreases |actions|
  {
    if actions == [] {
      assert gone + {} == gone;
    } else {
      FirstStep(env, disk, actions, file, list, entries, at, gone, added);
      var after := After(env, disk, actions[0]);
      RunnableRest(env, disk[file], after[file], actions, file, list, entries, at, gone);
      RunOnList(env, after, actions[1..], file, list, entries, at,
                With(gone, Aim(env, disk[file], actions[0], file, list)),
                Standing(env, disk[file], actions[0], Attempt(env, false, disk, actions[0]).Some?, file, list,
                  entries, at, gone, added));
      RunStep(env, disk, actions, file, list, entries, at, gone, added);
    }
  }

  lemma AimsStep(env: Env, doc: Doc, after: Doc, actions: seq<Action>, file: string, list: string, gone: set<Removal>)
    requires actions != [] && SameShape(doc, after)
    ensures With(gone, Aim(env, doc, actions[0], file, list)) + Aims(env, after, actions[1..], file, list)
         == gone + Aims(env, doc, actions, file, list)
  {
    SameShapeSameAims(env, doc, after, actions[1..], file, list);
  }

  // ------------------------------------------------------------ in any order

  function AimOptions(env: Env, doc: Doc, actions: seq<Action>, file: string, list: string): seq<Option<Removal>> {
    seq(|actions|, k requires 0 <= k < |actions| => Aim(env, doc, actions[k], file, list))
  }

  /** The addresses a run removes at in one list, in order. */
  function AimSeq(env: Env, doc: Doc, actions: seq<Action>, file: string, list: string): seq<Removal> {
    Somes(AimOptions(env, doc, actions, file, list))
  }

  /** What an action takes from one list of one file. */
  function TakeBy(env: Env, doc: Doc, action: Action, file: string, list: string): Option<Take> {
    if FileOf(action) == file then TakeOn(env, doc, action, list) else None
  }

  function TakeOptions(env: Env, doc: Doc, actions: seq<Action>, file: string, list: string): seq<Option<Take>> {
    seq(|actions|, k requires 0 <= k < |actions| => TakeBy(env, doc, actions[k], file, list))
  }

  /** What a run takes from one list, in order. */
  function TakeSeq(env: Env, doc: Doc, actions: seq<Action>, file: string, list: string): seq<Take> {
    Somes(TakeOptions(env, doc, actions, file, list))
  }

  lemma TakeSeqMembers(env: Env, doc: Doc, actions: seq<Action>, file: string, list: string, t: Take)
    ensures t in TakeSeq(env, doc, actions, file, list) <==>
            exists k :: 0 <= k < |actions| && TakeBy(env, doc, actions[k], file, list) == Some(t)
  {
    var xs := TakeOptions(env, doc, actions, file, list);
    SomesMembers(xs, t);
    if k :| 0 <= k < |actions| && TakeBy(env, doc, actions[k], file, list) == Some(t) {
      assert xs[k] == Some(t);
    }
  }

  /** Where no requirement goes by name, only addresses are taken. */
  lemma AddressesAreAims(env: Env, doc: Doc, actions: seq<Action>, file: string, list: string)
    requires GoByAddress(doc, actions, file)
    ensures TakeSeq(env, doc, actions, file, list) == ByAddresses(AimSeq(env, doc, actions, file, list))
  {
    var xs, rs := TakeOptions(env, doc, actions, file, list), AimOptions(env, doc, actions, file, list);
    forall k | 0 <= k < |actions| ensures xs[k] == AddressOption(rs[k]) {
      TakeIsAim(env, doc, actions[k], file, list);
    }
    AddressOptions(xs, rs);
  }

  function AddressOption(r: Option<Removal>): Option<Take> {
    match r
    case Some(removal) => Some(ByAddress(removal))
    case None => None
  }

  lemma TakeIsAim(env: Env, doc: Doc, action: Action, file: string, list: string)
    requires doc.Lines? && FileOf(action) == file ==> LineAddressed(action)
    ensures TakeBy(env, doc, action, file, list) == AddressOption(Aim(env, doc, action, file, list))
  {
  }

  lemma {:induction false} AddressOptions(xs: seq<Option<Take>>, rs: seq<Option<Removal>>)
    requires |xs| == |rs| && forall k :: 0 <= k < |xs| ==> xs[k] == AddressOption(rs[k])
    ensures Somes(xs) == ByAddresses(Somes(rs))
  {
    if xs != [] {
      AddressOptions(xs[1..], rs[1..]);
      var rest := Somes(rs[1..]);
      assert rs[0].Some? ==> ByAddresses([rs[0].value] + rest) == [ByAddress(rs[0].value)] + ByAddresses(rest);
    }
  }

  lemma SameShapeSameTakes(env: Env, a: Doc, b: Doc, actions: seq<Action>, file: string, list: string)
    requires SameShape(a, b)
    ensures TakeSeq(env, a, actions, file, list) == TakeSeq(env, b, actions, file, list)
  {
    assert TakeOptions(env, a, actions, file, list) == TakeOptions(env, b, actions, file, list);
  }

  function TakeIf(entries: seq<Entry>, at: nat, take: Option<Take>): seq<Entry> {
    if take.Some? then TakeFrom(entries, at, take.value) else entries
  }

  /** What is taken from the first part of a list is what would be taken from it
      alone; the rest comes out of the second part. */
  ghost predicate Parted(x: seq<Entry>, y: seq<Entry>, at: nat, t: Take, rest: seq<Entry>) {
    && (forall e :: e in rest ==> e in y)
    && (y == [] ==> rest == [])
    && TakeFrom(x + y, at, t) == TakeFrom(x, at, t) + rest
    && (TakeFrom(x + y, at, t) == x + y ==> TakeFrom(x, at, t) == x && rest == y)
  }

  lemma PartedTail(e: Entry, x: seq<Entry>, y: seq<Entry>, at: nat, r: Removal, rest: seq<Entry>)
    requires at < r.at && Parted(x, y, at + e.span, ByAddress(r), rest)
    ensures Parted([e] + x, y, at, ByAddress(r), rest)
  {
    TakeBehind(e, x, at, r);
    TakeBehind(e, x + y, at, r);
    Reassociate([e], x, y);
    Reassociate([e], TakeFrom(x, at + e.span, ByAddress(r)), rest);
    if TakeFrom([e] + (x + y), at, ByAddress(r)) == [e] + (x + y) {
      assert ([e] + TakeFrom(x + y, at + e.span, ByAddress(r)))[1..] == ([e] + (x + y))[1..];
    }
  }

  lemma TakeBehind(e: Entry, rest: seq<Entry>, at: nat, r: Removal)
    requires at < r.at
    ensures TakeFrom([e] + rest, at, ByAddress(r)) == [e] + TakeFrom(rest, at + e.span, ByAddress(r))
  {
    assert ([e] + rest)[1..] == rest;
  }

  lemma PartedHead(e: Entry, x: seq<Entry>, y: seq<Entry>, at: nat, r: Removal)
    requires r.at <= at
    ensures Parted([e] + x, y, at, ByAddress(r), y)
  {
    Reassociate([e], x, y);
    assert ([e] + x)[1..] == x && ([e] + (x + y))[1..] == x + y;
    assert |x + y| < |[e] + (x + y)|;
  }

  lemma {:induction false} AddressFromParts(x: seq<Entry>, y: seq<Entry>, at: nat, r: Removal)
    returns (rest: seq<Entry>)
    ensures Parted(x, y, at, ByAddress(r), rest)
  {
    if x == [] {
      assert x + y == y;
      rest := TakeFrom(y, at, ByAddress(r));
      TakeFromMembers(y, at, ByAddress(r));
      assert [] + rest == rest;
    } else {
      assert x == [x[0]] + x[1..];
      if r.at <= at {
        rest := y;
        PartedHead(x[0], x[1..], y, at, r);
      } else {
        rest := AddressFromParts(x[1..], y, at + x[0].span, r);
        PartedTail(x[0], x[1..], y, at, r, rest);
      }
    }
  }

  lemma {:induction false} WithoutNameConcat(x: seq<Entry>, y: seq<Entry>, name: string)
    ensures WithoutName(x + y, name) == WithoutName(x, name) + WithoutName(y, name)
  {
    if x == [] {
      assert x + y == y;
    } else {
      assert (x + y)[1..] == x[1..] + y;
      WithoutNameConcat(x[1..], y, name);
      Reassociate(if x[0].name == Some(name) then [] else [x[0]], WithoutName(x[1..], name), WithoutName(y, name));
    }
  }

  lemma NameFromParts(x: seq<Entry>, y: seq<Entry>, at: nat, name: string)
    ensures Parted(x, y, at, ByName(name), WithoutName(y, name))
  {
    WithoutNameConcat(x, y, name);
    WithoutNameIsFilter(x, name);
    WithoutNameIsFilter(y, name);
    WithoutNameIsFilter(x + y, name);
  }

  ghost predicate NoneReads(entries: seq<Entry>, text: string) {
    forall e :: e in entries ==> e.text != text
  }

  lemma TakeFromParts(x: seq<Entry>, y: seq<Entry>, at: nat, take: Option<Take>) returns (rest: seq<Entry>)
    ensures (forall e :: e in rest ==> e in y) && (y == [] ==> rest == [])
    ensures TakeIf(x + y, at, take) == TakeIf(x, at, take) + rest
    ensures TakeIf(x + y, at, take) == x + y ==> TakeIf(x, at, take) == x && rest == y
  {
    rest := y;
    if take.Some? {
      match take.value {
        case ByAddress(r) => rest := AddressFromParts(x, y, at, r);
        case ByName(name) =>
          rest := WithoutName(y, name);
          NameFromParts(x, y, at, name);
      }
    }
  }

  /** What an edit does to a list, in terms of what it takes: nothing taken where
      it fails, and what it appends was asked for. */
  lemma EditTakes(env: Env, doc: Doc, action: Action, list: string, text: string) returns (added: seq<Entry>)
    requires !action.RemoveFile? && Wanted(action) != Some(text)
    ensures NoneReads(added, text) && (!Grows(doc, list) ==> added == [])
    ensures
      var was, edited := EntriesOf(doc, list), Edit(env, doc, action);
      var left := TakeIf(was, FirstAddress(doc), TakeOn(env, doc, action, list));
      if edited.Some? then SameShape(doc, edited.value) && EntriesOf(edited.value, list) == left + added
      else left == was && added == []
  {
    EditOnList(env, doc, action, list);
    added := [];
    if Edit(env, doc, action).Some? {
      added := AddedBy(env, doc, action, list, Taken(env, doc, action, list).value);
    }
  }

  lemma EditOnParts(env: Env, doc: Doc, action: Action, list: string, x: seq<Entry>, y: seq<Entry>, text: string)
    returns (rest: seq<Entry>)
    requires !action.RemoveFile? && Wanted(action) != Some(text)
    requires EntriesOf(doc, list) == x + y && NoneReads(y, text)
    ensures NoneReads(rest, text) && (!Grows(doc, list) && y == [] ==> rest == [])
    ensures
      var edited := Edit(env, doc, action);
      var left := TakeIf(x, FirstAddress(doc), TakeOn(env, doc, action, list));
      if edited.Some? then SameShape(doc, edited.value) && EntriesOf(edited.value, list) == left + rest
      else left == x && rest == y
  {
    var take, at := TakeOn(env, doc, action, list), FirstAddress(doc);
    var added := EditTakes(env, doc, action, list, text);
    var kept := TakeFromParts(x, y, at, take);
    Reassociate(TakeIf(x, at, take), kept, added);
    rest := kept + added;
  }

  lemma AttemptOnParts(
    env: Env, disk: Disk, action: Action, file: string, list: string, x: seq<Entry>, y: seq<Entry>, text: string)
    returns (rest: seq<Entry>)
    requires env.contained(file) && action != RemoveFile(file) && Wanted(action) != Some(text)
    requires file in disk && EntriesOf(disk[file], list) == x + y && NoneReads(y, text)
    ensures NoneReads(rest, text) && (!Grows(disk[file], list) && y == [] ==> rest == [])
    ensures
      var after := After(env, disk, action);
      && file in after && SameShape(disk[file], after[file])
      && EntriesOf(after[file], list) ==
         TakeIf(x, FirstAddress(disk[file]), TakeBy(env, disk[file], action, file, list)) + rest
  {
    rest := y;
    SameShapeIsReflexive(disk[file]);
    if FileOf(action) == file {
      rest := EditOnParts(env, disk[file], action, list, x, y, text);
    }
  }

  lemma TakeSeqSteps(
    env: Env, doc: Doc, after: Doc, actions: seq<Action>, file: string, list: string, x: seq<Entry>, at: nat)
    requires actions != [] && SameShape(doc, after)
    ensures TakeEach(x, at, TakeSeq(env, doc, actions, file, list))
         == TakeEach(TakeIf(x, at, TakeBy(env, doc, actions[0], file, list)), at,
                     TakeSeq(env, after, actions[1..], file, list))
  {
    SameShapeSameTakes(env, doc, after, actions[1..], file, list);
    var first, rest := TakeBy(env, doc, actions[0], file, list), TakeOptions(env, doc, actions[1..], file, list);
    assert TakeOptions(env, doc, actions, file, list) == [first] + rest;
    SomesUnfold(first, rest);
    assert first.Some? ==> ([first.value] + Somes(rest))[1..] == Somes(rest);
  }

  /** Whatever the order, what a run removes it takes from the list as first read, one
      after the other; what else is there at the end was appended by the run. */
  lemma {:induction false} RunOnParts(
    env: Env, disk: Disk, actions: seq<Action>, file: string, list: string, x: seq<Entry>, y: seq<Entry>, text: string)
    returns (rest: seq<Entry>)
    requires env.contained(file) && EditsOnly(actions, file)
    requires forall k :: 0 <= k < |actions| ==> Wanted(actions[k]) != Some(text)
    requires file in disk && EntriesOf(disk[file], list) == x + y && NoneReads(y, text)
    ensures NoneReads(rest, text) && (!Grows(disk[file], list) && y == [] ==> rest == [])
    ensures
      var run := Run(env, false, disk, actions);
      && file in run.disk
      && EntriesOf(run.disk[file], list) ==
         TakeEach(x, FirstAddress(disk[file]), TakeSeq(env, disk[file], actions, file, list)) + rest
    decreases |actions|
  {
    rest := y;
    if actions != [] {
      var here := AttemptOnParts(env, disk, actions[0], file, list, x, y, text);
      var after := After(env, disk, actions[0]);
      var at := FirstAddress(disk[file]);
      rest := RunOnParts(env, after, actions[1..], file, list,
        TakeIf(x, at, TakeBy(env, disk[file], actions[0], file, list)), here, text);
      TakeSeqSteps(env, disk[file], after[file], actions, file, list, x, at);
      RunSteps(env, disk, actions);
    }
  }
}

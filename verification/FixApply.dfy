/**
 Applying planned fixes: removals run bottom-up and hit what they were planned
 for; outcomes are reported in plan order.
 */
module FixApply {
  import opened Common
  import opened Lists
  import opened FixPlan
  import opened FixOrder
  import opened Manifest
  import opened FixRuns

  // ------------------------------------------------------ the bottom-up run

  function Arranged(actions: seq<Action>, order: seq<nat>): (run: seq<Action>)
    requires forall k :: 0 <= k < |order| ==> order[k] < |actions|
    ensures |run| == |order| && forall k :: 0 <= k < |order| ==> run[k] == actions[order[k]]
  {
    seq(|order|, k requires 0 <= k < |order| && order[k] < |actions| => actions[order[k]])
  }

  function InBottomUpOrder(actions: seq<Action>): seq<Action> {
    Arranged(actions, BottomUp(actions, |actions|))
  }

  ghost predicate DistinctPositions(actions: seq<Action>) {
    forall i, j :: 0 <= i < j < |actions| && RemovalPosition(actions[i]).Some? ==>
      RemovalPosition(actions[i]) != RemovalPosition(actions[j])
  }

  /** Where an action is sorted is where it removes, or says nothing but its file. */
  lemma AimHasPosition(env: Env, doc: Doc, action: Action, file: string, list: string)
    requires (doc.Lines? ==> LineAddressed(action)) && Aim(env, doc, action, file, list).Some?
    ensures RemovalPosition(action).Some?
    ensures
      var p := RemovalPosition(action).value;
      var byName := doc.Lines? && IndexedTag(file).Some?;
      p == if byName then Position(file, IndexedTag(file).value.list, IndexedTag(file).value.index)
           else Position(file, list, Aim(env, doc, action, file, list).value.at)
  {
  }

  lemma AimsDescend(env: Env, doc: Doc, a: Action, b: Action, file: string, list: string)
    requires doc.Lines? ==> LineAddressed(a) && LineAddressed(b)
    requires Aim(env, doc, a, file, list).Some? && Aim(env, doc, b, file, list).Some?
    requires RemovalPosition(a) != RemovalPosition(b) && !Before(RemovalPosition(b), RemovalPosition(a))
    ensures Aim(env, doc, a, file, list).value.at > Aim(env, doc, b, file, list).value.at
  {
    AimHasPosition(env, doc, a, file, list);
    AimHasPosition(env, doc, b, file, list);
    PositionsDescend(RemovalPosition(a).value, RemovalPosition(b).value);
  }

  lemma PositionsDescend(p: Position, q: Position)
    requires p != q && p.file == q.file && p.list == q.list && !PositionBefore(q, p)
    ensures p.index > q.index
  {
  }

  lemma BottomUpDescends(env: Env, doc: Doc, actions: seq<Action>, file: string, list: string)
    requires DistinctPositions(actions) && GoByAddress(doc, actions, file)
    ensures Descends(env, doc, InBottomUpOrder(actions), file, list)
  {
    var order := BottomUp(actions, |actions|);
    var run := Arranged(actions, order);
    BottomUpIsInOrder(actions, |actions|);
    forall k, l |
      && 0 <= k < l < |run|
      && Aim(env, doc, run[k], file, list).Some?
      && Aim(env, doc, run[l], file, list).Some?
      ensures Aim(env, doc, run[k], file, list).value.at > Aim(env, doc, run[l], file, list).value.at
    {
      assert Precedes(actions, order[k], order[l]);
      AimHasPosition(env, doc, run[k], file, list);
      AimHasPosition(env, doc, run[l], file, list);
      AimsDescend(env, doc, run[k], run[l], file, list);
    }
  }

  lemma AimsOfBottomUp(env: Env, doc: Doc, actions: seq<Action>, file: string, list: string)
    ensures Aims(env, doc, InBottomUpOrder(actions), file, list) == Aims(env, doc, actions, file, list)
  {
    var order := BottomUp(actions, |actions|);
    var run := Arranged(actions, order);
    forall r ensures r in Aims(env, doc, run, file, list) <==> r in Aims(env, doc, actions, file, list) {
      AimsMembers(env, doc, run, file, list, r);
      AimsMembers(env, doc, actions, file, list, r);
      if k :| 0 <= k < |run| && Aim(env, doc, run[k], file, list) == Some(r) {
        assert run[k] == actions[order[k]];
      }
      if i :| 0 <= i < |actions| && Aim(env, doc, actions[i], file, list) == Some(r) {
        assert i in order;
        var k :| 0 <= k < |order| && order[k] == i;
        assert run[k] == actions[i];
      }
    }
  }

  lemma BottomUpKeepsLimits(env: Env, doc: Doc, actions: seq<Action>, file: string, list: string, end: nat)
    ensures EditsOnly(actions, file) ==> EditsOnly(InBottomUpOrder(actions), file)
    ensures GoByAddress(doc, actions, file) ==> GoByAddress(doc, InBottomUpOrder(actions), file)
    ensures AllInside(env, doc, actions, file, list, end) ==>
      AllInside(env, doc, InBottomUpOrder(actions), file, list, end)
  {
  }

  /** Every list of a manifest ends as first read, less exactly the entries that
      the planned removals address and name, plus exactly the additions that
      succeeded and were not declared by then; each removal succeeds exactly when
      it would have on the file as first read. */
  lemma EditsHitTheirTargets(env: Env, disk: Disk, actions: seq<Action>, file: string, list: string)
    requires file in disk && env.contained(file)
    requires EditsOnly(actions, file) && GoByAddress(disk[file], actions, file) && DistinctPositions(actions)
    requires Grows(disk[file], list) ==>
      AllInside(env, disk[file], actions, file, list, EndAddress(EntriesOf(disk[file], list), FirstAddress(disk[file])))
    ensures
      var doc := disk[file];
      var was, at := EntriesOf(doc, list), FirstAddress(doc);
      var run := InBottomUpOrder(actions);
      var after := Run(env, false, disk, run);
      && file in after.disk
      && EntriesOf(after.disk[file], list) ==
         Without(was, at, Aims(env, doc, actions, file, list))
         + (if Grows(doc, list) then Grown(env, doc, run, after.oks, file, list, was, at, {}, []) else [])
      && OksAgree(env, doc, run, file, list, was, at, after.oks)
  {
    var doc := disk[file];
    var was := EntriesOf(doc, list);
    var at := FirstAddress(doc);
    var run := InBottomUpOrder(actions);
    BottomUpKeepsLimits(env, doc, actions, file, list, EndAddress(was, at));
    BottomUpDescends(env, doc, actions, file, list);
    AimsOfBottomUp(env, doc, actions, file, list);
    NothingGone(was, at);
    RunOnList(env, disk, run, file, list, was, at, {}, []);
    assert {} + Aims(env, doc, actions, file, list) == Aims(env, doc, actions, file, list);
    if !Grows(doc, list) {
      GrownOnlyAtRuntime(env, doc, run, Run(env, false, disk, run).oks, file, list, was, at, {}, []);
    }
  }

  // ---------------------------------------------------------------- the report

  datatype AppliedFix = AppliedFix(rule: Rule, subject: Subject, file: string)

  datatype FixReport = FixReport(dryRun: bool, applied: seq<AppliedFix>, skipped: seq<Skip>, resolved: seq<nat>)

  function RuleOf(action: Action): Rule {
    match action
    case RemoveDependency(rule, _, _, _, _) => rule
    case MoveToRuntime(_, _, _, _) => Chk005
    case AddMissingDependency(_, _) => Chk003
    case RemoveFile(_) => Chk001
  }

  function SubjectOf(action: Action): Subject {
    if action.RemoveFile? then File(action.path) else Distribution(action.name)
  }

  function AppliedOf(action: Action): AppliedFix {
    AppliedFix(RuleOf(action), SubjectOf(action), FileOf(action))
  }

  function FailureOf(action: Action): Skip {
    Skip(RuleOf(action), SubjectOf(action), "unsupported-target", "")
  }

  function ActionsOf(planned: seq<PlannedFix>): seq<Action> {
    seq(|planned|, p requires 0 <= p < |planned| => planned[p].action)
  }

  /** The report after the first `n` plans, `oks` telling which succeeded. */
  function ReportOf(planned: seq<PlannedFix>, oks: seq<bool>, n: nat, start: FixReport): FixReport
    requires n <= |planned| && n <= |oks|
  {
    if n == 0 then start
    else
      var was := ReportOf(planned, oks, n - 1, start);
      var plan := planned[n - 1];
      if oks[n - 1] then
        was.(applied := was.applied + [AppliedOf(plan.action)],
             resolved := if start.dryRun then was.resolved else was.resolved + plan.issues)
      else was.(skipped := was.skipped + [FailureOf(plan.action)])
  }

  datatype Tried = Tried(index: nat, ok: bool)

  /** Insertion by plan index. */
  function InsertTried(sorted: seq<Tried>, t: Tried): seq<Tried> {
    if sorted == [] || t.index < sorted[0].index then [t] + sorted
    else [sorted[0]] + InsertTried(sorted[1..], t)
  }

  function SortTried(tried: seq<Tried>): seq<Tried> {
    if tried == [] then [] else InsertTried(SortTried(tried[1..]), tried[0])
  }

  ghost predicate IndexSorted(tried: seq<Tried>) {
    forall i, j :: 0 <= i < j < |tried| ==> tried[i].index < tried[j].index
  }

  lemma {:induction false} InsertTriedSorts(sorted: seq<Tried>, t: Tried)
    requires IndexSorted(sorted) && forall u :: u in sorted ==> u.index != t.index
    ensures IndexSorted(InsertTried(sorted, t)) && |InsertTried(sorted, t)| == |sorted| + 1
    ensures forall u :: u in InsertTried(sorted, t) <==> u in sorted || u == t
  {
    if sorted != [] && t.index >= sorted[0].index {
      assert sorted[0] in sorted;
      assert forall u :: u in sorted <==> u in sorted[1..] || u == sorted[0];
      InsertTriedSorts(sorted[1..], t);
      var rest := InsertTried(sorted[1..], t);
      forall j | 0 <= j < |rest| ensures sorted[0].index < rest[j].index {
        assert rest[j] in rest;
      }
    }
  }

  lemma {:induction false} SortTriedSorts(tried: seq<Tried>)
    requires forall i, j :: 0 <= i < j < |tried| ==> tried[i].index != tried[j].index
    ensures IndexSorted(SortTried(tried)) && |SortTried(tried)| == |tried|
    ensures forall u :: u in SortTried(tried) <==> u in tried
  {
    if tried != [] {
      SortTriedSorts(tried[1..]);
      forall u | u in tried[1..] ensures u.index != tried[0].index {
      }
      InsertTriedSorts(SortTried(tried[1..]), tried[0]);
      assert forall u :: u in tried <==> u in tried[1..] || u == tried[0];
    }
  }

  /** The outcomes of `order`'s edits, tagged with their plan index. */
  function Tagged(order: seq<nat>, oks: seq<bool>): seq<Tried>
    requires |order| == |oks|
  {
    seq(|order|, k requires 0 <= k < |order| => Tried(order[k], oks[k]))
  }

  function IndexOf(order: seq<nat>, p: nat): (k: nat)
    requires p in order
    ensures k < |order| && order[k] == p
  {
    if order[0] == p then 0 else IndexOf(order[1..], p) + 1
  }

  /** The outcomes from edit order to plan order. */
  function InPlanOrder(order: seq<nat>, oks: seq<bool>): (inPlan: seq<bool>)
    requires |order| == |oks| && forall p :: 0 <= p < |order| ==> p in order
    ensures |inPlan| == |oks|
  {
    seq(|order|, p requires 0 <= p < |order| && |order| == |oks| && p in order => oks[IndexOf(order, p)])
  }

  /** Sorting the outcomes by plan index puts each at its own plan. */
  lemma SortPutsOutcomesInPlanOrder(actions: seq<Action>, oks: seq<bool>)
    requires |oks| == |actions|
    ensures
      var order := BottomUp(actions, |actions|);
      var sorted := SortTried(Tagged(order, oks));
      |sorted| == |actions| && forall p :: 0 <= p < |actions| ==> sorted[p] == Tried(p, InPlanOrder(order, oks)[p])
  {
    var order := BottomUp(actions, |actions|);
    var tried := Tagged(order, oks);
    var sorted := SortTried(tried);
    BottomUpIsInOrder(actions, |actions|);
    SortTriedSorts(tried);
    forall p | 0 <= p < |sorted| ensures sorted[p].index < |sorted| {
      assert sorted[p] in tried;
    }
    SortedBelowLengthIsIdentity(sorted);
    forall p | 0 <= p < |sorted| ensures sorted[p].ok == InPlanOrder(order, oks)[p] {
      assert tried[IndexOf(order, p)] in sorted;
    }
  }

  lemma {:induction false} AtLeastItsPlace(sorted: seq<Tried>, p: nat)
    requires IndexSorted(sorted) && p < |sorted|
    ensures p <= sorted[p].index
  {
    if p > 0 {
      AtLeastItsPlace(sorted, p - 1);
    }
  }

  lemma {:induction false} AtMostItsPlace(sorted: seq<Tried>, p: nat)
    requires IndexSorted(sorted) && p < |sorted| && sorted[|sorted| - 1].index < |sorted|
    ensures sorted[p].index <= p
    decreases |sorted| - p
  {
    if p < |sorted| - 1 {
      AtMostItsPlace(sorted, p + 1);
    }
  }

  lemma SortedBelowLengthIsIdentity(sorted: seq<Tried>)
    requires IndexSorted(sorted) && forall p :: 0 <= p < |sorted| ==> sorted[p].index < |sorted|
    ensures forall p :: 0 <= p < |sorted| ==> sorted[p].index == p
  {
    forall p | 0 <= p < |sorted| ensures sorted[p].index == p {
      AtLeastItsPlace(sorted, p);
      AtMostItsPlace(sorted, p);
    }
  }

  /** Applies every planned edit bottom-up and reports in plan order. */
  method ApplyFixes(env: Env, dryRun: bool, disk: Disk, planned: seq<PlannedFix>, skipped: seq<Skip>)
    returns (report: FixReport, after: Disk)
    ensures
      var actions := ActionsOf(planned);
      var run := Run(env, dryRun, disk, InBottomUpOrder(actions));
      var inPlan := InPlanOrder(BottomUp(actions, |actions|), run.oks);
      && after == run.disk
      && report == ReportOf(planned, inPlan, |planned|, FixReport(dryRun, [], skipped, []))
  {
    var actions := ActionsOf(planned);
    var order := BottomUp(actions, |actions|);
    var outcomes;
    outcomes, after := ApplyAll(env, dryRun, disk, actions, order);
    ghost var oks := Run(env, dryRun, disk, InBottomUpOrder(actions)).oks;
    ghost var inPlan := InPlanOrder(order, oks);
    SortPutsOutcomesInPlanOrder(actions, oks);
    outcomes := SortTried(outcomes);
    report := FixReport(dryRun, [], skipped, []);
    for p := 0 to |outcomes|
      invariant report == ReportOf(planned, inPlan, p, FixReport(dryRun, [], skipped, []))
      invariant report.dryRun == dryRun
    {
      var plan := planned[outcomes[p].index];
      if outcomes[p].ok {
        if !dryRun {
          report := report.(resolved := report.resolved + plan.issues);
        }
        report := report.(applied := report.applied + [AppliedOf(plan.action)]);
      } else {
        report := report.(skipped := report.skipped + [FailureOf(plan.action)]);
      }
    }
  }

  method ApplyAll(env: Env, dryRun: bool, start: Disk, actions: seq<Action>, order: seq<nat>)
    returns (outcomes: seq<Tried>, disk: Disk)
    requires forall k :: 0 <= k < |order| ==> order[k] < |actions|
    ensures outcomes == Tagged(order, Run(env, dryRun, start, Arranged(actions, order)).oks)
    ensures disk == Run(env, dryRun, start, Arranged(actions, order)).disk
  {
    outcomes, disk := [], start;
    ghost var run := Arranged(actions, order);
    ghost var oks: seq<bool> := [];
    assert run[0..] == run;
    for k := 0 to |order|
      invariant |oks| == k && outcomes == Tagged(order[..k], oks)
      invariant oks + Run(env, dryRun, disk, run[k..]).oks == Run(env, dryRun, start, run).oks
      invariant Run(env, dryRun, disk, run[k..]).disk == Run(env, dryRun, start, run).disk
    {
      RunUnfolds(env, dryRun, disk, run, k);
      TaggedGrows(order, k, oks);
      var t := Attempt(env, dryRun, disk, actions[order[k]]);
      if t.Some? {
        disk := t.value;
      }
      outcomes := outcomes + [Tried(order[k], t.Some?)];
      Reassociate(oks, [t.Some?], Run(env, dryRun, disk, run[k + 1..]).oks);
      oks := oks + [t.Some?];
    }
    assert order[..|order|] == order && run[|order|..] == [];
    assert oks + [] == oks;
  }

  lemma RunUnfolds(env: Env, dryRun: bool, disk: Disk, run: seq<Action>, k: nat)
    requires k < |run|
    ensures
      var t := Attempt(env, dryRun, disk, run[k]);
      var rest := Run(env, dryRun, if t.Some? then t.value else disk, run[k + 1..]);
      Run(env, dryRun, disk, run[k..]) == Outcome(rest.disk, [t.Some?] + rest.oks)
  {
    assert run[k..][0] == run[k] && run[k..][1..] == run[k + 1..];
  }

  lemma TaggedGrows(order: seq<nat>, k: nat, oks: seq<bool>)
    requires k < |order| && |oks| == k
    ensures forall ok :: Tagged(order[..k + 1], oks + [ok]) == Tagged(order[..k], oks) + [Tried(order[k], ok)]
  {
  }

  // -------------------------------------------------- what the report promises

  /** The actions that succeeded, in plan order. */
  function Succeeded(planned: seq<PlannedFix>, oks: seq<bool>, n: nat): seq<PlannedFix>
    requires n <= |planned| && n <= |oks|
  {
    if n == 0 then [] else Succeeded(planned, oks, n - 1) + if oks[n - 1] then [planned[n - 1]] else []
  }

  ghost predicate ResolvedBy(planned: seq<PlannedFix>, oks: seq<bool>, n: nat, i: nat) {
    exists p :: 0 <= p < n && p < |planned| && p < |oks| && oks[p] && i in planned[p].issues
  }

  /** Issues are resolved once each, exactly when their action succeeded, and
      never on a dry run. */
  lemma {:induction false} ResolvedIssuesAreExact(
    decisions: seq<Decision>, planned: seq<PlannedFix>, oks: seq<bool>, n: nat, start: FixReport)
    requires Plans(decisions, planned) && |oks| == |planned| && n <= |planned| && start.resolved == []
    ensures var report := ReportOf(planned, oks, n, start);
      && report.dryRun == start.dryRun
      && Distinct(report.resolved)
      && (start.dryRun ==> report.resolved == [])
      && (!start.dryRun ==> forall i: nat :: i in report.resolved <==> ResolvedBy(planned, oks, n, i))
  {
    if n > 0 {
      ResolvedIssuesAreExact(decisions, planned, oks, n - 1, start);
      var was := ReportOf(planned, oks, n - 1, start);
      var plan := planned[n - 1];
      assert ListsItsIssues(decisions, plan);
      forall i: nat ensures ResolvedBy(planned, oks, n, i) <==>
        ResolvedBy(planned, oks, n - 1, i) || (oks[n - 1] && i in plan.issues) {
      }
      forall i: nat | i in plan.issues ensures !ResolvedBy(planned, oks, n - 1, i) {
        if p :| 0 <= p < n - 1 && oks[p] && i in planned[p].issues {
          IssueListsAreDisjoint(decisions, planned, p, n - 1, i);
        }
      }
      if !start.dryRun && oks[n - 1] {
        DistinctConcat(was.resolved, plan.issues);
      }
    }
  }

  lemma DistinctConcat(xs: seq<nat>, ys: seq<nat>)
    requires Distinct(xs) && Distinct(ys) && forall y :: y in ys ==> y !in xs
    ensures Distinct(xs + ys)
  {
    forall i, j | 0 <= i < j < |xs + ys| ensures (xs + ys)[i] != (xs + ys)[j] {
      if i < |xs| <= j {
        assert ys[j - |xs|] in ys && xs[i] in xs;
      }
    }
  }

  /** `applied` lists the successes, and nothing else, in plan order. */
  lemma {:induction false} AppliedIsInPlanOrder(planned: seq<PlannedFix>, oks: seq<bool>, n: nat, start: FixReport)
    requires |oks| == |planned| && n <= |planned| && start.applied == []
    ensures var done := Succeeded(planned, oks, n);
      ReportOf(planned, oks, n, start).applied == seq(|done|, k requires 0 <= k < |done| => AppliedOf(done[k].action))
  {
    if n > 0 {
      AppliedIsInPlanOrder(planned, oks, n - 1, start);
    }
  }

  /** The actions that failed, in plan order. */
  function Failed(planned: seq<PlannedFix>, oks: seq<bool>, n: nat): seq<Action>
    requires n <= |planned| && n <= |oks|
  {
    if n == 0 then [] else Failed(planned, oks, n - 1) + if oks[n - 1] then [] else [planned[n - 1].action]
  }

  /** `skipped` lists what the planner skipped and then, in plan order, each action
      that failed. */
  lemma {:induction false} SkippedIsThePlannersAndTheFailed(
    planned: seq<PlannedFix>, oks: seq<bool>, n: nat, start: FixReport)
    requires |oks| == |planned| && n <= |planned|
    ensures var failed := Failed(planned, oks, n);
      ReportOf(planned, oks, n, start).skipped ==
      start.skipped + seq(|failed|, k requires 0 <= k < |failed| =>
        Skip(RuleOf(failed[k]), SubjectOf(failed[k]), "unsupported-target", ""))
  {
    if n > 0 {
      SkippedIsThePlannersAndTheFailed(planned, oks, n - 1, start);
    }
  }

  /** Under which rule and subject an action is reported. */
  lemma ReportedAs(rule: Rule, name: string, file: string, tag: string, line: Option<nat>, raw: string)
    ensures AppliedOf(RemoveDependency(rule, name, file, tag, line)) == AppliedFix(rule, Distribution(name), file)
    ensures AppliedOf(MoveToRuntime(name, file, tag, raw)) == AppliedFix(Chk005, Distribution(name), file)
    ensures AppliedOf(AddMissingDependency(name, file)) == AppliedFix(Chk003, Distribution(name), file)
    ensures AppliedOf(RemoveFile(file)) == AppliedFix(Chk001, File(file), file)
  {
  }

  /** A dry run changes no file; it promises every action whose file the project
      contains, and those alone. */
  lemma {:induction false} DryRunTouchesNothing(env: Env, disk: Disk, actions: seq<Action>)
    ensures Run(env, true, disk, actions).disk == disk
    ensures forall k :: 0 <= k < |actions| ==>
      (Run(env, true, disk, actions).oks[k] <==>
       env.contained(if actions[k].RemoveFile? then actions[k].path else actions[k].file))
  {
    if actions != [] {
      DryRunTouchesNothing(env, disk, actions[1..]);
      forall k | 0 < k < |actions|
        ensures Run(env, true, disk, actions).oks[k] == Run(env, true, disk, actions[1..]).oks[k - 1]
      {
      }
      forall k | 0 < k < |actions| ensures actions[k] == actions[1..][k - 1] {
      }
    }
  }
}

/**
 Planning fixes: one action per distinct edit, with the issues it resolves.
 */
module FixPlan {
  import opened Common
  import opened Lists

  datatype Rule = Chk001 | Chk002 | Chk003 | Chk005 | Chk009

  datatype Subject = Distribution(name: string) | File(path: string)

  datatype Action =
    | RemoveDependency(rule: Rule, name: string, file: string, tag: string, line: Option<nat>)
    | MoveToRuntime(name: string, file: string, tag: string, raw: string)
    | AddMissingDependency(name: string, file: string)
    | RemoveFile(path: string)

  datatype Skip = Skip(rule: Rule, subject: Subject, reason: string, detail: string)

  /** What planning one issue yields. */
  datatype Decision = Act(action: Action) | Leave | Refuse(skip: Skip)

  datatype PlannedFix = PlannedFix(action: Action, issues: seq<nat>)

  function Refusals(decisions: seq<Decision>): seq<Skip> {
    if decisions == [] then []
    else
      var d := decisions[|decisions| - 1];
      Refusals(decisions[..|decisions| - 1]) + if d.Refuse? then [d.skip] else []
  }

  /** A plan's issue lists are non-empty, increasing, and hold exactly the issues
      that asked for that plan's action. */
  ghost predicate ListsItsIssues(decisions: seq<Decision>, plan: PlannedFix) {
    && |plan.issues| > 0
    && StrictlyIncreasing(plan.issues)
    && forall i: nat :: i in plan.issues <==> i < |decisions| && decisions[i] == Act(plan.action)
  }

  ghost predicate Plans(decisions: seq<Decision>, planned: seq<PlannedFix>) {
    && (forall p :: 0 <= p < |planned| ==> ListsItsIssues(decisions, planned[p]))
    && (forall i :: 0 <= i < |decisions| && decisions[i].Act? ==>
          exists p :: 0 <= p < |planned| && planned[p].action == decisions[i].action)
    && (forall p, q :: 0 <= p < q < |planned| ==>
          planned[p].action != planned[q].action && planned[p].issues[0] < planned[q].issues[0])
  }

  method PlanFixes(decisions: seq<Decision>) returns (planned: seq<PlannedFix>, skipped: seq<Skip>)
    ensures Plans(decisions, planned)
    ensures skipped == Dedup(Refusals(decisions))
  {
    planned, skipped := [], [];
    for index := 0 to |decisions|
      invariant Plans(decisions[..index], planned)
      invariant skipped == Dedup(Refusals(decisions[..index]))
    {
      ghost var seen := decisions[..index];
      assert decisions[..index + 1] == seen + [decisions[index]];
      RefusalsStep(seen, decisions[index]);
      match decisions[index] {
        case Act(action) =>
          planned := Record(seen, planned, action, index);
        case Leave =>
          NoPlan(seen, planned, decisions[index]);
        case Refuse(skip) =>
          NoPlan(seen, planned, decisions[index]);
          if skip !in skipped {
            skipped := skipped + [skip];
          }
      }
    }
    assert decisions[..|decisions|] == decisions;
  }

  /** Joins the plan of the same action, or starts a new one. */
  method Record(ghost seen: seq<Decision>, planned: seq<PlannedFix>, action: Action, index: nat)
    returns (after: seq<PlannedFix>)
    requires Plans(seen, planned) && index == |seen|
    ensures Plans(seen + [Act(action)], after)
  {
    var at := Find(planned, action);
    if at < |planned| {
      JoinPlan(seen, planned, action, at);
      after := planned[at := planned[at].(issues := planned[at].issues + [index])];
    } else {
      NewPlan(seen, planned, action);
      after := planned + [PlannedFix(action, [index])];
    }
  }

  method Find(planned: seq<PlannedFix>, action: Action) returns (at: nat)
    ensures at <= |planned|
    ensures at < |planned| ==> planned[at].action == action
    ensures forall p :: 0 <= p < at ==> planned[p].action != action
  {
    at := 0;
    while at < |planned| && planned[at].action != action
      invariant at <= |planned|
      invariant forall p :: 0 <= p < at ==> planned[p].action != action
    {
      at := at + 1;
    }
  }

  lemma RefusalsStep(seen: seq<Decision>, d: Decision)
    ensures Dedup(Refusals(seen + [d])) ==
            var was := Dedup(Refusals(seen));
            if d.Refuse? && d.skip !in was then was + [d.skip] else was
  {
    assert (seen + [d])[..|seen|] == seen;
    if d.Refuse? {
      DedupStep(Refusals(seen), d.skip);
    } else {
      assert Refusals(seen) + [] == Refusals(seen);
    }
  }

  lemma ListingGrows(seen: seq<Decision>, d: Decision, plan: PlannedFix)
    requires ListsItsIssues(seen, plan)
    ensures d != Act(plan.action) ==> ListsItsIssues(seen + [d], plan)
    ensures d == Act(plan.action) ==> ListsItsIssues(seen + [d], plan.(issues := plan.issues + [|seen|]))
  {
    var after := if d == Act(plan.action) then plan.(issues := plan.issues + [|seen|]) else plan;
    forall i: nat ensures i in after.issues <==> i < |seen + [d]| && (seen + [d])[i] == Act(plan.action) {
      assert i in after.issues <==> i in plan.issues || (d == Act(plan.action) && i == |seen|);
    }
    forall k | 0 <= k < |plan.issues| ensures plan.issues[k] < |seen| {
      assert plan.issues[k] in plan.issues;
    }
  }

  lemma NoPlan(seen: seq<Decision>, planned: seq<PlannedFix>, d: Decision)
    requires Plans(seen, planned) && !d.Act?
    ensures Plans(seen + [d], planned)
  {
    forall p | 0 <= p < |planned| ensures ListsItsIssues(seen + [d], planned[p]) {
      ListingGrows(seen, d, planned[p]);
    }
  }

  lemma JoinPlan(seen: seq<Decision>, planned: seq<PlannedFix>, action: Action, at: nat)
    requires Plans(seen, planned) && at < |planned| && planned[at].action == action
    ensures Plans(seen + [Act(action)], planned[at := planned[at].(issues := planned[at].issues + [|seen|])])
  {
    var d := Act(action);
    var after := planned[at := planned[at].(issues := planned[at].issues + [|seen|])];
    forall p | 0 <= p < |after| ensures ListsItsIssues(seen + [d], after[p]) {
      ListingGrows(seen, d, planned[p]);
    }
    forall i | 0 <= i < |seen + [d]| && (seen + [d])[i].Act?
      ensures exists p :: 0 <= p < |after| && after[p].action == (seen + [d])[i].action
    {
      if i < |seen| {
        var p :| 0 <= p < |planned| && planned[p].action == seen[i].action;
        assert after[p].action == (seen + [d])[i].action;
      } else {
        assert after[at].action == action;
      }
    }
  }

  lemma NewPlan(seen: seq<Decision>, planned: seq<PlannedFix>, action: Action)
    requires Plans(seen, planned)
    requires forall p :: 0 <= p < |planned| ==> planned[p].action != action
    ensures Plans(seen + [Act(action)], planned + [PlannedFix(action, [|seen|])])
  {
    var d := Act(action);
    var fix := PlannedFix(action, [|seen|]);
    var after := planned + [fix];
    forall p | 0 <= p < |planned| ensures ListsItsIssues(seen + [d], planned[p]) && planned[p].issues[0] < |seen| {
      ListingGrows(seen, d, planned[p]);
      assert planned[p].issues[0] in planned[p].issues;
    }
    forall i | 0 <= i < |seen| && seen[i].Act? ensures seen[i].action != action {
      var p :| 0 <= p < |planned| && planned[p].action == seen[i].action;
    }
    forall i: nat ensures i in fix.issues <==> i < |seen + [d]| && (seen + [d])[i] == Act(action) {
    }
    forall i | 0 <= i < |seen + [d]| && (seen + [d])[i].Act?
      ensures exists p :: 0 <= p < |after| && after[p].action == (seen + [d])[i].action
    {
      if i < |seen| {
        var p :| 0 <= p < |planned| && planned[p].action == seen[i].action;
        assert after[p].action == (seen + [d])[i].action;
      } else {
        assert after[|planned|].action == action;
      }
    }
  }

  /** No issue is resolved by two actions. */
  lemma IssueListsAreDisjoint(decisions: seq<Decision>, planned: seq<PlannedFix>, p: nat, q: nat, i: nat)
    requires Plans(decisions, planned) && p < q < |planned|
    ensures !(i in planned[p].issues && i in planned[q].issues)
  {
    assert ListsItsIssues(decisions, planned[p]) && ListsItsIssues(decisions, planned[q]);
  }

  /** Together the lists hold exactly the issues that yield an action. */
  lemma IssueListsCoverTheActions(decisions: seq<Decision>, planned: seq<PlannedFix>, i: nat)
    requires Plans(decisions, planned)
    ensures (exists p :: 0 <= p < |planned| && i in planned[p].issues) <==> i < |decisions| && decisions[i].Act?
  {
    if i < |decisions| && decisions[i].Act? {
      var p :| 0 <= p < |planned| && planned[p].action == decisions[i].action;
      assert ListsItsIssues(decisions, planned[p]);
    }
    if p :| 0 <= p < |planned| && i in planned[p].issues {
      assert ListsItsIssues(decisions, planned[p]);
    }
  }

  /** The properties leave no choice: they determine the plan. */
  lemma {:induction false} PlansIsCanonical(decisions: seq<Decision>, a: seq<PlannedFix>, b: seq<PlannedFix>)
    requires Plans(decisions, a) && Plans(decisions, b)
    ensures a == b
  {
    SamePrefix(decisions, a, b, |a|);
    SamePrefix(decisions, b, a, |b|);
    assert a[..|a|] == a && b[..|b|] == b;
  }

  /** A plan of one list occurs in the other. */
  lemma Located(decisions: seq<Decision>, plan: PlannedFix, other: seq<PlannedFix>) returns (q: nat)
    requires ListsItsIssues(decisions, plan) && Plans(decisions, other)
    ensures q < |other| && other[q] == plan
  {
    var i := plan.issues[0];
    assert i in plan.issues;
    q :| 0 <= q < |other| && other[q].action == decisions[i].action;
    assert ListsItsIssues(decisions, other[q]);
    forall i: nat ensures i in plan.issues <==> i in other[q].issues {
    }
    IncreasingIsCanonical(plan.issues, other[q].issues);
  }

  lemma {:induction false} IncreasingIsCanonical(xs: seq<nat>, ys: seq<nat>)
    requires StrictlyIncreasing(xs) && StrictlyIncreasing(ys)
    requires forall i: nat :: i in xs <==> i in ys
    ensures xs == ys
  {
    assert xs == [] || xs[0] in xs;
    assert ys == [] || ys[0] in ys;
    if xs != [] && ys != [] {
      assert xs[0] in ys && ys[0] in xs;
      assert xs[0] == ys[0];
      forall i: nat ensures i in xs[1..] <==> i in ys[1..] {
        assert i in xs[1..] <==> i in xs && i != xs[0];
        assert i in ys[1..] <==> i in ys && i != ys[0];
      }
      IncreasingIsCanonical(xs[1..], ys[1..]);
    }
  }

  lemma {:induction false} SamePrefix(decisions: seq<Decision>, a: seq<PlannedFix>, b: seq<PlannedFix>, n: nat)
    requires Plans(decisions, a) && Plans(decisions, b) && n <= |a|
    ensures n <= |b| && a[..n] == b[..n]
  {
    if n > 0 {
      var p := n - 1;
      SamePrefix(decisions, a, b, p);
      forall j | 0 <= j < p && j < |b| ensures b[j].action != a[p].action {
        assert a[..p][j] == b[..p][j];
      }
      var q := Located(decisions, a[p], b);
      forall j | 0 <= j < p ensures a[j].action != b[p].action {
        assert a[..p][j] == b[..p][j];
      }
      var r := Located(decisions, b[p], a);
      assert q == p;
      assert a[..n] == a[..p] + [a[p]] && b[..n] == b[..p] + [b[p]];
    }
  }
}

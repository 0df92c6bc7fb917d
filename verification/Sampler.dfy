/**
 Sampling findings to label: one per project and round, up to a quota per project
 and a total. Projects are numbered in slug order; a project's queue is its unlabelled
 targets in hash order.

 After so many full rounds and so many projects of the next, each project has given as
 many picks as there were rounds, or all it can give if that is less. The loop is
 proved against this closed form: the picks of a project are always a prefix of its
 queue, two projects that could both give more differ by one pick at most, and the loop
 ends when the total is met or nobody has anything left to give.
 */
module Sampler {
  import opened Common

  datatype Pick = Pick(project: nat, target: string)

  /** How many picks a project can give: what is queued, within its quota. */
  function AvailableFrom(queue: seq<string>, labelled: nat, quota: int): nat {
    Min(|queue|, if labelled < quota then quota - labelled else 0)
  }

  /** It can give `n` when so many are queued and the quota is not overrun. */
  lemma AvailableIsTheMost(queue: seq<string>, labelled: nat, quota: int, n: nat)
    ensures n <= AvailableFrom(queue, labelled, quota) <==> n <= |queue| && (n == 0 || labelled + n <= quota)
  {
  }

  function Available(queues: seq<seq<string>>, labelled: seq<nat>, quota: int): seq<nat>
    requires |queues| == |labelled|
  {
    seq(|queues|, i requires 0 <= i < |queues| && |queues| == |labelled| =>
      AvailableFrom(queues[i], labelled[i], quota))
  }

  function Sum(xs: seq<nat>): nat {
    if xs == [] then 0 else Sum(xs[..|xs| - 1]) + xs[|xs| - 1]
  }

  // ------------------------------------------------------------ the closed form

  /** Picks per project after `round` full rounds and the first `cut` projects of
      the next. */
  function Levels(avail: seq<nat>, round: nat, cut: nat): (levels: seq<nat>)
    ensures |levels| == |avail|
    ensures forall i :: 0 <= i < |avail| ==> levels[i] == Min(if i < cut then round + 1 else round, avail[i])
  {
    seq(|avail|, i requires 0 <= i < |avail| => Min(if i < cut then round + 1 else round, avail[i]) as nat)
  }

  ghost predicate Fits(queues: seq<seq<string>>, avail: seq<nat>) {
    |queues| == |avail| && forall i :: 0 <= i < |avail| ==> avail[i] <= |queues[i]|
  }

  /** All picks of the rounds before `t`, then round `t` up to project `s`: the
      next target of each project that has one. */
  ghost function AllPicks(queues: seq<seq<string>>, avail: seq<nat>, t: nat, s: nat): seq<Pick>
    requires Fits(queues, avail) && s <= |avail|
    decreases t, s
  {
    if s > 0 then
      AllPicks(queues, avail, t, s - 1) + if t < avail[s - 1] then [Pick(s - 1, queues[s - 1][t])] else []
    else if t > 0 then AllPicks(queues, avail, t - 1, |avail|)
    else []
  }

  lemma AllPicksStep(queues: seq<seq<string>>, avail: seq<nat>, t: nat, s: nat)
    requires Fits(queues, avail) && s < |avail|
    ensures AllPicks(queues, avail, t, s + 1) ==
            AllPicks(queues, avail, t, s) + if t < avail[s] then [Pick(s, queues[s][t])] else []
  {
  }

  lemma AllPicksNextRound(queues: seq<seq<string>>, avail: seq<nat>, t: nat)
    requires Fits(queues, avail)
    ensures AllPicks(queues, avail, t + 1, 0) == AllPicks(queues, avail, t, |avail|)
    ensures Levels(avail, t + 1, 0) == Levels(avail, t, |avail|)
  {
  }

  lemma LevelsStep(avail: seq<nat>, t: nat, s: nat)
    requires s < |avail|
    ensures Levels(avail, t, s + 1) == Levels(avail, t, s)[s := Levels(avail, t, s)[s] + if t < avail[s] then 1 else 0]
  {
  }

  lemma {:induction false} SumUpdate(xs: seq<nat>, i: nat, v: nat)
    requires i < |xs|
    ensures Sum(xs[i := v]) == Sum(xs) - xs[i] + v
  {
    var n := |xs| - 1;
    if i == n {
      assert xs[i := v][..n] == xs[..n];
    } else {
      SumUpdate(xs[..n], i, v);
      assert xs[i := v][..n] == xs[..n][i := v];
    }
  }

  lemma {:induction false} SumAtMost(xs: seq<nat>, ys: seq<nat>)
    requires |xs| == |ys| && forall i :: 0 <= i < |xs| ==> xs[i] <= ys[i]
    ensures Sum(xs) <= Sum(ys)
  {
    if xs != [] {
      SumAtMost(xs[..|xs| - 1], ys[..|ys| - 1]);
    }
  }

  lemma {:induction false} SumOfNothing(avail: seq<nat>)
    ensures Sum(Levels(avail, 0, 0)) == 0
  {
    if avail != [] {
      SumOfNothing(avail[..|avail| - 1]);
      assert Levels(avail, 0, 0)[..|avail| - 1] == Levels(avail[..|avail| - 1], 0, 0);
    }
  }

  lemma StepAddsUp(queues: seq<seq<string>>, avail: seq<nat>, t: nat, s: nat)
    requires Fits(queues, avail) && s < |avail|
    requires |AllPicks(queues, avail, t, s)| == Sum(Levels(avail, t, s))
    ensures |AllPicks(queues, avail, t, s + 1)| == Sum(Levels(avail, t, s + 1))
  {
    var levels := Levels(avail, t, s);
    LevelsStep(avail, t, s);
    SumUpdate(levels, s, levels[s] + if t < avail[s] then 1 else 0);
  }

  /** There are as many picks as the levels add up to. */
  lemma {:induction false} PicksAddUp(queues: seq<seq<string>>, avail: seq<nat>, t: nat, s: nat)
    requires Fits(queues, avail) && s <= |avail|
    ensures |AllPicks(queues, avail, t, s)| == Sum(Levels(avail, t, s))
    decreases t, s
  {
    if s > 0 {
      PicksAddUp(queues, avail, t, s - 1);
      StepAddsUp(queues, avail, t, s - 1);
    } else if t > 0 {
      PicksAddUp(queues, avail, t - 1, |avail|);
      AllPicksNextRound(queues, avail, t - 1);
    } else {
      SumOfNothing(avail);
    }
  }

  /** What was picked from one project, in order. */
  function From(picked: seq<Pick>, project: nat): seq<string> {
    if picked == [] then []
    else
      var last := picked[|picked| - 1];
      From(picked[..|picked| - 1], project) + if last.project == project then [last.target] else []
  }

  lemma FromStep(picked: seq<Pick>, p: Pick, project: nat)
    ensures From(picked + [p], project) == From(picked, project) + if p.project == project then [p.target] else []
  {
    assert (picked + [p])[..|picked|] == picked;
  }

  ghost predicate IsPrefix(queues: seq<seq<string>>, avail: seq<nat>, t: nat, s: nat, project: nat)
    requires Fits(queues, avail) && s <= |avail| && project < |avail|
  {
    var n := Levels(avail, t, s)[project];
    n <= |queues[project]| && From(AllPicks(queues, avail, t, s), project) == queues[project][..n]
  }

  lemma PrefixStep(queues: seq<seq<string>>, avail: seq<nat>, t: nat, s: nat, project: nat)
    requires Fits(queues, avail) && s < |avail| && project < |avail|
    requires IsPrefix(queues, avail, t, s, project)
    ensures IsPrefix(queues, avail, t, s + 1, project)
  {
    var was := AllPicks(queues, avail, t, s);
    AllPicksStep(queues, avail, t, s);
    if t < avail[s] {
      FromStep(was, Pick(s, queues[s][t]), project);
      if project == s {
        assert queues[s][..t + 1] == queues[s][..t] + [queues[s][t]];
      } else {
        assert From(was, project) + [] == From(was, project);
      }
    } else {
      assert was + [] == was;
    }
  }

  lemma PrefixAtStart(queues: seq<seq<string>>, avail: seq<nat>, project: nat)
    requires Fits(queues, avail) && project < |avail|
    ensures IsPrefix(queues, avail, 0, 0, project)
  {
  }

  lemma PrefixNextRound(queues: seq<seq<string>>, avail: seq<nat>, t: nat, project: nat)
    requires Fits(queues, avail) && project < |avail|
    requires IsPrefix(queues, avail, t, |avail|, project)
    ensures IsPrefix(queues, avail, t + 1, 0, project)
  {
    AllPicksNextRound(queues, avail, t);
  }

  /** Each project's picks are the start of its hash order. */
  lemma {:induction false} PicksArePrefixes(queues: seq<seq<string>>, avail: seq<nat>, t: nat, s: nat, project: nat)
    requires Fits(queues, avail) && s <= |avail| && project < |avail|
    ensures IsPrefix(queues, avail, t, s, project)
    decreases t, s
  {
    if s > 0 {
      PicksArePrefixes(queues, avail, t, s - 1, project);
      PrefixStep(queues, avail, t, s - 1, project);
    } else if t > 0 {
      PicksArePrefixes(queues, avail, t - 1, |avail|, project);
      PrefixNextRound(queues, avail, t - 1, project);
    } else {
      PrefixAtStart(queues, avail, project);
    }
  }

  // ---------------------------------------------------------------- the loop

  /** A project gives a pick in round `t` exactly when more than `t` are available. */
  lemma GivesExactlyWhen(queue: seq<string>, labelled: nat, quota: int, t: nat)
    ensures var used := Min(t, AvailableFrom(queue, labelled, quota));
      (labelled + used < quota && used < |queue|) <==> t < AvailableFrom(queue, labelled, quota)
  {
  }

  /** The iterators and counters stand at the levels, the picks are those so far. */
  ghost predicate InStep(
    queues: seq<seq<string>>, labelled: seq<nat>, avail: seq<nat>,
    state: State, round: nat, cut: nat)
  {
    && Fits(queues, avail) && cut <= |avail|
    && |labelled| == |avail| == |state.taken|
    && state.used == Levels(avail, round, cut)
    && (forall i :: 0 <= i < |avail| ==> state.taken[i] == labelled[i] + state.used[i])
    && state.picked == AllPicks(queues, avail, round, cut)
  }

  /** `used` are the positions of the iterators. */
  datatype State = State(used: seq<int>, taken: seq<int>, picked: seq<Pick>)

  /** The project's turn: it gives a pick if its quota and queue allow. */
  method TakeTurn(
    queues: seq<seq<string>>, ghost labelled: seq<nat>, quota: int, state: State, s: nat, ghost round: nat)
    returns (after: State, took: bool)
    requires |labelled| == |queues| && s < |queues|
    requires InStep(queues, labelled, Available(queues, labelled, quota), state, round, s)
    ensures InStep(queues, labelled, Available(queues, labelled, quota), after, round, s + 1)
    ensures |after.picked| == |state.picked| + if took then 1 else 0
    ensures took <==> round < Available(queues, labelled, quota)[s]
  {
    ghost var avail := Available(queues, labelled, quota);
    AllPicksStep(queues, avail, round, s);
    LevelsStep(avail, round, s);
    GivesExactlyWhen(queues[s], labelled[s], quota, round);
    took := state.taken[s] < quota && state.used[s] < |queues[s]|;
    after := state;
    if took {
      after := State(
        state.used[s := state.used[s] + 1],
        state.taken[s := state.taken[s] + 1],
        state.picked + [Pick(s, queues[s][state.used[s]])]);
    }
  }

  /** One round over the projects, giving up turns once the total is met. */
  method RunRound(
    queues: seq<seq<string>>, ghost labelled: seq<nat>, total: int, quota: int,
    start: State, count: nat, ghost round: nat)
    returns (state: State, have: nat, ghost cut: nat)
    requires |labelled| == |queues| && count < total
    requires InStep(queues, labelled, Available(queues, labelled, quota), start, round, 0)
    requires count == Sum(labelled) + |start.picked|
    ensures InStep(queues, labelled, Available(queues, labelled, quota), state, round, cut)
    ensures have == Sum(labelled) + |state.picked| && count <= have <= total
    ensures have < total ==> cut == |queues|
    ensures have == count ==> forall i :: 0 <= i < |queues| ==> Available(queues, labelled, quota)[i] <= round
  {
    state, have, cut := start, count, 0;
    for s := 0 to |queues|
      invariant InStep(queues, labelled, Available(queues, labelled, quota), state, round, cut)
      invariant have == Sum(labelled) + |state.picked| && count <= have <= total
      invariant have < total ==> cut == s
      invariant have == count ==> forall i :: 0 <= i < s ==> Available(queues, labelled, quota)[i] <= round
    {
      if have < total {
        var took;
        state, took := TakeTurn(queues, labelled, quota, state, s, round);
        cut := cut + 1;
        if took {
          have := have + 1;
        }
      }
    }
  }

  lemma FinalCount(
    queues: seq<seq<string>>, labelled: seq<nat>, avail: seq<nat>, total: int, have: nat, round: nat, cut: nat)
    requires Fits(queues, avail) && cut <= |avail|
    requires have == Sum(labelled) + |AllPicks(queues, avail, round, cut)|
    requires Sum(labelled) < total ==> have <= total
    requires Sum(labelled) >= total ==> have == Sum(labelled)
    requires have < total ==> Levels(avail, round, cut) == avail
    ensures have == if Sum(labelled) >= total then Sum(labelled) else Min(total, Sum(labelled) + Sum(avail))
  {
    PicksAddUp(queues, avail, round, cut);
    SumAtMost(Levels(avail, round, cut), avail);
  }

  /** The picks are the closed form's at some point of some round. */
  ghost predicate IsSample(queues: seq<seq<string>>, avail: seq<nat>, picked: seq<Pick>) {
    Fits(queues, avail) && exists round: nat, cut: nat ::
      cut <= |avail| && picked == AllPicks(queues, avail, round, cut)
  }

  /** The picks stop at the total, or when no project has one left to give. */
  method SampleFindings(queues: seq<seq<string>>, labelled: seq<nat>, total: int, quota: int)
    returns (picked: seq<Pick>, have: nat)
    requires |queues| == |labelled|
    ensures IsSample(queues, Available(queues, labelled, quota), picked)
    ensures have == Sum(labelled) + |picked|
    ensures have == if Sum(labelled) >= total then Sum(labelled)
                    else Min(total, Sum(labelled) + Sum(Available(queues, labelled, quota)))
  {
    ghost var avail := Available(queues, labelled, quota);
    have := SumOf(labelled);
    var state := State(Zeros(|queues|), labelled, []);
    ghost var round: nat, cut: nat := 0, 0;
    assert state.used == Levels(avail, 0, 0);
    while have < total
      invariant InStep(queues, labelled, avail, state, round, cut)
      invariant have == Sum(labelled) + |state.picked|
      invariant Sum(labelled) < total ==> have <= total
      invariant Sum(labelled) >= total ==> have == Sum(labelled)
      invariant have < total ==> cut == 0
      decreases total - have
    {
      var before := have;
      state, have, cut := RunRound(queues, labelled, total, quota, state, have, round);
      if have == before {
        assert Levels(avail, round, cut) == avail;
        break;
      }
      if have < total {
        AllPicksNextRound(queues, avail, round);
        round, cut := round + 1, 0;
      }
    }
    FinalCount(queues, labelled, avail, total, have, round, cut);
    picked := state.picked;
  }

  /** A sample takes each project's picks from the start of its hash order, never
      more than it may give, and projects that could give more differ by at most
      one pick. */
  lemma SamplesAreFairPrefixes(queues: seq<seq<string>>, avail: seq<nat>, picked: seq<Pick>, i: nat, j: nat)
    requires IsSample(queues, avail, picked) && i < |avail| && j < |avail|
    ensures From(picked, i) <= queues[i] && |From(picked, i)| <= avail[i]
    ensures |From(picked, i)| < avail[i] && |From(picked, j)| < avail[j] ==> |From(picked, i)| <= |From(picked, j)| + 1
  {
    var round: nat, cut: nat :| cut <= |avail| && picked == AllPicks(queues, avail, round, cut);
    PicksArePrefixes(queues, avail, round, cut, i);
    PicksArePrefixes(queues, avail, round, cut, j);
  }

  function Zeros(n: nat): (zeros: seq<int>)
    ensures |zeros| == n && forall i :: 0 <= i < n ==> zeros[i] == 0
  {
    if n == 0 then [] else Zeros(n - 1) + [0]
  }

  method SumOf(xs: seq<nat>) returns (sum: nat)
    ensures sum == Sum(xs)
  {
    sum := 0;
    for i := 0 to |xs|
      invariant sum == Sum(xs[..i])
    {
      assert xs[..i + 1][..i] == xs[..i];
      sum := sum + xs[i];
    }
    assert xs[..|xs|] == xs;
  }
}

/** The simplification driver (collapseRandomEdges) as a function over a
    graph snapshot. The random number generator is a parameter: `rand(k)` is
    the value of the k-th call to rand(). */
module Driver {
  import opened MeshTypes
  import opened Walker
  import opened EdgeCollapse

  /** The number of consecutive rejected draws after which the driver gives
      up: it returns on the rejection that finds the counter above it. */
  const MaxTimeout: nat := 10000

  /** Why the driver stopped: the face count is at most the target, the
      rejection counter ran out, or there was no live half-edge left to draw
      (the source divides by zero there). */
  datatype StopReason = Reached | Stagnated | NoEdges

  /** The driver's outcome: the final graph, the half-edges it collapsed in
      order, the number of random draws it used, and why it stopped. */
  datatype Outcome = Outcome(g: Graph, collapsed: seq<int>, draws: nat, reason: StopReason)

  /** The loop test `HEF.size() > faceCnt`: the signed target is converted
      to the unsigned type of the size, so a negative target is larger than
      any size and the loop does not run. */
  predicate AboveTarget(g: Graph, target: int)
  {
    target >= 0 && |g.hef| > target
  }

  /** The half-edge `advance(HEE.begin(), k)` names: the k-th live
      half-edge in increasing handle order. */
  function Pick(g: Graph, k: int): (e: int)
    requires WellFormed(g) && 0 <= k < |g.hee|
    ensures e in g.hee
  {
    var live := Ascending(g.hee, |g.halfEdges|);
    AscendingCount(g.hee, |g.halfEdges|);
    assert Below(g.hee, |g.halfEdges|) == g.hee;
    AscendingSpec(g.hee, |g.halfEdges|);
    live[k]
  }

  /** A collapse removes at least the collapsed half-edge from HEE. */
  lemma CollapseShrinks(g: Graph, e: int, rule: RepairRule)
    requires CollapseReady(g, e)
    ensures var r := Collapse(g, e, rule);
      r.hee < g.hee && |r.hee| < |g.hee| && r.hev <= g.hev && r.hef <= g.hef
  {
    assert e in g.hee && e !in Collapse(g, e, rule).hee;
    StrictSubsetSmaller(Collapse(g, e, rule).hee, g.hee);
  }

  /** collapseRandomEdges from the point where `draws` numbers have been
      drawn and the rejection counter is `timeout`: while the face count is
      above the target, draw a live half-edge; collapse it if canEdgeCollapse
      accepts it (and reset the counter), otherwise give up when the counter
      is above MaxTimeout, or count the rejection. */
  function Run(g: Graph, target: int, rand: nat -> nat, draws: nat, timeout: nat, rule: RepairRule): (r: Outcome)
    requires WellFormed(g) && timeout <= MaxTimeout + 1
    decreases |g.hee|, MaxTimeout + 1 - timeout
  {
    if !AboveTarget(g, target) then Outcome(g, [], draws, Reached)
    else if |g.hee| == 0 then Outcome(g, [], draws, NoEdges)
    else
      var e := Drawn(g, rand, draws);
      if CanCollapse(g, e) then
        CanCollapseReady(g, e);
        CollapseWellFormed(g, e, rule);
        CollapseShrinks(g, e, rule);
        var r := Run(Collapse(g, e, rule), target, rand, draws + 1, 0, rule);
        r.(collapsed := [e] + r.collapsed)
      else if timeout > MaxTimeout then Outcome(g, [], draws + 1, Stagnated)
      else Run(g, target, rand, draws + 1, timeout + 1, rule)
  }

  /** collapseRandomEdges(faceCnt) from its start. */
  function CollapseRandomEdges(g: Graph, target: int, rand: nat -> nat, rule: RepairRule): Outcome
    requires WellFormed(g)
  {
    Run(g, target, rand, 0, 0, rule)
  }

  /** `es` is a sequence of collapses that canEdgeCollapse accepts one
      after the other, leading from g to `last`. */
  predicate Replays(g: Graph, es: seq<int>, rule: RepairRule, last: Graph)
    requires WellFormed(g)
    decreases |es|
  {
    if es == [] then last == g
    else
      && 0 <= es[0] < |g.halfEdges|
      && CanCollapse(g, es[0])
      && (CanCollapseReady(g, es[0]);
          CollapseWellFormed(g, es[0], rule);
          Replays(Collapse(g, es[0], rule), es[1..], rule, last))
  }

  /** The draw at a given point of the run. */
  function Drawn(g: Graph, rand: nat -> nat, draws: nat): int
    requires WellFormed(g) && |g.hee| > 0
  {
    Pick(g, rand(draws) % |g.hee|)
  }

  /** With no live half-edge left to draw, the run stops where it is. */
  lemma RunNoEdges(g: Graph, target: int, rand: nat -> nat, draws: nat, timeout: nat, rule: RepairRule)
    requires WellFormed(g) && timeout <= MaxTimeout + 1 && AboveTarget(g, target) && |g.hee| == 0
    ensures Run(g, target, rand, draws, timeout, rule) == Outcome(g, [], draws, NoEdges)
  {
  }

  /** A rejected draw: the run stops where it is once the counter is above
      MaxTimeout, and otherwise ends where the run with one more draw and
      one more rejection ends. */
  lemma RejectEnds(g: Graph, target: int, rand: nat -> nat, draws: nat, timeout: nat, rule: RepairRule)
    requires WellFormed(g) && timeout <= MaxTimeout + 1 && AboveTarget(g, target) && |g.hee| > 0
    requires !CanCollapse(g, Drawn(g, rand, draws))
    ensures timeout > MaxTimeout ==> Run(g, target, rand, draws, timeout, rule).g == g
    ensures timeout <= MaxTimeout ==>
      Run(g, target, rand, draws + 1, timeout + 1, rule).g == Run(g, target, rand, draws, timeout, rule).g
  {
    RunRejects(g, target, rand, draws, timeout, rule);
  }

  /** A counted rejection in front of a run with outcome o has outcome o;
      d1 and t1 are the draw count and counter after the rejection. */
  lemma RejectedOutcome(g: Graph, target: int, rand: nat -> nat, draws: nat, timeout: nat, rule: RepairRule, o: Outcome, d1: nat, t1: nat)
    requires WellFormed(g) && timeout <= MaxTimeout && AboveTarget(g, target) && |g.hee| > 0
    requires d1 == draws + 1 && t1 == timeout + 1
    requires !CanCollapse(g, Drawn(g, rand, draws))
    requires Run(g, target, rand, d1, t1, rule) == o
    ensures Run(g, target, rand, draws, timeout, rule) == o
  {
    RunRejects(g, target, rand, draws, timeout, rule);
  }

  lemma RunAccepts(g: Graph, target: int, rand: nat -> nat, draws: nat, timeout: nat, rule: RepairRule)
    requires WellFormed(g) && timeout <= MaxTimeout + 1 && AboveTarget(g, target) && |g.hee| > 0
    requires CanCollapse(g, Drawn(g, rand, draws))
    ensures var e := Drawn(g, rand, draws);
      && CollapseReady(g, e)
      && WellFormed(Collapse(g, e, rule))
      && Collapse(g, e, rule).hee < g.hee
      && var r := Run(Collapse(g, e, rule), target, rand, draws + 1, 0, rule);
         Run(g, target, rand, draws, timeout, rule) == r.(collapsed := [e] + r.collapsed)
  {
    var e := Drawn(g, rand, draws);
    CanCollapseReady(g, e);
    CollapseWellFormed(g, e, rule);
    CollapseShrinks(g, e, rule);
  }

  /** A rejected draw: the run gives up or counts the rejection. */
  lemma RunRejects(g: Graph, target: int, rand: nat -> nat, draws: nat, timeout: nat, rule: RepairRule)
    requires WellFormed(g) && timeout <= MaxTimeout + 1 && AboveTarget(g, target) && |g.hee| > 0
    requires !CanCollapse(g, Drawn(g, rand, draws))
    ensures Run(g, target, rand, draws, timeout, rule) ==
      if timeout > MaxTimeout then Outcome(g, [], draws + 1, Stagnated)
      else Run(g, target, rand, draws + 1, timeout + 1, rule)
  {
  }

  /** What the driver promises about an outcome r of a run from g that had
      made `draws` draws: the final graph is the result of the collapses r
      reports, each accepted by canEdgeCollapse when it was made; the
      collections only shrink, by at least one half-edge per collapse; and
      the run stops at the target, on the rejection counter, or on an empty
      HEE, the last two only above the target. */
  predicate Promised(g: Graph, target: int, draws: nat, rule: RepairRule, r: Outcome)
    requires WellFormed(g)
  {
    && WellFormed(r.g)
    && Replays(g, r.collapsed, rule, r.g)
    && r.g.hee <= g.hee && r.g.hev <= g.hev && r.g.hef <= g.hef
    && |r.g.hee| + |r.collapsed| <= |g.hee|
    && r.draws >= draws
    && (r.reason == Reached <==> !AboveTarget(r.g, target))
    && (r.reason == NoEdges ==> r.g.hee == {})
  }

  lemma StrictSubsetSmaller(a: set<int>, b: set<int>)
    requires a < b
    ensures |a| < |b|
  {
    assert b == a + (b - a) && a * (b - a) == {};
    assert b - a != {};
  }

  /** An accepted collapse in front of a promised run gives a promised run. */
  lemma AcceptPromised(g: Graph, e: int, target: int, draws: nat, rule: RepairRule, r: Outcome)
    requires WellFormed(g) && 0 <= e < |g.halfEdges| && CanCollapse(g, e)
    requires (CanCollapseReady(g, e); CollapseWellFormed(g, e, rule);
      Promised(Collapse(g, e, rule), target, draws + 1, rule, r))
    ensures Promised(g, target, draws, rule, r.(collapsed := [e] + r.collapsed))
  {
    CanCollapseReady(g, e);
    var g' := Collapse(g, e, rule);
    CollapseShrinks(g, e, rule);
    var es := [e] + r.collapsed;
    assert es[1..] == r.collapsed;
    StrictSubsetSmaller(g'.hee, g.hee);
  }

  /** Every outcome of the driver is as Promised. */
  lemma {:induction false} RunSpec(g: Graph, target: int, rand: nat -> nat, draws: nat, timeout: nat, rule: RepairRule)
    requires WellFormed(g) && timeout <= MaxTimeout + 1
    decreases |g.hee|, MaxTimeout + 1 - timeout, 1
    ensures Promised(g, target, draws, rule, Run(g, target, rand, draws, timeout, rule))
  {
    if !AboveTarget(g, target) || |g.hee| == 0 {
    } else if CanCollapse(g, Drawn(g, rand, draws)) {
      AcceptSpec(g, target, rand, draws, timeout, rule);
    } else {
      RejectSpec(g, target, rand, draws, timeout, rule);
    }
  }

  /** RunSpec after an accepted draw. */
  lemma {:induction false} AcceptSpec(g: Graph, target: int, rand: nat -> nat, draws: nat, timeout: nat, rule: RepairRule)
    requires WellFormed(g) && timeout <= MaxTimeout + 1 && AboveTarget(g, target) && |g.hee| > 0
    requires CanCollapse(g, Drawn(g, rand, draws))
    decreases |g.hee|, MaxTimeout + 1 - timeout, 0
    ensures Promised(g, target, draws, rule, Run(g, target, rand, draws, timeout, rule))
  {
    var e := Drawn(g, rand, draws);
    RunAccepts(g, target, rand, draws, timeout, rule);
    var g' := Collapse(g, e, rule);
    StrictSubsetSmaller(g'.hee, g.hee);
    RunSpec(g', target, rand, draws + 1, 0, rule);
    AcceptPromised(g, e, target, draws, rule, Run(g', target, rand, draws + 1, 0, rule));
  }

  /** RunSpec after a rejected draw. */
  lemma {:induction false} RejectSpec(g: Graph, target: int, rand: nat -> nat, draws: nat, timeout: nat, rule: RepairRule)
    requires WellFormed(g) && timeout <= MaxTimeout + 1 && AboveTarget(g, target) && |g.hee| > 0
    requires !CanCollapse(g, Drawn(g, rand, draws))
    decreases |g.hee|, MaxTimeout + 1 - timeout, 0
    ensures Promised(g, target, draws, rule, Run(g, target, rand, draws, timeout, rule))
  {
    RunRejects(g, target, rand, draws, timeout, rule);
    if timeout <= MaxTimeout {
      RunSpec(g, target, rand, draws + 1, timeout + 1, rule);
      PromisedEarlier(g, target, draws, rule, Run(g, target, rand, draws + 1, timeout + 1, rule));
    } else {
      StagnatedPromised(g, target, draws, rule);
    }
  }

  /** Giving up on the rejection counter keeps the graph as it is. */
  lemma StagnatedPromised(g: Graph, target: int, draws: nat, rule: RepairRule)
    requires WellFormed(g) && AboveTarget(g, target)
    ensures Promised(g, target, draws, rule, Outcome(g, [], draws + 1, Stagnated))
  {
    assert Replays(g, [], rule, g);
  }

  /** A promise about a run that started later holds for an earlier start. */
  lemma PromisedEarlier(g: Graph, target: int, draws: nat, rule: RepairRule, r: Outcome)
    requires WellFormed(g) && Promised(g, target, draws + 1, rule, r)
    ensures Promised(g, target, draws, rule, r)
  {
  }

  /** At or below the target the driver does nothing. */
  lemma NothingBelowTarget(g: Graph, target: int, rand: nat -> nat, rule: RepairRule)
    requires WellFormed(g) && !AboveTarget(g, target)
    ensures CollapseRandomEdges(g, target, rand, rule) == Outcome(g, [], 0, Reached)
  {
  }

  /** On a valid graph above a non-negative target HEE is not empty, so
      the first draw does not divide by zero. */
  lemma FirstDrawDefined(g: Graph, target: int)
    requires Valid(g) && AboveTarget(g, target)
    ensures |g.hee| >= 3
  {
  }

  /** The `count` draws from number `from` on all draw half-edges that
      canEdgeCollapse rejects. */
  predicate RejectsFrom(g: Graph, rand: nat -> nat, from: nat, count: nat)
    requires WellFormed(g) && |g.hee| > 0
  {
    forall d :: from <= d < from + count ==> !CanCollapse(g, Drawn(g, rand, d))
  }

  /** The first of a run of rejections, and the rest of the run; f1 and c1
      are the next draw number and the remaining count. */
  lemma RejectsNext(g: Graph, rand: nat -> nat, from: nat, count: nat, f1: nat, c1: nat)
    requires WellFormed(g) && |g.hee| > 0 && count > 0 && f1 == from + 1 && c1 == count - 1
    requires RejectsFrom(g, rand, from, count)
    ensures !CanCollapse(g, Drawn(g, rand, from))
    ensures RejectsFrom(g, rand, f1, c1)
  {
  }

  /** The stagnation claim from draw `draws` with counter `timeout`: if the
      `left` draws the counter still allows are all rejected, the driver
      stops after exactly those draws, above the target and with the graph
      unchanged. */
  predicate StagnatesAfter(g: Graph, target: int, rand: nat -> nat, draws: nat, timeout: nat, rule: RepairRule, left: nat)
    requires WellFormed(g) && timeout <= MaxTimeout + 1 && |g.hee| > 0
  {
    RejectsFrom(g, rand, draws, left) ==>
      Run(g, target, rand, draws, timeout, rule) == Outcome(g, [], draws + left, Stagnated)
  }

  /** One more rejection in front of a stagnating run; d1, t1 and l1 are
      the draw count, counter and allowance after it. */
  lemma StagnatesStep(g: Graph, target: int, rand: nat -> nat, draws: nat, timeout: nat, rule: RepairRule, left: nat, d1: nat, t1: nat, l1: nat)
    requires WellFormed(g) && timeout <= MaxTimeout && AboveTarget(g, target) && |g.hee| > 0 && left > 0
    requires d1 == draws + 1 && t1 == timeout + 1 && l1 == left - 1
    requires StagnatesAfter(g, target, rand, d1, t1, rule, l1)
    ensures StagnatesAfter(g, target, rand, draws, timeout, rule, left)
  {
    if RejectsFrom(g, rand, draws, left) {
      RejectsNext(g, rand, draws, left, d1, l1);
      assert d1 + l1 == draws + left;
      RejectedOutcome(g, target, rand, draws, timeout, rule, Outcome(g, [], draws + left, Stagnated), d1, t1);
    }
  }

  /** With the counter past MaxTimeout, one rejection ends the run. */
  lemma StagnatesLast(g: Graph, target: int, rand: nat -> nat, draws: nat, rule: RepairRule)
    requires WellFormed(g) && AboveTarget(g, target) && |g.hee| > 0
    ensures StagnatesAfter(g, target, rand, draws, MaxTimeout + 1, rule, 1)
  {
    if RejectsFrom(g, rand, draws, 1) {
      RunRejects(g, target, rand, draws, MaxTimeout + 1, rule);
    }
  }

  /** A run of rejections: above the target, when rand keeps drawing
      half-edges that canEdgeCollapse rejects for all the `left` ==
      MaxTimeout + 2 - timeout draws the counter allows, the driver stops
      after exactly those draws with the graph unchanged. */
  lemma {:induction false} Stagnation(g: Graph, target: int, rand: nat -> nat, draws: nat, timeout: nat, rule: RepairRule, left: nat)
    requires WellFormed(g) && timeout <= MaxTimeout + 1 && AboveTarget(g, target) && |g.hee| > 0
    requires left + timeout == MaxTimeout + 2
    decreases left
    ensures RejectsFrom(g, rand, draws, left) ==>
      Run(g, target, rand, draws, timeout, rule) == Outcome(g, [], draws + left, Stagnated)
  {
    if timeout <= MaxTimeout {
      var d1, t1, l1 := draws + 1, timeout + 1, left - 1;
      Stagnation(g, target, rand, d1, t1, rule, l1);
      StagnatesStep(g, target, rand, draws, timeout, rule, left, d1, t1, l1);
    } else {
      StagnatesLast(g, target, rand, draws, rule);
    }
  }

  /** How many rejected draws end a stagnated outcome r of a run that
      started with counter `timeout`: what the counter still allowed when r
      made no collapse, and a full MaxTimeout + 2 after its last collapse
      otherwise. */
  function StreakLength(r: Outcome, timeout: nat): nat
    requires timeout <= MaxTimeout + 1
  {
    if r.collapsed == [] then MaxTimeout + 2 - timeout else MaxTimeout + 2
  }

  /** What lies behind an outcome r that gave up on the rejection counter,
      for a run from g with `draws` draws made and counter `timeout`: the
      final graph is above the target with HEE not empty, and the last
      StreakLength draws were all rejected on it; with no collapse, the
      graph is g and those were the only draws. */
  predicate StagnatedBehind(g: Graph, target: int, rand: nat -> nat, draws: nat, timeout: nat, r: Outcome)
    requires timeout <= MaxTimeout + 1
  {
    r.reason == Stagnated ==>
      var left := StreakLength(r, timeout);
      && WellFormed(r.g) && |r.g.hee| > 0 && AboveTarget(r.g, target)
      && r.draws >= draws + left
      && RejectsFrom(r.g, rand, r.draws - left, left)
      && (r.collapsed == [] ==> r.g == g && r.draws == draws + left)
  }

  /** A rejection in front of a run of rejections; d1 and c1 are the draw
      number and count of the run behind it. */
  lemma RejectsPrev(g: Graph, rand: nat -> nat, from: nat, count: nat, d1: nat, c1: nat)
    requires WellFormed(g) && |g.hee| > 0 && d1 == from + 1 && c1 + 1 == count
    requires !CanCollapse(g, Drawn(g, rand, from)) && RejectsFrom(g, rand, d1, c1)
    ensures RejectsFrom(g, rand, from, count)
  {
    forall d | from <= d < from + count
      ensures !CanCollapse(g, Drawn(g, rand, d))
    {
      if d > from {
        assert d1 <= d < d1 + c1;
      }
    }
  }

  /** The rejection that finds the counter above MaxTimeout is a streak of
      one. */
  lemma StagnatedLast(g: Graph, target: int, rand: nat -> nat, draws: nat)
    requires WellFormed(g) && AboveTarget(g, target) && |g.hee| > 0
    requires !CanCollapse(g, Drawn(g, rand, draws))
    ensures StagnatedBehind(g, target, rand, draws, MaxTimeout + 1, Outcome(g, [], draws + 1, Stagnated))
  {
    assert RejectsFrom(g, rand, draws, 1);
  }

  /** An accepted collapse of e, leading to g', in front of a run r from g'
      with the counter reset; d1 is the draw count after it. */
  lemma StagnatedAccept(g: Graph, g': Graph, e: int, target: int, rand: nat -> nat, draws: nat, d1: nat, timeout: nat, r: Outcome)
    requires timeout <= MaxTimeout + 1 && d1 == draws + 1
    requires StagnatedBehind(g', target, rand, d1, 0, r)
    ensures StagnatedBehind(g, target, rand, draws, timeout, r.(collapsed := [e] + r.collapsed))
  {
    assert StreakLength(r, 0) == MaxTimeout + 2;
  }

  /** A counted rejection on g in front of a run r from g; d1 and t1 are
      the draw count and counter after it. */
  lemma StagnatedReject(g: Graph, target: int, rand: nat -> nat, draws: nat, timeout: nat, d1: nat, t1: nat, r: Outcome)
    requires WellFormed(g) && timeout <= MaxTimeout && |g.hee| > 0 && d1 == draws + 1 && t1 == timeout + 1
    requires !CanCollapse(g, Drawn(g, rand, draws))
    requires StagnatedBehind(g, target, rand, d1, t1, r)
    ensures StagnatedBehind(g, target, rand, draws, timeout, r)
  {
    if r.reason == Stagnated && r.collapsed == [] {
      var left, l1 := StreakLength(r, timeout), StreakLength(r, t1);
      assert r.draws - l1 == d1 && r.draws - left == draws;
      RejectsPrev(g, rand, draws, left, d1, l1);
    }
  }

  /** The converse of Stagnation: a run that gives up on the rejection
      counter does so above the target, after MaxTimeout + 2 draws in a row
      that canEdgeCollapse rejected on the final graph (fewer when the run
      made no collapse and started with the counter already up), and with
      the graph it started from when it made no collapse. */
  lemma {:induction false} StagnatedRejected(g: Graph, target: int, rand: nat -> nat, draws: nat, timeout: nat, rule: RepairRule)
    requires WellFormed(g) && timeout <= MaxTimeout + 1
    decreases |g.hee|, MaxTimeout + 1 - timeout
    ensures StagnatedBehind(g, target, rand, draws, timeout, Run(g, target, rand, draws, timeout, rule))
  {
    if !AboveTarget(g, target) || |g.hee| == 0 {
    } else if CanCollapse(g, Drawn(g, rand, draws)) {
      var e := Drawn(g, rand, draws);
      RunAccepts(g, target, rand, draws, timeout, rule);
      var g' := Collapse(g, e, rule);
      StrictSubsetSmaller(g'.hee, g.hee);
      var d1 := draws + 1;
      StagnatedRejected(g', target, rand, d1, 0, rule);
      StagnatedAccept(g, g', e, target, rand, draws, d1, timeout, Run(g', target, rand, d1, 0, rule));
    } else if timeout > MaxTimeout {
      RunRejects(g, target, rand, draws, timeout, rule);
      StagnatedLast(g, target, rand, draws);
    } else {
      var d1, t1 := draws + 1, timeout + 1;
      StagnatedRejected(g, target, rand, d1, t1, rule);
      RejectedOutcome(g, target, rand, draws, timeout, rule, Run(g, target, rand, d1, t1, rule), d1, t1);
      StagnatedReject(g, target, rand, draws, timeout, d1, t1, Run(g, target, rand, d1, t1, rule));
    }
  }
}

/** What the lookahead allocator guarantees: conservation of ways, greediness, savings, and optimality on convex curves. */
module UcpTheorems {
  import opened Arithmetic
  import opened Sequences
  import opened Ucp

  // ---------------------------------------------------------------------------
  // Conservation
  // ---------------------------------------------------------------------------

  lemma {:induction false} GreedyConserves(curves: seq<Curve>, a: Allocation, nrWays: int)
    requires Running(curves, a.ways)
    ensures var r := Greedy(curves, a, nrWays);
            && Sum(r.ways) + r.left == Sum(a.ways) + a.left
            && (a.left >= 0 ==> r.left >= 0)
            && r.left <= a.left
    decreases if a.left > 0 then a.left else 0
  {
    var next := Round(curves, a, nrWays);
    if a.left > 0 && next != a {
      var ch := BestApp(curves, a.ways, a.left, nrWays, |a.ways|);
      BestAppFeasible(curves, a.ways, a.left, nrWays);
      SumUpdate(a.ways, ch.idx, ch.ways);
      GreedyConserves(curves, next, nrWays);
    }
  }

  lemma {:induction false} SumShared(s: seq<int>, t: seq<int>, fair: int, rem: nat)
    requires |s| == |t| && rem <= |s|
    requires forall i | 0 <= i < |s| :: t[i] == s[i] + fair + if i < rem then 1 else 0
    ensures Sum(t) == Sum(s) + fair * |s| + rem
  {
    if s != [] {
      SumShared(s[1..], t[1..], fair, if rem > 0 then rem - 1 else 0);
      TakeOne(fair, |s|);
    }
  }

  lemma SpreadConserves(sol: seq<int>, available: int)
    requires |sol| > 0
    ensures Sum(Spread(sol, available)) == Sum(sol) + if available > 0 then available else 0
    ensures forall i | 0 <= i < |sol| :: Spread(sol, available)[i] >= sol[i]
  {
    hide Sum;
    if available > 0 {
      var fair, rem := available / |sol|, available % |sol|;
      DivMod(available, |sol|);
      DivNonNegative(available, |sol|);
      SumShared(sol, Spread(sol, available), fair, rem);
    }
  }

  /** Every application gets a way, and all ways are handed out exactly when there is one for each. */
  lemma LookaheadConserves(curves: seq<Curve>, nrWays: int)
    requires AllWellFormed(curves) && |curves| > 0
    ensures var r := Lookahead(curves, nrWays);
            && (forall i | 0 <= i < |r| :: r[i] >= 1)
            && (Sum(r) == nrWays <==> nrWays >= |curves|)
            && (nrWays < |curves| ==> r == Ones(|curves|))
  {
    var ones := Ones(|curves|);
    var start := Allocation(ones, nrWays - |curves|);
    SumConstant(ones, 1);
    GreedyConserves(curves, start, nrWays);
    var a := Greedy(curves, start, nrWays);
    SpreadConserves(a.ways, a.left);
  }

  /** The list version's shortcut for one application agrees with the array version unless there is no way to give. */
  lemma ListAgreesWithArray(curves: seq<Curve>, nrWays: int)
    requires AllWellFormed(curves) && |curves| > 0
    ensures (if |curves| == 1 then [nrWays] else Lookahead(curves, nrWays)) == Lookahead(curves, nrWays)
       <==> (|curves| >= 2 || nrWays >= 1)
  {
    LookaheadConserves(curves, nrWays);
    var r := Lookahead(curves, nrWays);
    if |curves| == 1 {
      assert r == [r[0]] && Sum(r) == r[0] + Sum(r[1..]) && r[1..] == [];
    }
  }

  // ---------------------------------------------------------------------------
  // Greediness and savings, for arbitrary curves
  // ---------------------------------------------------------------------------

  ghost predicate Feasible(a: Allocation, nrWays: int, i: nat, k: nat) {
    i < |a.ways| && 1 <= k <= a.left && a.ways[i] + k <= nrWays
  }

  ghost predicate Before(i: nat, k: nat, i': nat, k': nat) {
    i < i' || (i == i' && k < k')
  }

  // A step an application can afford is no better than its best one, and an earlier step is worse.
  lemma StepBounded(c: Curve, cur: nat, n: int, k: nat)
    requires WellFormed(c) && 1 <= cur && 1 <= k <= n
    ensures var b := BestStep(c, cur, n);
            && StepMu(c, cur, k) <= b.0
            && (b.0 != 0 && k < b.1 - cur ==> StepMu(c, cur, k) < b.0)
  {
    hide StepMu;
    hide BestStep;
    var b := BestStep(c, cur, n);
    assert FirstBestStep(c, cur, n, b.0, b.1);
  }

  lemma FeasibleBounded(curves: seq<Curve>, a: Allocation, nrWays: int, ch: Choice, i: nat, k: nat)
    requires Running(curves, a.ways) && FirstBestApp(curves, a.ways, a.left, nrWays, |a.ways|, ch)
    requires Feasible(a, nrWays, i, k)
    ensures StepMu(curves[i], a.ways[i], k) <= ch.mu
    ensures ch.mu != 0 ==> 0 <= ch.idx < |a.ways|
    ensures ch.mu != 0 && Before(i, k, ch.idx, ch.ways - a.ways[ch.idx]) ==> StepMu(curves[i], a.ways[i], k) < ch.mu
  {
    hide StepMu;
    hide BestStep;
    var b := AppBest(curves, a.ways, a.left, nrWays, i);
    StepBounded(curves[i], a.ways[i], Exploration(a.ways[i], a.left, nrWays), k);
    assert b.0 <= ch.mu;
  }

  // A round carries out the choice made.
  lemma RoundIs(curves: seq<Curve>, a: Allocation, nrWays: int) returns (ch: Choice)
    requires Running(curves, a.ways)
    ensures ch == BestApp(curves, a.ways, a.left, nrWays, |a.ways|)
    ensures FirstBestApp(curves, a.ways, a.left, nrWays, |a.ways|, ch)
    ensures ch.mu == 0 <==> Round(curves, a, nrWays) == a
    ensures ch.mu != 0 ==>
              && ch.mu > 0 && 0 <= ch.idx < |a.ways|
              && a.ways[ch.idx] < ch.ways
              && Feasible(a, nrWays, ch.idx, ch.ways - a.ways[ch.idx])
              && StepMu(curves[ch.idx], a.ways[ch.idx], ch.ways - a.ways[ch.idx]) == ch.mu
              && Round(curves, a, nrWays) == Allocation(a.ways[ch.idx := ch.ways], a.left - (ch.ways - a.ways[ch.idx]))
  {
    hide StepMu;
    hide BestApp;
    hide BestStep;
    ch := BestApp(curves, a.ways, a.left, nrWays, |a.ways|);
    BestAppIsFirst(curves, a.ways, a.left, nrWays, |a.ways|);
    BestAppFeasible(curves, a.ways, a.left, nrWays);
  }

  /** Application idx growing by this step is the first in scan order of the feasible steps of the greatest utility, and useful. */
  ghost predicate BestGrant(curves: seq<Curve>, a: Allocation, nrWays: int, idx: nat, step: nat)
    requires Running(curves, a.ways)
  {
    && Feasible(a, nrWays, idx, step)
    && StepMu(curves[idx], a.ways[idx], step) > 0
    && forall i: nat, k: nat | Feasible(a, nrWays, i, k) ::
         && StepMu(curves[i], a.ways[i], k) <= StepMu(curves[idx], a.ways[idx], step)
         && (Before(i, k, idx, step) ==>
               StepMu(curves[i], a.ways[i], k) < StepMu(curves[idx], a.ways[idx], step))
  }

  /** No step that can be afforded saves a miss per way. */
  ghost predicate NoGain(curves: seq<Curve>, a: Allocation, nrWays: int)
    requires Running(curves, a.ways)
  {
    forall i: nat, k: nat | Feasible(a, nrWays, i, k) :: StepMu(curves[i], a.ways[i], k) <= 0
  }

  function Granted(a: Allocation, idx: nat, step: nat): Allocation
    requires idx < |a.ways|
  {
    Allocation(a.ways[idx := a.ways[idx] + step], a.left - step)
  }

  /** A round applies the first application and step attaining the greatest utility, or stops because nobody gains. */
  lemma RoundIsGreedy(curves: seq<Curve>, a: Allocation, nrWays: int) returns (idx: nat, step: nat)
    requires Running(curves, a.ways)
    ensures var r := Round(curves, a, nrWays);
            if r == a then NoGain(curves, a, nrWays)
            else BestGrant(curves, a, nrWays, idx, step) && r == Granted(a, idx, step)
  {
    hide StepMu;
    hide BestApp;
    hide FirstBestApp;
    hide Round;
    var ch := RoundIs(curves, a, nrWays);
    idx, step := 0, 0;
    if ch.mu != 0 {
      idx, step := ch.idx, ch.ways - a.ways[ch.idx];
    }
    forall i: nat, k: nat | Feasible(a, nrWays, i, k)
      ensures StepMu(curves[i], a.ways[i], k) <= ch.mu
      ensures ch.mu != 0 && Before(i, k, idx, step) ==> StepMu(curves[i], a.ways[i], k) < ch.mu
    {
      FeasibleBounded(curves, a, nrWays, ch, i, k);
    }
  }

  // ---------------------------------------------------------------------------
  // The greedy phase, and the allocator, without the functions that compute them
  // ---------------------------------------------------------------------------

  ghost predicate GreedyStep(curves: seq<Curve>, a: Allocation, b: Allocation, nrWays: int)
    requires Running(curves, a.ways)
  {
    exists idx: nat, step: nat :: BestGrant(curves, a, nrWays, idx, step) && b == Granted(a, idx, step)
  }

  /** Every round grants the first of the most useful steps, and the run ends only when no step is useful. */
  ghost predicate GreedyRun(curves: seq<Curve>, run: seq<Allocation>, nrWays: int) {
    && run != [] && (forall k | 0 <= k < |run| :: Running(curves, run[k].ways))
    && (forall k | 0 <= k < |run| - 1 :: GreedyStep(curves, run[k], run[k + 1], nrWays))
    && NoGain(curves, run[|run| - 1], nrWays)
  }

  // At most one step is the best one, and none is when nobody gains.
  lemma BestGrantUnique(curves: seq<Curve>, a: Allocation, nrWays: int, i: nat, k: nat, i': nat, k': nat)
    requires Running(curves, a.ways)
    requires BestGrant(curves, a, nrWays, i, k) && BestGrant(curves, a, nrWays, i', k')
    ensures i == i' && k == k'
  {
    hide StepMu;
    assert Feasible(a, nrWays, i, k) && Feasible(a, nrWays, i', k');
    assert !Before(i, k, i', k') && !Before(i', k', i, k);
  }

  lemma StepIsRound(curves: seq<Curve>, a: Allocation, b: Allocation, nrWays: int)
    requires Running(curves, a.ways) && GreedyStep(curves, a, b, nrWays)
    ensures a.left > 0 && b == Round(curves, a, nrWays) != a
  {
    hide StepMu;
    hide Round;
    var idx, step := RoundIsGreedy(curves, a, nrWays);
    var i: nat, k: nat :| BestGrant(curves, a, nrWays, i, k) && b == Granted(a, i, k);
    assert Feasible(a, nrWays, i, k);
    if Round(curves, a, nrWays) != a {
      BestGrantUnique(curves, a, nrWays, i, k, idx, step);
    }
  }

  lemma NoGainStops(curves: seq<Curve>, a: Allocation, nrWays: int)
    requires Running(curves, a.ways) && NoGain(curves, a, nrWays)
    ensures Round(curves, a, nrWays) == a
  {
    hide StepMu;
    hide Round;
    var idx, step := RoundIsGreedy(curves, a, nrWays);
    assert !BestGrant(curves, a, nrWays, idx, step);
  }

  // The rounds from a on, one after the other.
  ghost function Rounds(curves: seq<Curve>, a: Allocation, nrWays: int): (run: seq<Allocation>)
    requires Running(curves, a.ways)
    ensures run != [] && run[0] == a
    decreases if a.left > 0 then a.left else 0
  {
    hide Running;
    if a.left <= 0 || Round(curves, a, nrWays) == a then [a]
    else [a] + Rounds(curves, Round(curves, a, nrWays), nrWays)
  }

  lemma {:induction false} RoundsAreGreedy(curves: seq<Curve>, a: Allocation, nrWays: int)
    requires Running(curves, a.ways)
    ensures var run := Rounds(curves, a, nrWays);
            GreedyRun(curves, run, nrWays) && run[|run| - 1] == Greedy(curves, a, nrWays)
    decreases if a.left > 0 then a.left else 0
  {
    hide Running;
    hide StepMu;
    hide Round;
    var next := Round(curves, a, nrWays);
    var idx, step := RoundIsGreedy(curves, a, nrWays);
    if a.left > 0 && next != a {
      RoundsAreGreedy(curves, next, nrWays);
      RunGrows(curves, a, Rounds(curves, next, nrWays), nrWays);
    }
  }

  lemma RunGrows(curves: seq<Curve>, a: Allocation, run: seq<Allocation>, nrWays: int)
    requires GreedyRun(curves, run, nrWays) && Running(curves, a.ways) && GreedyStep(curves, a, run[0], nrWays)
    ensures GreedyRun(curves, [a] + run, nrWays) && ([a] + run)[|run|] == run[|run| - 1]
  {
    hide Running;
    hide GreedyStep;
    hide NoGain;
    var grown := [a] + run;
    forall k | 0 <= k < |grown| - 1 ensures Running(curves, grown[k].ways) && GreedyStep(curves, grown[k], grown[k + 1], nrWays) {
      if k > 0 {
        assert grown[k] == run[k - 1] && grown[k + 1] == run[(k - 1) + 1];
      }
    }
  }

  lemma {:induction false} RunEndsGreedy(curves: seq<Curve>, run: seq<Allocation>, nrWays: int)
    requires GreedyRun(curves, run, nrWays)
    ensures run[|run| - 1] == Greedy(curves, run[0], nrWays)
    decreases |run|
  {
    hide Running;
    hide GreedyStep;
    hide NoGain;
    hide Round;
    if |run| == 1 {
      NoGainStops(curves, run[0], nrWays);
    } else {
      assert GreedyStep(curves, run[0], run[0 + 1], nrWays);
      StepIsRound(curves, run[0], run[1], nrWays);
      var rest := run[1..];
      forall k | 0 <= k < |rest| - 1 ensures GreedyStep(curves, rest[k], rest[k + 1], nrWays) {
        assert GreedyStep(curves, run[k + 1], run[(k + 1) + 1], nrWays);
      }
      RunEndsGreedy(curves, rest, nrWays);
    }
  }

  /** What is left is shared out: no two gains differ by more than one, earlier applications gain more, and nothing stays. */
  ghost predicate FairlySpread(sol: seq<int>, left: int, r: seq<int>) {
    && |r| == |sol|
    && (left <= 0 ==> r == sol)
    && (left > 0 ==> Sum(r) == Sum(sol) + left)
    && forall i, j | 0 <= i < j < |sol| :: sol[i] - sol[j] <= r[i] - r[j] <= sol[i] - sol[j] + 1
  }

  lemma SpreadIsFair(sol: seq<int>, left: int)
    requires sol != []
    ensures FairlySpread(sol, left, Spread(sol, left))
  {
    SpreadConserves(sol, left);
  }

  // Gains that are all at least as large, with one larger, add up to more.
  lemma {:induction false} SumStrict(s: seq<int>, t: seq<int>, k: nat)
    requires |s| == |t| && k < |s| && (forall i | 0 <= i < |s| :: s[i] <= t[i]) && s[k] < t[k]
    ensures Sum(s) < Sum(t)
  {
    if k > 0 {
      SumStrict(s[1..], t[1..], k - 1);
    } else {
      SumMonotone(s[1..], t[1..]);
    }
  }

  lemma FairGainsMeet(sol: seq<int>, left: int, r: seq<int>, t: seq<int>, k: nat)
    requires left > 0 && FairlySpread(sol, left, r) && FairlySpread(sol, left, t) && k < |sol|
    ensures r[k] <= t[k]
  {
    hide Sum;
    if r[k] > t[k] {
      // Then nobody gains less in r than in t.
      forall i | 0 <= i < |sol| ensures t[i] <= r[i] {
        if i < k {
          assert (t[i] - sol[i]) - (t[k] - sol[k]) <= 1 && (r[i] - sol[i]) - (r[k] - sol[k]) >= 0;
        } else if i > k {
          assert (t[k] - sol[k]) - (t[i] - sol[i]) >= 0 && (r[k] - sol[k]) - (r[i] - sol[i]) <= 1;
        }
      }
      SumStrict(t, r, k);
    }
  }

  lemma FairSpreadUnique(sol: seq<int>, left: int, r: seq<int>, t: seq<int>)
    requires FairlySpread(sol, left, r) && FairlySpread(sol, left, t)
    ensures r == t
  {
    if left > 0 {
      forall k | 0 <= k < |sol| ensures r[k] == t[k] {
        FairGainsMeet(sol, left, r, t, k);
        FairGainsMeet(sol, left, t, r, k);
      }
    }
  }

  /** A greedy run from one way each, and a fair spread of what it leaves. */
  ghost predicate GreedyAllocation(curves: seq<Curve>, nrWays: int, run: seq<Allocation>, r: seq<int>) {
    && GreedyRun(curves, run, nrWays)
    && run[0] == Allocation(Ones(|curves|), nrWays - |curves|)
    && FairlySpread(run[|run| - 1].ways, run[|run| - 1].left, r)
  }

  /** For arbitrary curves, lookahead's allocation is the one that a greedy run followed by a fair spread ends in. */
  lemma LookaheadIsGreedy(curves: seq<Curve>, nrWays: int, r: seq<int>)
    requires AllWellFormed(curves) && |curves| > 0
    ensures r == Lookahead(curves, nrWays) <==> exists run :: GreedyAllocation(curves, nrWays, run, r)
  {
    hide GreedyRun;
    hide Greedy;
    hide Rounds;
    hide Spread;
    hide FairlySpread;
    RunNotEmpty(curves, nrWays);
    var start := Allocation(Ones(|curves|), nrWays - |curves|);
    var run := Rounds(curves, start, nrWays);
    RoundsAreGreedy(curves, start, nrWays);
    var last := run[|run| - 1];
    SpreadIsFair(last.ways, last.left);
    assert GreedyAllocation(curves, nrWays, run, Lookahead(curves, nrWays));
    if other :| GreedyAllocation(curves, nrWays, other, r) {
      SameEnd(curves, nrWays, other, run);
      FairSpreadUnique(last.ways, last.left, r, Lookahead(curves, nrWays));
    }
  }

  lemma RunNotEmpty(curves: seq<Curve>, nrWays: int)
    ensures forall run | GreedyRun(curves, run, nrWays) :: run != []
  {
  }

  lemma SameEnd(curves: seq<Curve>, nrWays: int, run: seq<Allocation>, run': seq<Allocation>)
    requires GreedyRun(curves, run, nrWays) && GreedyRun(curves, run', nrWays) && run[0] == run'[0]
    ensures run[|run| - 1] == run'[|run'| - 1]
  {
    hide Greedy;
    RunEndsGreedy(curves, run, nrWays);
    RunEndsGreedy(curves, run', nrWays);
  }

  function Costs(curves: seq<Curve>, sol: seq<int>): (r: seq<int>)
    requires AllWellFormed(curves) && |sol| == |curves| && forall i | 0 <= i < |sol| :: 1 <= sol[i]
    ensures |r| == |sol|
  {
    seq(|sol|, i requires 0 <= i < |sol| => At(curves[i], sol[i]))
  }

  function Cost(curves: seq<Curve>, sol: seq<int>): int
    requires AllWellFormed(curves) && |sol| == |curves| && forall i | 0 <= i < |sol| :: 1 <= sol[i]
  {
    Sum(Costs(curves, sol))
  }

  lemma GrowthCost(curves: seq<Curve>, sol: seq<int>, idx: nat, ways: int)
    requires AllWellFormed(curves) && |sol| == |curves| && forall i | 0 <= i < |sol| :: 1 <= sol[i]
    requires idx < |sol| && 1 <= ways
    ensures Cost(curves, sol[idx := ways]) == Cost(curves, sol) - At(curves[idx], sol[idx]) + At(curves[idx], ways)
  {
    assert Costs(curves, sol[idx := ways]) == Costs(curves, sol)[idx := At(curves[idx], ways)];
    SumUpdate(Costs(curves, sol), idx, At(curves[idx], ways));
  }

  lemma RoundSaves(curves: seq<Curve>, a: Allocation, nrWays: int)
    requires Running(curves, a.ways)
    ensures var r := Round(curves, a, nrWays);
            Cost(curves, r.ways) + (a.left - r.left) <= Cost(curves, a.ways)
  {
    hide Round;
    var next := Round(curves, a, nrWays);
    if next != a {
      var idx, step := RoundIsGreedy(curves, a, nrWays);
      var w := a.ways[idx];
      MarginalUtilityMeaning(w, w + step, At(curves[idx], w), At(curves[idx], w + step));
      GrowthCost(curves, a.ways, idx, w + step);
    }
  }

  /** Each way handed out by the greedy phase saves at least one miss, whatever the curves look like. */
  lemma {:induction false} GreedySaves(curves: seq<Curve>, a: Allocation, nrWays: int)
    requires Running(curves, a.ways)
    ensures var r := Greedy(curves, a, nrWays);
            Cost(curves, r.ways) + (a.left - r.left) <= Cost(curves, a.ways)
    decreases if a.left > 0 then a.left else 0
  {
    var next := Round(curves, a, nrWays);
    if a.left > 0 && next != a {
      RoundSaves(curves, a, nrWays);
      GreedySaves(curves, next, nrWays);
    }
  }

  // ---------------------------------------------------------------------------
  // Optimality for convex curves
  // ---------------------------------------------------------------------------

  ghost predicate NonIncreasing(c: Curve) {
    WellFormed(c) && forall v, w | 1 <= v <= w <= c[0] :: c[v] >= c[w]
  }

  ghost predicate Convex(c: Curve) {
    WellFormed(c) && forall w | 1 <= w <= c[0] - 2 :: c[w] - c[w + 1] >= c[w + 1] - c[w + 2]
  }

  ghost predicate AllConvex(curves: seq<Curve>) {
    forall i | 0 <= i < |curves| :: NonIncreasing(curves[i]) && Convex(curves[i])
  }

  /** What one more way saves. */
  function Drop(c: Curve, w: nat): int
    requires WellFormed(c) && 1 <= w
  {
    At(c, w) - At(c, w + 1)
  }

  lemma {:induction false} DropsShrink(c: Curve, v: nat, w: nat)
    requires NonIncreasing(c) && Convex(c) && 1 <= v <= w
    ensures 0 <= Drop(c, w) <= Drop(c, v)
    decreases w - v
  {
    if v < w {
      DropsShrink(c, v, w - 1);
    }
  }

  // From w on, k further ways save at most k times what the first of them saves.
  lemma {:induction false} GrowthSaving(c: Curve, w: nat, k: nat)
    requires NonIncreasing(c) && Convex(c) && 1 <= w
    ensures At(c, w) - At(c, w + k) <= k * Drop(c, w)
  {
    if k > 0 {
      GrowthSaving(c, w, k - 1);
      DropsShrink(c, w, w + k - 1);
      MulSub(k, 1, Drop(c, w));
    }
  }

  // The k ways below w save at least k times what the last of them saves.
  lemma {:induction false} ShrinkCost(c: Curve, w: nat, k: nat)
    requires NonIncreasing(c) && Convex(c) && k < w && 2 <= w
    ensures At(c, w - k) - At(c, w) >= k * Drop(c, w - 1)
  {
    if k > 0 {
      ShrinkCost(c, w, k - 1);
      DropsShrink(c, w - k, w - 1);
      MulSub(k, 1, Drop(c, w - 1));
    }
  }

  /** A price per way that no next way is worth and every granted way is: the certificate of optimality. */
  ghost predicate Priced(curves: seq<Curve>, sol: seq<int>, price: int)
    requires AllConvex(curves) && |sol| == |curves|
  {
    forall i | 0 <= i < |sol| ::
      1 <= sol[i] && Drop(curves[i], sol[i]) <= price && (sol[i] > 1 ==> price <= Drop(curves[i], sol[i] - 1))
  }

  // At the certified price, moving one application from w to t ways cannot pay off.
  lemma PriceBound(c: Curve, w: nat, t: nat, price: int)
    requires NonIncreasing(c) && Convex(c) && 1 <= w && 1 <= t
    requires Drop(c, w) <= price && (w > 1 ==> price <= Drop(c, w - 1))
    ensures At(c, w) + price * w <= At(c, t) + price * t
  {
    if t >= w {
      GrowthSaving(c, w, t - w);
      MulMonotone(Drop(c, w), price, t - w);
      MulSub(t, w, price);
    } else {
      ShrinkCost(c, w, w - t);
      MulMonotone(price, Drop(c, w - 1), w - t);
      MulSub(w, t, price);
    }
  }

  lemma CostSplit(curves: seq<Curve>, sol: seq<int>)
    requires AllWellFormed(curves) && |sol| == |curves| > 0 && forall i | 0 <= i < |sol| :: 1 <= sol[i]
    ensures Cost(curves, sol) == At(curves[0], sol[0]) + Cost(curves[1..], sol[1..])
  {
    hide At;
    assert Costs(curves, sol)[1..] == Costs(curves[1..], sol[1..]);
  }

  lemma {:induction false} PricedIsOptimal(curves: seq<Curve>, sol: seq<int>, alt: seq<int>, price: int)
    requires AllConvex(curves) && |sol| == |alt| == |curves|
    requires Priced(curves, sol, price) && forall i | 0 <= i < |alt| :: 1 <= alt[i]
    ensures Cost(curves, sol) + price * Sum(sol) <= Cost(curves, alt) + price * Sum(alt)
  {
    hide At;
    hide Drop;
    hide Convex;
    if sol != [] {
      CostSplit(curves, sol);
      CostSplit(curves, alt);
      PriceBound(curves[0], sol[0], alt[0], price);
      PricedIsOptimal(curves[1..], sol[1..], alt[1..], price);
      Distribute(price, sol[0], Sum(sol[1..]));
      Distribute(price, alt[0], Sum(alt[1..]));
    }
  }

  lemma Distribute(p: int, a: int, b: int)
    ensures p * (a + b) == p * a + p * b
  {
  }

  // A quotient of an average is at most the bound of the average.
  lemma AverageBound(mu: int, k: nat, total: int, bound: nat)
    requires k >= 1 && mu * k <= total <= k * bound
    ensures mu <= bound
  {
    if mu > bound {
      MulMonotone(bound + 1, mu, k);
      MulSub(bound + 1, bound, k);
    }
  }

  // On a convex curve a longer step is never more useful than a single way.
  lemma SingleStepUtility(c: Curve, cur: nat, k: nat)
    requires NonIncreasing(c) && Convex(c) && 1 <= cur && 1 <= k
    ensures StepMu(c, cur, 1) == Drop(c, cur) >= 0 && StepMu(c, cur, k) <= Drop(c, cur)
  {
    DropsShrink(c, cur, cur);
    GrowthSaving(c, cur, k);
    MarginalUtilityMeaning(cur, cur + k, At(c, cur), At(c, cur + k));
    if StepMu(c, cur, k) > 0 {
      AverageBound(StepMu(c, cur, k), k, At(c, cur) - At(c, cur + k), Drop(c, cur));
    }
  }

  lemma FirstStepIsBest(c: Curve, cur: nat, n: int)
    requires NonIncreasing(c) && Convex(c) && 1 <= cur && n >= 1
    ensures BestStep(c, cur, n) == if Drop(c, cur) == 0 then (0, -1) else (Drop(c, cur), cur + 1)
  {
    var b := BestStep(c, cur, n);
    assert FirstBestStep(c, cur, n, b.0, b.1);
    SingleStepUtility(c, cur, 1);
    assert StepMu(c, cur, 1) <= b.0;
    if b.0 != 0 {
      SingleStepUtility(c, cur, b.1 - cur);
    }
  }

  // What the greedy phase has spent fits the cache, so every application can afford one more way.
  ghost predicate Balanced(a: Allocation, nrWays: int) {
    && Sum(a.ways) + a.left == nrWays
    && forall i | 0 <= i < |a.ways| :: 1 <= a.ways[i]
  }

  lemma OneMoreFits(a: Allocation, nrWays: int, i: nat)
    requires Balanced(a, nrWays) && a.left > 0 && i < |a.ways|
    ensures Exploration(a.ways[i], a.left, nrWays) >= 1
  {
    SumBoundsEntry(a.ways, 1, i);
  }

  lemma AppBestIsDrop(curves: seq<Curve>, a: Allocation, nrWays: int, i: nat)
    requires AllConvex(curves) && Running(curves, a.ways) && Balanced(a, nrWays) && a.left > 0
    requires i < |a.ways|
    ensures AppBest(curves, a.ways, a.left, nrWays, i)
         == if Drop(curves[i], a.ways[i]) == 0 then (0, -1) else (Drop(curves[i], a.ways[i]), a.ways[i] + 1)
  {
    OneMoreFits(a, nrWays, i);
    FirstStepIsBest(curves[i], a.ways[i], Exploration(a.ways[i], a.left, nrWays));
  }

  ghost predicate GreatestDrop(curves: seq<Curve>, sol: seq<int>, idx: nat)
    requires AllWellFormed(curves) && |sol| == |curves| && idx < |sol|
    requires forall i | 0 <= i < |sol| :: 1 <= sol[i]
  {
    forall i | 0 <= i < |sol| :: Drop(curves[i], sol[i]) <= Drop(curves[idx], sol[idx])
  }

  ghost predicate NoDrop(curves: seq<Curve>, sol: seq<int>)
    requires AllWellFormed(curves) && |sol| == |curves|
    requires forall i | 0 <= i < |sol| :: 1 <= sol[i]
  {
    forall i | 0 <= i < |sol| :: Drop(curves[i], sol[i]) == 0
  }

  lemma ConvexChoice(curves: seq<Curve>, a: Allocation, nrWays: int)
    requires AllConvex(curves) && Running(curves, a.ways) && Balanced(a, nrWays) && a.left > 0
    ensures var ch := BestApp(curves, a.ways, a.left, nrWays, |a.ways|);
            if ch.mu == 0 then NoDrop(curves, a.ways)
            else 0 <= ch.idx < |a.ways| && ch.ways == a.ways[ch.idx] + 1 && GreatestDrop(curves, a.ways, ch.idx)
  {
    var ch := BestApp(curves, a.ways, a.left, nrWays, |a.ways|);
    BestAppIsFirst(curves, a.ways, a.left, nrWays, |a.ways|);
    forall i: nat | i < |a.ways|
      ensures 0 <= Drop(curves[i], a.ways[i]) <= ch.mu
    {
      AppBestIsDrop(curves, a, nrWays, i);
      assert AppBest(curves, a.ways, a.left, nrWays, i).0 <= ch.mu;
      DropsShrink(curves[i], a.ways[i], a.ways[i]);
    }
    if ch.mu != 0 {
      AppBestIsDrop(curves, a, nrWays, ch.idx);
    }
  }

  /** On convex curves a round gives one way to an application with the greatest drop. */
  lemma ConvexRound(curves: seq<Curve>, a: Allocation, nrWays: int) returns (idx: nat)
    requires AllConvex(curves) && Running(curves, a.ways) && Balanced(a, nrWays) && a.left > 0
    ensures var r := Round(curves, a, nrWays);
            if r == a then
              NoDrop(curves, a.ways)
            else
              && idx < |a.ways| && r == Allocation(a.ways[idx := a.ways[idx] + 1], a.left - 1)
              && GreatestDrop(curves, a.ways, idx)
  {
    hide Round;
    hide BestApp;
    hide FirstBestApp;
    hide StepMu;
    hide GreatestDrop;
    hide NoDrop;
    var ch := RoundIs(curves, a, nrWays);
    ConvexChoice(curves, a, nrWays);
    idx := if ch.mu == 0 then 0 else ch.idx;
  }

  // Granting a way to an application with the greatest drop lowers the price to that drop.
  lemma GrantKeepsPrice(curves: seq<Curve>, sol: seq<int>, idx: nat, price: int)
    requires AllConvex(curves) && |sol| == |curves| && idx < |sol|
    requires Priced(curves, sol, price) && GreatestDrop(curves, sol, idx)
    ensures Priced(curves, sol[idx := sol[idx] + 1], Drop(curves[idx], sol[idx]))
  {
    hide Drop;
    DropsShrink(curves[idx], sol[idx], sol[idx] + 1);
  }

  lemma RoundKeepsPrice(curves: seq<Curve>, a: Allocation, nrWays: int, price: int) returns (price': int)
    requires AllConvex(curves) && Running(curves, a.ways) && Balanced(a, nrWays) && a.left > 0
    requires Priced(curves, a.ways, price)
    requires Round(curves, a, nrWays) != a
    ensures Balanced(Round(curves, a, nrWays), nrWays)
    ensures Priced(curves, Round(curves, a, nrWays).ways, price')
  {
    hide Round;
    hide BestApp;
    hide Priced;
    hide Drop;
    var idx := ConvexRound(curves, a, nrWays);
    SumUpdate(a.ways, idx, a.ways[idx] + 1);
    price' := Drop(curves[idx], a.ways[idx]);
    GrantKeepsPrice(curves, a.ways, idx, price);
  }

  lemma {:induction false} GreedyKeepsPrice(curves: seq<Curve>, a: Allocation, nrWays: int, price: int) returns (price': int)
    requires AllConvex(curves) && Running(curves, a.ways) && Balanced(a, nrWays)
    requires Priced(curves, a.ways, price)
    ensures var r := Greedy(curves, a, nrWays);
            && Balanced(r, nrWays)
            && Priced(curves, r.ways, price')
            && (r.left > 0 ==> forall i | 0 <= i < |r.ways| :: Drop(curves[i], r.ways[i]) == 0)
    decreases if a.left > 0 then a.left else 0
  {
    price' := price;
    if a.left > 0 {
      var next := Round(curves, a, nrWays);
      if next != a {
        price' := RoundKeepsPrice(curves, a, nrWays, price);
        price' := GreedyKeepsPrice(curves, next, nrWays, price');
      } else {
        var _ := ConvexRound(curves, a, nrWays);
      }
    }
  }

  function MaxDrop(curves: seq<Curve>): (m: int)
    requires AllWellFormed(curves)
    ensures forall i | 0 <= i < |curves| :: Drop(curves[i], 1) <= m
  {
    if curves == [] then 0
    else
      var m := MaxDrop(curves[1..]);
      assert forall i | 1 <= i < |curves| :: curves[i] == curves[1..][i - 1];
      if Drop(curves[0], 1) > m then Drop(curves[0], 1) else m
  }

  // Ways shared out once every next drop is zero leave a zero-price certificate.
  lemma SpreadIsPriced(curves: seq<Curve>, sol: seq<int>, left: int)
    requires AllConvex(curves) && |sol| == |curves| > 0 && left > 0
    requires forall i | 0 <= i < |sol| :: 1 <= sol[i] && Drop(curves[i], sol[i]) == 0
    ensures Priced(curves, Spread(sol, left), 0)
  {
    SpreadConserves(sol, left);
    var r := Spread(sol, left);
    forall i | 0 <= i < |r|
      ensures 1 <= r[i] && Drop(curves[i], r[i]) <= 0 && (r[i] > 1 ==> 0 <= Drop(curves[i], r[i] - 1))
    {
      DropsShrink(curves[i], sol[i], r[i]);
      if r[i] > 1 {
        DropsShrink(curves[i], 1, r[i] - 1);
      }
    }
  }

  /** On convex non-increasing curves no allocation of the same ways costs less than the lookahead one. */
  lemma LookaheadOptimal(curves: seq<Curve>, nrWays: int, alt: seq<int>)
    requires AllConvex(curves) && 0 < |curves| <= nrWays
    requires |alt| == |curves| && Sum(alt) == nrWays && forall i | 0 <= i < |alt| :: 1 <= alt[i]
    ensures var r := Lookahead(curves, nrWays);
            && Sum(r) == nrWays && (forall i | 0 <= i < |r| :: 1 <= r[i])
            && Cost(curves, r) <= Cost(curves, alt)
  {
    var price := LookaheadPrice(curves, nrWays);
    LookaheadConserves(curves, nrWays);
    PricedIsOptimal(curves, Lookahead(curves, nrWays), alt, price);
  }

  lemma LookaheadPrice(curves: seq<Curve>, nrWays: int) returns (price: int)
    requires AllConvex(curves) && 0 < |curves| <= nrWays
    ensures Priced(curves, Lookahead(curves, nrWays), price)
  {
    var ones := Ones(|curves|);
    var start := Allocation(ones, nrWays - |curves|);
    SumConstant(ones, 1);
    price := GreedyKeepsPrice(curves, start, nrWays, MaxDrop(curves));
    var a := Greedy(curves, start, nrWays);
    if a.left > 0 {
      SpreadIsPriced(curves, a.ways, a.left);
      price := 0;
    }
  }
}

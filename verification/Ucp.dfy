/**
 * Utility-based cache partitioning: the lookahead allocator of
 * src/modules/pmcs/cache_partitioning.c.
 *
 * A curve is stored as in app_t: entry 0 holds the number of valid entries and
 * entry w the misses (or the slowdown) measured with w ways.  The greedy phase
 * hands out ways by marginal utility, and what is left is shared out fairly.
 */
module Ucp {
  import opened Arithmetic
  import opened Sequences

  type Curve = seq<int>

  predicate WellFormed(c: Curve) {
    |c| > 0 && 1 <= c[0] < |c|
  }

  predicate AllWellFormed(curves: seq<Curve>) {
    forall i | 0 <= i < |curves| :: WellFormed(curves[i])
  }

  /** The value of a possibly partial curve with w ways: flat after the last valid entry. */
  function At(c: Curve, w: nat): int
    requires WellFormed(c) && 1 <= w
  {
    if w <= c[0] then c[w] else c[c[0]]
  }

  function Min(a: int, b: int): int {
    if a <= b then a else b
  }

  /** Division as C defines it: truncated towards zero. */
  function TruncDiv(a: int, b: int): int
    requires b != 0
  {
    if b > 0 then
      if a >= 0 then a / b else -((-a) / b)
    else
      if a >= 0 then -(a / -b) else (-a) / (-b)
  }

  function MarginalUtility(fromWay: int, toWay: int, mpkiFrom: int, mpkiTo: int): int
    requires fromWay != toWay
  {
    TruncDiv(mpkiTo - mpkiFrom, fromWay - toWay)
  }

  /** A utility is positive exactly when at least one miss is saved per way, and then it is the floor of the ratio. */
  lemma MarginalUtilityMeaning(fromWay: int, toWay: int, mpkiFrom: int, mpkiTo: int)
    requires fromWay < toWay
    ensures var mu := MarginalUtility(fromWay, toWay, mpkiFrom, mpkiTo);
            && (mu > 0 <==> mpkiFrom - mpkiTo >= toWay - fromWay)
            && (mu > 0 ==> mu * (toWay - fromWay) <= mpkiFrom - mpkiTo < (mu + 1) * (toWay - fromWay))
  {
    var k, drop := toWay - fromWay, mpkiFrom - mpkiTo;
    if drop >= 0 {
      QuotientBounds(drop, k);
      if drop >= k {
        DivMonotone(k, drop, k);
      } else {
        QuotientUnique(drop, k, 0);
      }
    }
  }

  // The same saving spread over fewer ways is at least as useful.
  lemma FewerWaysBetter(drop: int, mu: int, k: int, mu': int, m: int)
    requires 1 <= m < k && 0 <= mu && 0 <= mu'
    requires mu * k <= drop < (mu' + 1) * m
    ensures mu' >= mu
  {
    if mu' + 1 <= mu {
      MulMonotone(mu' + 1, mu, m);
      MulMonotone(m, k, mu);
    }
  }

  /** Marginal utility of growing from cur to cur + k ways. */
  function StepMu(c: Curve, cur: nat, k: nat): int
    requires WellFormed(c) && 1 <= cur && 1 <= k
  {
    MarginalUtility(cur, cur + k, At(c, cur), At(c, cur + k))
  }

  /** (mu, ways) describes the first of the n steps that attains the greatest positive utility. */
  ghost predicate FirstBestStep(c: Curve, cur: nat, n: int, mu: int, ways: int)
    requires WellFormed(c) && 1 <= cur
  {
    if mu == 0 then
      ways == -1 && forall k: nat | 1 <= k <= n :: StepMu(c, cur, k) <= 0
    else
      && mu > 0 && cur < ways <= cur + n
      && StepMu(c, cur, ways - cur) == mu
      && (forall k: nat | 1 <= k <= n :: StepMu(c, cur, k) <= mu)
      && (forall k: nat | 1 <= k < ways - cur :: StepMu(c, cur, k) < mu)
  }

  function BestStep(c: Curve, cur: nat, n: int): (r: (int, int))
    requires WellFormed(c) && 1 <= cur
    ensures FirstBestStep(c, cur, n, r.0, r.1)
    ensures r.0 >= 0
    decreases if n > 0 then n else 0
  {
    if n <= 0 then (0, -1)
    else
      var b := BestStep(c, cur, n - 1);
      if StepMu(c, cur, n) > b.0 then (StepMu(c, cur, n), cur + n) else b
  }

  function Exploration(cur: int, available: int, nrWays: int): int {
    Min(available, nrWays - cur)
  }

  /** get_max_mu_gen: one scan over the steps an application can afford. */
  method GetMaxMu(curve: Curve, currentWays: nat, availableWays: int, maxNrWays: int)
    returns (maxMu: int, muWays: int, bestMetric: int)
    requires WellFormed(curve) && 1 <= currentWays <= curve[0]
    ensures FirstBestStep(curve, currentWays, Exploration(currentWays, availableWays, maxNrWays), maxMu, muWays)
    ensures (maxMu, muWays) == BestStep(curve, currentWays, Exploration(currentWays, availableWays, maxNrWays))
    ensures bestMetric == if maxMu == 0 then 0 else At(curve, muWays)
  {
    hide TruncDiv;
    hide MarginalUtility;
    var currentMisses := curve[currentWays];
    maxMu, muWays, bestMetric := 0, -1, 0;
    var explorationWays := Min(availableWays, maxNrWays - currentWays);
    var nrActualEntries := curve[0];
    var topValue := curve[nrActualEntries];
    var i := 1;
    while i <= explorationWays
      invariant 1 <= i
      invariant explorationWays < 1 ==> i == 1
      invariant explorationWays >= 1 ==> i <= explorationWays + 1
      invariant (maxMu, muWays) == BestStep(curve, currentWays, i - 1)
      invariant bestMetric == if maxMu == 0 then 0 else At(curve, muWays)
    {
      var newWays := currentWays + i;
      var newMisses := if newWays > nrActualEntries then topValue else curve[newWays];
      var mu := MarginalUtility(currentWays, newWays, currentMisses, newMisses);
      assert mu == StepMu(curve, currentWays, i);
      if mu > maxMu {
        maxMu, muWays, bestMetric := mu, newWays, newMisses;
      }
      i := i + 1;
    }
  }

  // ---------------------------------------------------------------------------
  // One round of the greedy phase
  // ---------------------------------------------------------------------------

  /** An allocation the greedy phase can be in: within the measured part of every curve. */
  ghost predicate Running(curves: seq<Curve>, sol: seq<int>) {
    && |sol| == |curves| && AllWellFormed(curves)
    && forall i | 0 <= i < |sol| :: 1 <= sol[i] <= curves[i][0]
  }

  datatype Choice = Choice(mu: int, idx: int, ways: int)

  function AppBest(curves: seq<Curve>, sol: seq<int>, available: int, nrWays: int, i: nat): (b: (int, int))
    requires Running(curves, sol) && i < |sol|
    ensures b.0 >= 0
  {
    BestStep(curves[i], sol[i], Exploration(sol[i], available, nrWays))
  }

  /** The first application, among the first n, whose best step attains the greatest utility. */
  ghost predicate FirstBestApp(curves: seq<Curve>, sol: seq<int>, available: int, nrWays: int, n: nat, ch: Choice)
    requires Running(curves, sol) && n <= |sol|
  {
    if ch.mu == 0 then
      forall i: nat | i < n :: AppBest(curves, sol, available, nrWays, i).0 == 0
    else
      && ch.mu > 0 && 0 <= ch.idx < n
      && AppBest(curves, sol, available, nrWays, ch.idx) == (ch.mu, ch.ways)
      && (forall i: nat | i < n :: AppBest(curves, sol, available, nrWays, i).0 <= ch.mu)
      && (forall i: nat | i < ch.idx :: AppBest(curves, sol, available, nrWays, i).0 < ch.mu)
  }

  function BestApp(curves: seq<Curve>, sol: seq<int>, available: int, nrWays: int, n: nat): Choice
    requires Running(curves, sol) && n <= |sol|
  {
    if n == 0 then Choice(0, -1, -1)
    else
      var ch := BestApp(curves, sol, available, nrWays, n - 1);
      var b := AppBest(curves, sol, available, nrWays, n - 1);
      if b.0 > ch.mu then Choice(b.0, n - 1, b.1) else ch
  }

  lemma {:induction false} BestAppIsFirst(curves: seq<Curve>, sol: seq<int>, available: int, nrWays: int, n: nat)
    requires Running(curves, sol) && n <= |sol|
    ensures FirstBestApp(curves, sol, available, nrWays, n, BestApp(curves, sol, available, nrWays, n))
  {
    hide Running;
    hide AppBest;
    if n > 0 {
      BestAppIsFirst(curves, sol, available, nrWays, n - 1);
    }
  }

  /** The greedy phase never moves past the measured part of a curve: a flat tail has no utility of its own. */
  lemma BestStepStaysMeasured(c: Curve, cur: nat, n: int)
    requires WellFormed(c) && 1 <= cur <= c[0]
    ensures var b := BestStep(c, cur, n); b.0 > 0 ==> cur < b.1 <= c[0] && b.1 <= cur + n
  {
    var b := BestStep(c, cur, n);
    if b.0 > 0 && b.1 > c[0] {
      var k, m := b.1 - cur, c[0] - cur;
      MarginalUtilityMeaning(cur, b.1, At(c, cur), At(c, b.1));
      if m >= 1 {
        // Reaching the last entry drops the misses just as much, with fewer ways.
        MarginalUtilityMeaning(cur, c[0], At(c, cur), At(c, c[0]));
        FewerWaysBetter(At(c, cur) - At(c, c[0]), b.0, k, StepMu(c, cur, m), m);
      }
    }
  }

  lemma BestAppFeasible(curves: seq<Curve>, sol: seq<int>, available: int, nrWays: int)
    requires Running(curves, sol)
    ensures var ch := BestApp(curves, sol, available, nrWays, |sol|);
            ch.mu != 0 ==>
              && 0 <= ch.idx < |sol|
              && sol[ch.idx] < ch.ways <= sol[ch.idx] + Exploration(sol[ch.idx], available, nrWays)
              && Running(curves, sol[ch.idx := ch.ways])
  {
    hide BestApp;
    hide BestStep;
    hide FirstBestStep;
    var ch := BestApp(curves, sol, available, nrWays, |sol|);
    BestAppIsFirst(curves, sol, available, nrWays, |sol|);
    if ch.mu != 0 {
      BestStepStaysMeasured(curves[ch.idx], sol[ch.idx], Exploration(sol[ch.idx], available, nrWays));
    }
  }

  // ---------------------------------------------------------------------------
  // The whole allocator
  // ---------------------------------------------------------------------------

  datatype Allocation = Allocation(ways: seq<int>, left: int)

  /** One round: the chosen application grows, or nothing changes because nobody gains. */
  function Round(curves: seq<Curve>, a: Allocation, nrWays: int): (r: Allocation)
    requires Running(curves, a.ways)
    ensures Running(curves, r.ways) && (r == a || r.left < a.left)
  {
    hide BestApp;
    hide FirstBestApp;
    var ch := BestApp(curves, a.ways, a.left, nrWays, |a.ways|);
    BestAppFeasible(curves, a.ways, a.left, nrWays);
    if ch.mu == 0 then a
    else Allocation(a.ways[ch.idx := ch.ways], a.left - (ch.ways - a.ways[ch.idx]))
  }

  function Greedy(curves: seq<Curve>, a: Allocation, nrWays: int): (r: Allocation)
    requires Running(curves, a.ways)
    ensures Running(curves, r.ways)
    decreases if a.left > 0 then a.left else 0
  {
    if a.left <= 0 || Round(curves, a, nrWays) == a then a
    else Greedy(curves, Round(curves, a, nrWays), nrWays)
  }

  function Spread(sol: seq<int>, available: int): (r: seq<int>)
    requires |sol| > 0
    ensures |r| == |sol|
  {
    if available <= 0 then
      sol
    else
      seq(|sol|, i requires 0 <= i < |sol| =>
        sol[i] + available / |sol| + if i < available % |sol| then 1 else 0)
  }

  function Ones(n: nat): (r: seq<int>)
    ensures |r| == n && forall i | 0 <= i < n :: r[i] == 1
  {
    seq(n, _ => 1)
  }

  function Lookahead(curves: seq<Curve>, nrWays: int): (r: seq<int>)
    requires AllWellFormed(curves) && |curves| > 0
    ensures |r| == |curves|
  {
    var a := Greedy(curves, Allocation(Ones(|curves|), nrWays - |curves|), nrWays);
    Spread(a.ways, a.left)
  }

  // The loop both versions run in each round: the application whose best step is the most useful.
  method SelectApp(curves: seq<Curve>, solution: array<int>, availableWays: int, nrWays: int) returns (ch: Choice)
    requires |curves| <= solution.Length && Running(curves, solution[..|curves|])
    ensures ch == BestApp(curves, solution[..|curves|], availableWays, nrWays, |curves|)
  {
    hide BestStep;
    hide FirstBestStep;
    hide FirstBestApp;
    ghost var sol := solution[..|curves|];
    ch := Choice(0, -1, -1);
    for i := 0 to |curves|
      invariant ch == BestApp(curves, sol, availableWays, nrWays, i)
    {
      assert sol[i] == solution[i];
      var maxMu, muWays, _ := GetMaxMu(curves[i], solution[i], availableWays, nrWays);
      if maxMu > ch.mu {
        ch := Choice(maxMu, i, muWays);
      }
    }
  }

  method GreedyRound(curves: seq<Curve>, nrWays: int, available: int, solution: array<int>)
    returns (left: int, progress: bool)
    requires |curves| <= solution.Length && Running(curves, solution[..|curves|])
    modifies solution
    ensures Allocation(solution[..|curves|], left)
         == Round(curves, Allocation(old(solution[..|curves|]), available), nrWays)
    ensures progress <==> Allocation(solution[..|curves|], left) != Allocation(old(solution[..|curves|]), available)
    ensures forall k | |curves| <= k < solution.Length :: solution[k] == old(solution[k])
  {
    hide BestApp;
    hide FirstBestApp;
    ghost var sol := solution[..|curves|];
    var ch := SelectApp(curves, solution, available, nrWays);
    BestAppFeasible(curves, sol, available, nrWays);
    left, progress := available, ch.mu != 0;
    if progress {
      left := left - (ch.ways - solution[ch.idx]);
      solution[ch.idx] := ch.ways;
      assert solution[..|curves|] == sol[ch.idx := ch.ways];
    }
  }

  // The part both versions share once every application has one way.
  method GreedyPhase(curves: seq<Curve>, nrWays: int, available: int, solution: array<int>) returns (left: int)
    requires |curves| <= solution.Length && Running(curves, solution[..|curves|])
    modifies solution
    ensures Allocation(solution[..|curves|], left)
         == Greedy(curves, Allocation(old(solution[..|curves|]), available), nrWays)
    ensures forall k | |curves| <= k < solution.Length :: solution[k] == old(solution[k])
  {
    left := available;
    var thereIsMaximalMarginal := true;
    ghost var a := Allocation(solution[..|curves|], left);
    ghost var goal := Greedy(curves, a, nrWays);
    while left > 0 && thereIsMaximalMarginal
      invariant a == Allocation(solution[..|curves|], left) && Running(curves, a.ways)
      invariant forall k | |curves| <= k < solution.Length :: solution[k] == old(solution[k])
      invariant Greedy(curves, a, nrWays) == goal
      invariant !thereIsMaximalMarginal ==> goal == a
      decreases thereIsMaximalMarginal, left
    {
      left, thereIsMaximalMarginal := GreedyRound(curves, nrWays, left, solution);
      a := Allocation(solution[..|curves|], left);
    }
  }

  method GiveOneWayEach(nrApps: nat, nrWays: int, solution: array<int>) returns (availableWays: int)
    requires nrApps <= solution.Length
    modifies solution
    ensures solution[..nrApps] == Ones(nrApps) && availableWays == nrWays - nrApps
    ensures forall k | nrApps <= k < solution.Length :: solution[k] == old(solution[k])
  {
    availableWays := nrWays;
    for i := 0 to nrApps
      invariant availableWays == nrWays - i
      invariant forall k | 0 <= k < i :: solution[k] == 1
      invariant forall k | nrApps <= k < solution.Length :: solution[k] == old(solution[k])
    {
      solution[i] := 1;
      availableWays := availableWays - 1;
    }
  }

  /** lookahead_algorithm: the version that takes an array of applications. */
  method LookaheadArray(apps: seq<Curve>, nrWays: int, solution: array<int>)
    requires AllWellFormed(apps) && 0 < |apps| <= solution.Length
    modifies solution
    ensures solution[..|apps|] == Lookahead(apps, nrWays)
    ensures forall k | |apps| <= k < solution.Length :: solution[k] == old(solution[k])
  {
    hide Greedy;
    hide Spread;
    var availableWays := GiveOneWayEach(|apps|, nrWays, solution);
    availableWays := GreedyPhase(apps, nrWays, availableWays, solution);
    SpreadLeftover(|apps|, availableWays, solution);
  }

  // The closing loop of both versions: share out what the greedy phase left.
  method SpreadLeftover(nrApps: nat, available: int, solution: array<int>)
    requires 0 < nrApps <= solution.Length
    modifies solution
    ensures solution[..nrApps] == Spread(old(solution[..nrApps]), available)
    ensures forall k | nrApps <= k < solution.Length :: solution[k] == old(solution[k])
  {
    if available > 0 {
      var fair, rem := available / nrApps, available % nrApps;
      DivMod(available, nrApps);
      ShareOut(nrApps, fair, rem, available, solution);
      assert solution[..nrApps] == Spread(old(solution[..nrApps]), available);
    }
  }

  method ShareOut(nrApps: nat, fair: nat, rem: nat, available: int, solution: array<int>)
    requires 0 < nrApps <= solution.Length
    requires rem < nrApps && available == fair * nrApps + rem
    modifies solution
    ensures forall k | 0 <= k < nrApps :: solution[k] == old(solution[k]) + fair + if k < rem then 1 else 0
    ensures forall k | nrApps <= k < solution.Length :: solution[k] == old(solution[k])
  {
    var availableWays, remaining, i := available, rem, 0;
    ghost var due := fair * nrApps;   // still to be given as fair shares
    while i < nrApps && availableWays > 0
      invariant 0 <= i <= nrApps
      invariant remaining == if i < rem then rem - i else 0
      invariant due == fair * (nrApps - i) && availableWays == due + remaining
      invariant forall k | 0 <= k < i :: solution[k] == old(solution[k]) + fair + if k < rem then 1 else 0
      invariant forall k | i <= k < solution.Length :: solution[k] == old(solution[k])
    {
      var extra := fair;
      if remaining > 0 {
        extra := extra + 1;
        remaining := remaining - 1;
      }
      solution[i] := solution[i] + extra;
      availableWays := availableWays - extra;
      due := due - fair;
      TakeOne(fair, nrApps - i);
      i := i + 1;
    }
    if i < nrApps {
      NothingLeft(nrApps - i, fair, remaining);
    }
  }

  lemma TakeOne(fair: int, n: int)
    ensures fair * (n - 1) == fair * n - fair
  {
  }

  lemma NothingLeft(k: nat, fair: nat, remaining: nat)
    requires k > 0 && fair * k + remaining <= 0
    ensures fair == 0 && remaining == 0
  {
    if fair > 0 {
      MulMonotone(1, k, fair);
    }
  }

  /** A node of the list version: an application, or a cluster of one or two applications. */
  datatype Node =
    | AppNode(curve: Curve)
    | ClusterNode(nrApps: int, firstCurve: Curve, sumSlowdown: Curve)
  {
    function Curve(): Curve {
      match this
      case AppNode(c) => c
      case ClusterNode(n, first, sum) => if n == 1 then first else sum
    }
  }

  function NodeCurves(nodes: seq<Node>): (r: seq<Curve>)
    ensures |r| == |nodes| && forall i | 0 <= i < |r| :: r[i] == nodes[i].Curve()
  {
    seq(|nodes|, i requires 0 <= i < |nodes| => nodes[i].Curve())
  }

  /** lookahead_algorithm_list: the version that walks a list, with its shortcut for one node. */
  method LookaheadList(nodes: seq<Node>, nrWays: int, solution: array<int>)
    requires AllWellFormed(NodeCurves(nodes)) && 0 < |nodes| <= solution.Length
    modifies solution
    ensures solution[..|nodes|] == if |nodes| == 1 then [nrWays] else Lookahead(NodeCurves(nodes), nrWays)
    ensures forall k | |nodes| <= k < solution.Length :: solution[k] == old(solution[k])
  {
    hide Greedy;
    hide Spread;
    var nrApps := |nodes|;
    if nrApps == 1 {
      solution[0] := nrWays;
      return;
    }
    var curves := NodeCurves(nodes);
    var availableWays := GiveOneWayEach(nrApps, nrWays, solution);
    availableWays := GreedyPhase(curves, nrWays, availableWays, solution);
    SpreadLeftover(nrApps, availableWays, solution);
  }
}

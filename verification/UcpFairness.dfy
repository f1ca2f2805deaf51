/**
 * The fairness phase that follows the lookahead allocation (ucp_unfairness): the
 * application suffering most takes one way from the donor that makes the total
 * slowdown grow least, as long as that growth is at most STEAL_THRESHOLD.
 */
module UcpFairness {
  import opened Arithmetic
  import opened Constants
  import opened Sequences
  import opened Ucp
  import UcpTheorems

  const STEAL_THRESHOLD := 70

  datatype Transfer = Transfer(receiver: nat, donor: nat)

  /** unmerged holds the applications that have not received a way; log lists the transfers made. */
  datatype State = State(ways: seq<int>, unmerged: set<nat>, log: seq<Transfer>)

  /** The largest share one of n applications can hold when each keeps a way. */
  function Top(ways: seq<int>): int {
    Sum(ways) - |ways| + 1
  }

  ghost predicate Fits(curves: seq<Curve>, ways: seq<int>) {
    && 0 < |ways| == |curves|
    && (forall i | 0 <= i < |ways| :: 1 <= ways[i])
    && (forall i | 0 <= i < |curves| :: |curves[i]| > 0 && Top(ways) <= curves[i][0] < |curves[i]|)
    && (forall i, w | 0 <= i < |curves| && 1 <= w <= Top(ways) :: -INT_MAX < curves[i][w])
  }

  lemma ShareBound(ways: seq<int>, i: nat)
    requires i < |ways| && forall k | 0 <= k < |ways| :: 1 <= ways[k]
    ensures ways[i] <= Top(ways)
  {
    SumBoundsEntry(ways, 1, i);
  }

  // A receiver can read its next entry whenever somebody else has a way to spare.
  lemma RoomToGrow(ways: seq<int>, r: nat, d: nat)
    requires r < |ways| && d < |ways| && r != d && ways[d] > 1
    requires forall k | 0 <= k < |ways| :: 1 <= ways[k]
    ensures ways[r] + 1 <= Top(ways)
  {
    SumUpdate(ways, d, ways[d] - 1);
    ShareBound(ways[d := ways[d] - 1], r);
  }

  function Slowdown(curves: seq<Curve>, ways: seq<int>, i: nat): int
    requires Fits(curves, ways) && i < |ways|
  {
    ShareBound(ways, i);
    curves[i][ways[i]]
  }

  function Slowdowns(curves: seq<Curve>, ways: seq<int>): (r: seq<int>)
    requires Fits(curves, ways)
    ensures |r| == |ways|
  {
    seq(|ways|, i requires 0 <= i < |ways| => Slowdown(curves, ways, i))
  }

  ghost predicate FirstMax(v: seq<int>, i: int) {
    0 <= i < |v| && (forall j | 0 <= j < |v| :: v[j] <= v[i]) && (forall j | 0 <= j < i :: v[j] < v[i])
  }

  function MaxIndex(v: seq<int>): (i: int)
    requires |v| > 0
    ensures FirstMax(v, i)
  {
    if |v| == 1 then 0
    else
      var i := MaxIndex(v[..|v| - 1]);
      assert v[..|v| - 1][i] == v[i];
      assert forall j | 0 <= j < |v| - 1 :: v[j] == v[..|v| - 1][j];
      if v[|v| - 1] > v[i] then |v| - 1 else i
  }

  /** d may give a way to r: it has one to spare and would not end up worse off than r is now. */
  predicate CanDonate(curves: seq<Curve>, s: State, r: nat, d: nat)
    requires Fits(curves, s.ways) && r < |s.ways| && d < |s.ways|
  {
    && d in s.unmerged && d != r && s.ways[d] != 1
    && (ShareBound(s.ways, d); curves[d][s.ways[d] - 1] <= Slowdown(curves, s.ways, r))
  }

  /** How much the sum of both slowdowns changes when d gives one way to r. */
  function StealCost(curves: seq<Curve>, s: State, r: nat, d: nat): int
    requires Fits(curves, s.ways) && r < |s.ways| && d < |s.ways| && CanDonate(curves, s, r, d)
  {
    RoomToGrow(s.ways, r, d);
    ShareBound(s.ways, d);
    curves[r][s.ways[r] + 1] - curves[r][s.ways[r]] - (curves[d][s.ways[d]] - curves[d][s.ways[d] - 1])
  }

  // The same in terms of the curves and the ways alone.

  function Entry(c: seq<int>, k: int): int {
    if 0 <= k < |c| then c[k] else 0
  }

  /** Of those that have not received a way, everybody else with at least two ways may give one, unless that leaves it worse off than r is now. */
  ghost predicate Legal(curves: seq<Curve>, s: State, r: int, d: int) {
    && 0 <= r < |s.ways| == |curves| && 0 <= d < |s.ways| && d in s.unmerged && d != r && s.ways[d] >= 2
    && Entry(curves[d], s.ways[d] - 1) <= Entry(curves[r], s.ways[r])
  }

  /** By how much the two slowdowns together grow. */
  ghost function Growth(curves: seq<Curve>, ways: seq<int>, r: nat, d: nat): int
    requires |ways| == |curves| && r < |ways| && d < |ways|
  {
    (Entry(curves[r], ways[r] + 1) + Entry(curves[d], ways[d] - 1)) - (Entry(curves[r], ways[r]) + Entry(curves[d], ways[d]))
  }

  /** Nobody's slowdown is greater, and nobody's before it is as great. */
  ghost predicate WorstOff(curves: seq<Curve>, ways: seq<int>, r: int) {
    && 0 <= r < |ways| == |curves|
    && (forall j | 0 <= j < |ways| :: Entry(curves[j], ways[j]) <= Entry(curves[r], ways[r]))
    && (forall j | 0 <= j < r :: Entry(curves[j], ways[j]) < Entry(curves[r], ways[r]))
  }

  /** Taking a way from d makes the slowdowns grow least, and d is the first such donor. */
  ghost predicate BestDonor(curves: seq<Curve>, s: State, r: nat, d: nat) {
    && Legal(curves, s, r, d)
    && (forall j | Legal(curves, s, r, j) :: Growth(curves, s.ways, r, d) <= Growth(curves, s.ways, r, j))
    && (forall j | Legal(curves, s, r, j) && j < d :: Growth(curves, s.ways, r, d) < Growth(curves, s.ways, r, j))
  }

  lemma DonorMeaning(curves: seq<Curve>, s: State, r: nat, d: nat)
    requires Fits(curves, s.ways) && r < |s.ways| && d < |s.ways|
    ensures CanDonate(curves, s, r, d) <==> Legal(curves, s, r, d)
    ensures CanDonate(curves, s, r, d) ==> StealCost(curves, s, r, d) == Growth(curves, s.ways, r, d)
  {
    hide Top;
    ShareBound(s.ways, r);
    ShareBound(s.ways, d);
    if Legal(curves, s, r, d) {
      RoomToGrow(s.ways, r, d);
    }
  }

  lemma WorstMeaning(curves: seq<Curve>, ways: seq<int>, r: int)
    requires Fits(curves, ways)
    ensures FirstMax(Slowdowns(curves, ways), r) <==> WorstOff(curves, ways, r)
  {
    hide Top;
    forall j | 0 <= j < |ways| ensures Slowdowns(curves, ways)[j] == Entry(curves[j], ways[j]) {
      ShareBound(ways, j);
    }
  }

  /** (cost, d) is the first of the cheapest donations among the first n applications, if any is below INT_MAX. */
  ghost predicate FirstCheapest(curves: seq<Curve>, s: State, r: nat, n: nat, cost: int, d: int)
    requires Fits(curves, s.ways) && r < |s.ways| && n <= |s.ways|
  {
    if d == -1 then
      cost == INT_MAX && forall j: nat | j < n && CanDonate(curves, s, r, j) :: StealCost(curves, s, r, j) >= INT_MAX
    else
      && 0 <= d < n && CanDonate(curves, s, r, d) && cost == StealCost(curves, s, r, d) < INT_MAX
      && (forall j: nat | j < n && CanDonate(curves, s, r, j) :: cost <= StealCost(curves, s, r, j))
      && (forall j: nat | j < d && CanDonate(curves, s, r, j) :: cost < StealCost(curves, s, r, j))
  }

  function Cheapest(curves: seq<Curve>, s: State, r: nat, n: nat): (c: (int, int))
    requires Fits(curves, s.ways) && r < |s.ways| && n <= |s.ways|
    ensures FirstCheapest(curves, s, r, n, c.0, c.1)
  {
    if n == 0 then (INT_MAX, -1)
    else
      var c := Cheapest(curves, s, r, n - 1);
      if CanDonate(curves, s, r, n - 1) && StealCost(curves, s, r, n - 1) < c.0
      then (StealCost(curves, s, r, n - 1), n - 1)
      else c
  }

  /** The donor found is the best one, and one is found whenever a donation costs less than the greatest integer. */
  lemma CheapestMeaning(curves: seq<Curve>, s: State, r: nat)
    requires Fits(curves, s.ways) && r < |s.ways|
    ensures var (cost, d) := Cheapest(curves, s, r, |s.ways|);
            if d == -1 then
              cost == INT_MAX && forall j | Legal(curves, s, r, j) :: Growth(curves, s.ways, r, j) >= INT_MAX
            else
              0 <= d && BestDonor(curves, s, r, d) && cost == Growth(curves, s.ways, r, d) < INT_MAX
  {
    hide Fits;
    hide CanDonate;
    hide StealCost;
    hide Growth;
    hide Cheapest;
    var (cost, d) := Cheapest(curves, s, r, |s.ways|);
    assert FirstCheapest(curves, s, r, |s.ways|, cost, d);
    forall j: nat | j < |s.ways|
      ensures CanDonate(curves, s, r, j) <==> Legal(curves, s, r, j)
      ensures CanDonate(curves, s, r, j) ==> StealCost(curves, s, r, j) == Growth(curves, s.ways, r, j)
    {
      DonorMeaning(curves, s, r, j);
    }
  }

  /** cost_way_stealing: the scan for the cheapest donor. */
  method CostWayStealing(curves: seq<Curve>, ghost s: State, idxApp: nat, unmerged: set<nat>, waysAssigned: array<int>)
    returns (minCost: int, minIdx: int)
    requires Fits(curves, s.ways) && |curves| <= waysAssigned.Length && idxApp < |s.ways|
    requires waysAssigned[..|curves|] == s.ways && unmerged == s.unmerged
    ensures (minCost, minIdx) == Cheapest(curves, s, idxApp, |s.ways|)
    ensures if minIdx == -1 then
              minCost == INT_MAX && forall j | Legal(curves, s, idxApp, j) :: Growth(curves, s.ways, idxApp, j) >= INT_MAX
            else
              0 <= minIdx && BestDonor(curves, s, idxApp, minIdx) && minCost == Growth(curves, s.ways, idxApp, minIdx) < INT_MAX
  {
    hide *;
    CheapestMeaning(curves, s, idxApp);
    minCost, minIdx := ScanDonors(curves, s, idxApp, unmerged, waysAssigned);
  }

  method ScanDonors(curves: seq<Curve>, ghost s: State, idxApp: nat, unmerged: set<nat>, waysAssigned: array<int>)
    returns (minCost: int, minIdx: int)
    requires Fits(curves, s.ways) && |curves| <= waysAssigned.Length && idxApp < |s.ways|
    requires waysAssigned[..|curves|] == s.ways && unmerged == s.unmerged
    ensures (minCost, minIdx) == Cheapest(curves, s, idxApp, |s.ways|)
  {
    hide Top;
    hide FirstCheapest;
    minCost, minIdx := INT_MAX, -1;
    ShareBound(s.ways, idxApp);
    assert waysAssigned[idxApp] == s.ways[idxApp];
    var curSlowdown := curves[idxApp][waysAssigned[idxApp]];
    for i := 0 to |curves|
      invariant (minCost, minIdx) == Cheapest(curves, s, idxApp, i)
    {
      assert waysAssigned[i] == s.ways[i];
      ShareBound(s.ways, i);
      if i !in unmerged || i == idxApp || waysAssigned[i] == 1 || curves[i][waysAssigned[i] - 1] > curSlowdown {
        assert !CanDonate(curves, s, idxApp, i);
      } else {
        RoomToGrow(s.ways, idxApp, i);
        var slowdownRed := curves[idxApp][waysAssigned[idxApp] + 1] - curves[idxApp][waysAssigned[idxApp]]
                           - (curves[i][waysAssigned[i]] - curves[i][waysAssigned[i] - 1]);
        if slowdownRed < minCost {
          minCost, minIdx := slowdownRed, i;
        }
      }
    }
  }

  function Give(ways: seq<int>, i: nat, k: int): (w: seq<int>)
    requires i < |ways|
    ensures |w| == |ways|
  {
    ways[i := ways[i] + k]
  }

  function Move(ways: seq<int>, r: nat, d: nat): (w: seq<int>)
    requires r < |ways| && d < |ways|
    ensures |w| == |ways|
  {
    Give(Give(ways, r, 1), d, -1)
  }

  lemma GiveSum(ways: seq<int>, i: nat, k: int)
    requires i < |ways|
    ensures Sum(Give(ways, i, k)) == Sum(ways) + k
  {
    hide Sum;
    SumUpdate(ways, i, ways[i] + k);
  }

  lemma MoveConserves(ways: seq<int>, r: nat, d: nat)
    requires r < |ways| && d < |ways|
    ensures Sum(Move(ways, r, d)) == Sum(ways) && Top(Move(ways, r, d)) == Top(ways)
  {
    hide Sum;
    hide Give;
    GiveSum(ways, r, 1);
    GiveSum(Give(ways, r, 1), d, -1);
  }

  /** One round; the state is unchanged when the search is over. */
  function Steal(curves: seq<Curve>, s: State): (t: State)
    requires Fits(curves, s.ways)
    ensures Fits(curves, t.ways) && |t.ways| == |s.ways|
  {
    var r := MaxIndex(Slowdowns(curves, s.ways));
    var c := Cheapest(curves, s, r, |s.ways|);
    if r !in s.unmerged || c.0 > STEAL_THRESHOLD then s
    else
      MoveConserves(s.ways, r, c.1);
      State(Move(s.ways, r, c.1), s.unmerged - {r}, s.log + [Transfer(r, c.1)])
  }

  function StealAll(curves: seq<Curve>, s: State, rounds: nat): (t: State)
    requires Fits(curves, s.ways)
    ensures Fits(curves, t.ways) && |t.ways| == |s.ways|
    decreases rounds
  {
    if rounds == 0 || Steal(curves, s) == s then s
    else StealAll(curves, Steal(curves, s), rounds - 1)
  }

  lemma RoundsUnfold(curves: seq<Curve>, s: State, rounds: nat)
    requires Fits(curves, s.ways)
    ensures rounds == 0 ==> StealAll(curves, s, rounds) == s
    ensures rounds > 0 ==>
              StealAll(curves, s, rounds)
              == if Steal(curves, s) == s then s else StealAll(curves, Steal(curves, s), rounds - 1)
  {
    hide Fits;
    hide Steal;
  }

  function Start(ways: seq<int>): State {
    State(ways, Below(|ways|), [])
  }

  /** The curves are measured as far as one application's share can go. */
  ghost predicate Measured(curves: seq<Curve>, nrWays: int) {
    && AllWellFormed(curves)
    && forall i | 0 <= i < |curves| ::
         && nrWays - |curves| + 1 <= curves[i][0]
         && forall w | 1 <= w <= curves[i][0] :: -INT_MAX < curves[i][w]
  }

  lemma LookaheadFits(curves: seq<Curve>, nrWays: int)
    requires Measured(curves, nrWays) && |curves| > 0
    ensures Fits(curves, Lookahead(curves, nrWays))
  {
    UcpTheorems.LookaheadConserves(curves, nrWays);
    SumConstant(Ones(|curves|), 1);
  }

  // The search for the application suffering most.
  method FindMax(v: array<int>, n: nat) returns (maxIdx: int)
    requires 0 < n <= v.Length && forall i | 0 <= i < n :: -INT_MAX < v[i]
    ensures maxIdx == MaxIndex(v[..n])
  {
    maxIdx := -1;
    var maxSlowdown := -INT_MAX;
    for j := 0 to n
      invariant if j == 0 then maxIdx == -1 && maxSlowdown == -INT_MAX
                else maxIdx == MaxIndex(v[..j]) && maxSlowdown == v[maxIdx]
    {
      assert j > 0 ==> v[..j + 1][..j] == v[..j];
      if v[j] > maxSlowdown {
        maxIdx, maxSlowdown := j, v[j];
      }
    }
  }

  /** ucp_unfairness: lookahead followed by at most one round per application. */
  method UcpUnfairness(apps: seq<Curve>, nrWays: int, solution: array<int>)
    requires Measured(apps, nrWays) && 0 < |apps| <= solution.Length && |apps| <= MAX_APPS
    modifies solution
    ensures Fits(apps, Lookahead(apps, nrWays))
    ensures solution[..|apps|] == StealAll(apps, Start(Lookahead(apps, nrWays)), |apps|).ways
    ensures forall k | |apps| <= k < solution.Length :: solution[k] == old(solution[k])
  {
    hide Fits;
    hide Lookahead;
    hide Slowdowns;
    hide StealAll;
    LookaheadArray(apps, nrWays, solution);
    LookaheadFits(apps, nrWays);
    ghost var s := Start(solution[..|apps|]);
    var slowdownVector := new int[MAX_APPS];
    FillSlowdowns(apps, s.ways, solution, slowdownVector);
    StealRounds(apps, s, solution, slowdownVector);
  }

  // The loop of ucp_unfairness.
  method StealRounds(apps: seq<Curve>, ghost start: State, solution: array<int>, slowdownVector: array<int>)
    requires Fits(apps, start.ways) && start.unmerged == Below(|apps|)
    requires |apps| <= solution.Length && solution[..|apps|] == start.ways
    requires |apps| <= slowdownVector.Length && slowdownVector != solution
    requires slowdownVector[..|apps|] == Slowdowns(apps, start.ways)
    modifies solution, slowdownVector
    ensures solution[..|apps|] == StealAll(apps, start, |apps|).ways
    ensures forall k | |apps| <= k < solution.Length :: solution[k] == old(solution[k])
  {
    hide Fits;
    hide Slowdowns;
    hide Steal;
    hide StealAll;
    ghost var s := start;
    var n := |apps|;
    var unmerged := Below(n);
    var i := 0;
    while i < n
      invariant 0 <= i <= n
      invariant Fits(apps, s.ways) && s.ways == solution[..n] && s.unmerged == unmerged
      invariant slowdownVector[..n] == Slowdowns(apps, s.ways)
      invariant StealAll(apps, s, n - i) == StealAll(apps, start, n)
      invariant forall k | n <= k < solution.Length :: solution[k] == old(solution[k])
    {
      ghost var t := Steal(apps, s);
      RoundsUnfold(apps, s, n - i);
      var stop;
      stop, unmerged := StealRound(apps, s, unmerged, solution, slowdownVector);
      if stop {
        break;
      }
      s := t;
      i := i + 1;
    }
    RoundsUnfold(apps, s, n - i);
  }

  // The body of the loop: pick receiver and donor, and move one way, or say that the search is over.
  method StealRound(apps: seq<Curve>, ghost s: State, unmerged: set<nat>, solution: array<int>, slowdownVector: array<int>)
    returns (stop: bool, unmerged': set<nat>)
    requires Fits(apps, s.ways) && s.unmerged == unmerged
    requires |apps| <= solution.Length && solution[..|apps|] == s.ways
    requires |apps| <= slowdownVector.Length && slowdownVector != solution
    requires slowdownVector[..|apps|] == Slowdowns(apps, s.ways)
    modifies solution, slowdownVector
    ensures solution[..|apps|] == Steal(apps, s).ways && unmerged' == Steal(apps, s).unmerged
    ensures stop <==> Steal(apps, s) == s
    ensures slowdownVector[..|apps|] == Slowdowns(apps, Steal(apps, s).ways)
    ensures forall k | |apps| <= k < solution.Length :: solution[k] == old(solution[k])
  {
    stop, unmerged' := false, unmerged;
    VectorInRange(apps, s.ways, slowdownVector, |apps|);
    var maxIdx := FindMax(slowdownVector, |apps|);
    if maxIdx !in unmerged {
      return true, unmerged;
    }
    var minCost, minIdx := CostWayStealing(apps, s, maxIdx, unmerged, solution);
    if minCost > STEAL_THRESHOLD {
      return true, unmerged;
    }
    ghost var t := Steal(apps, s);
    TransferWay(maxIdx, minIdx, |apps|, solution);
    unmerged' := unmerged - {maxIdx};
    Refresh(apps, s.ways, t.ways, maxIdx, minIdx, solution, slowdownVector);
    assert |t.log| == |s.log| + 1;
  }

  method TransferWay(maxIdx: nat, minIdx: nat, n: nat, solution: array<int>)
    requires maxIdx < n && minIdx < n && n <= solution.Length
    modifies solution
    ensures solution[..n] == Move(old(solution[..n]), maxIdx, minIdx)
    ensures forall k | n <= k < solution.Length :: solution[k] == old(solution[k])
  {
    solution[maxIdx] := solution[maxIdx] + 1;
    solution[minIdx] := solution[minIdx] - 1;
  }

  method FillSlowdowns(apps: seq<Curve>, ghost ways: seq<int>, solution: array<int>, slowdownVector: array<int>)
    requires Fits(apps, ways) && |apps| <= solution.Length && solution[..|apps|] == ways
    requires |apps| <= slowdownVector.Length && slowdownVector != solution
    modifies slowdownVector
    ensures slowdownVector[..|apps|] == Slowdowns(apps, ways)
  {
    for i := 0 to |apps|
      invariant solution[..|apps|] == ways
      invariant forall k | 0 <= k < i :: slowdownVector[k] == Slowdown(apps, ways, k)
    {
      assert solution[i] == ways[i];
      ShareBound(ways, i);
      slowdownVector[i] := apps[i][solution[i]];
    }
  }

  // After a transfer only the two entries involved need to be read again.
  method Refresh(apps: seq<Curve>, ghost was: seq<int>, ghost ways: seq<int>, maxIdx: nat, minIdx: nat,
                 solution: array<int>, slowdownVector: array<int>)
    requires Fits(apps, was) && Fits(apps, ways) && maxIdx < |ways| && minIdx < |ways|
    requires ways == Move(was, maxIdx, minIdx)
    requires |apps| <= solution.Length && solution[..|apps|] == ways
    requires |apps| <= slowdownVector.Length && slowdownVector != solution
    requires slowdownVector[..|apps|] == Slowdowns(apps, was)
    modifies slowdownVector
    ensures slowdownVector[..|apps|] == Slowdowns(apps, ways)
  {
    ShareBound(ways, maxIdx);
    ShareBound(ways, minIdx);
    assert solution[maxIdx] == ways[maxIdx] && solution[minIdx] == ways[minIdx];
    ghost var v := slowdownVector[..|apps|];
    slowdownVector[maxIdx] := apps[maxIdx][solution[maxIdx]];
    slowdownVector[minIdx] := apps[minIdx][solution[minIdx]];
    forall i | 0 <= i < |apps| ensures slowdownVector[i] == Slowdown(apps, ways, i) {
      assert v[i] == Slowdown(apps, was, i);
    }
  }

  lemma VectorInRange(apps: seq<Curve>, ways: seq<int>, v: array<int>, n: nat)
    requires Fits(apps, ways) && n == |apps| <= v.Length && v[..n] == Slowdowns(apps, ways)
    ensures forall i | 0 <= i < n :: -INT_MAX < v[i]
  {
    forall i | 0 <= i < n ensures -INT_MAX < v[i] {
      assert v[..n][i] == Slowdown(apps, ways, i);
      ShareBound(ways, i);
    }
  }

  // ---------------------------------------------------------------------------
  // What the phase guarantees
  // ---------------------------------------------------------------------------

  /** The cache stays fully used and nobody is left without a way. */
  lemma {:induction false} StealingConserves(curves: seq<Curve>, s: State, rounds: nat)
    requires Fits(curves, s.ways)
    ensures var t := StealAll(curves, s, rounds);
            Sum(t.ways) == Sum(s.ways) && forall i | 0 <= i < |t.ways| :: 1 <= t.ways[i]
    decreases rounds
  {
    hide Steal;
    if rounds > 0 && Steal(curves, s) != s {
      StealKeepsSum(curves, s);
      StealingConserves(curves, Steal(curves, s), rounds - 1);
    }
  }

  lemma StealKeepsSum(curves: seq<Curve>, s: State)
    requires Fits(curves, s.ways)
    ensures Sum(Steal(curves, s).ways) == Sum(s.ways)
  {
    var r := MaxIndex(Slowdowns(curves, s.ways));
    var c := Cheapest(curves, s, r, |s.ways|);
    if !(r !in s.unmerged || c.0 > STEAL_THRESHOLD) {
      MoveConserves(s.ways, r, c.1);
    }
  }

  ghost predicate Shrinking(curves: seq<Curve>) {
    forall i | 0 <= i < |curves| :: UcpTheorems.NonIncreasing(curves[i])
  }

  ghost predicate Bounded(curves: seq<Curve>, ways: seq<int>, bound: int)
    requires Fits(curves, ways)
  {
    forall i: nat | i < |ways| :: Slowdown(curves, ways, i) <= bound
  }

  lemma StealKeepsBound(curves: seq<Curve>, s: State, bound: int)
    requires Fits(curves, s.ways) && Shrinking(curves) && Bounded(curves, s.ways, bound)
    ensures Bounded(curves, Steal(curves, s).ways, bound)
  {
    var r := MaxIndex(Slowdowns(curves, s.ways));
    var c := Cheapest(curves, s, r, |s.ways|);
    var t := Steal(curves, s);
    if !(r !in s.unmerged || c.0 > STEAL_THRESHOLD) {
      forall i: nat | i < |t.ways| ensures Slowdown(curves, t.ways, i) <= bound {
        ShareBound(t.ways, i);
        assert Slowdown(curves, s.ways, r) <= bound && Slowdown(curves, s.ways, i) <= bound;
      }
    }
  }

  /** No round raises the greatest slowdown: every bound on it before the phase is a bound after it. */
  lemma {:induction false} StealingKeepsBound(curves: seq<Curve>, s: State, rounds: nat, bound: int)
    requires Fits(curves, s.ways) && Shrinking(curves) && Bounded(curves, s.ways, bound)
    ensures Bounded(curves, StealAll(curves, s, rounds).ways, bound)
    decreases rounds
  {
    hide Steal;
    if rounds > 0 && Steal(curves, s) != s {
      StealKeepsBound(curves, s, bound);
      StealingKeepsBound(curves, Steal(curves, s), rounds - 1, bound);
    }
  }

  lemma StealCostsLittle(curves: seq<Curve>, s: State)
    requires Fits(curves, s.ways)
    ensures Sum(Slowdowns(curves, Steal(curves, s).ways)) <= Sum(Slowdowns(curves, s.ways)) + STEAL_THRESHOLD
  {
    hide Sum;
    var r := MaxIndex(Slowdowns(curves, s.ways));
    var c := Cheapest(curves, s, r, |s.ways|);
    var t := Steal(curves, s);
    if !(r !in s.unmerged || c.0 > STEAL_THRESHOLD) {
      var d := c.1;
      ShareBound(t.ways, r);
      ShareBound(t.ways, d);
      var v := Slowdowns(curves, s.ways);
      var v' := v[r := curves[r][s.ways[r] + 1]];
      SumUpdate(v, r, v'[r]);
      SumUpdate(v', d, curves[d][s.ways[d] - 1]);
      assert Slowdowns(curves, t.ways) == v'[d := curves[d][s.ways[d] - 1]];
    }
  }

  /** Fairness costs at most STEAL_THRESHOLD of total slowdown per round, whatever the curves look like. */
  lemma {:induction false} StealingCostsLittle(curves: seq<Curve>, s: State, rounds: nat)
    requires Fits(curves, s.ways)
    ensures Sum(Slowdowns(curves, StealAll(curves, s, rounds).ways))
         <= Sum(Slowdowns(curves, s.ways)) + STEAL_THRESHOLD * rounds
    decreases rounds
  {
    hide Steal;
    if rounds > 0 && Steal(curves, s) != s {
      StealCostsLittle(curves, s);
      StealingCostsLittle(curves, Steal(curves, s), rounds - 1);
    }
  }

  /** Each transfer names two applications, no application receives twice, and none donates after receiving. */
  ghost predicate Orderly(s: State) {
    && (forall k | 0 <= k < |s.log| :: s.log[k].receiver != s.log[k].donor && s.log[k].receiver !in s.unmerged)
    && (forall j, k | 0 <= j < k < |s.log| ::
          s.log[j].receiver != s.log[k].receiver && s.log[j].receiver != s.log[k].donor)
  }

  function CountReceived(log: seq<Transfer>, i: nat): nat {
    if log == [] then 0 else CountReceived(log[..|log| - 1], i) + if log[|log| - 1].receiver == i then 1 else 0
  }

  function CountDonated(log: seq<Transfer>, i: nat): nat {
    if log == [] then 0 else CountDonated(log[..|log| - 1], i) + if log[|log| - 1].donor == i then 1 else 0
  }

  /** The log accounts for every way that changed hands since the shares in ways. */
  ghost predicate Explains(ways: seq<int>, s: State) {
    |ways| == |s.ways|
    && forall i: nat | i < |ways| :: s.ways[i] == ways[i] + CountReceived(s.log, i) - CountDonated(s.log, i)
  }

  lemma TransferKeepsOrder(s: State, ways: seq<int>, r: nat, d: nat)
    requires Orderly(s) && r in s.unmerged && d in s.unmerged && r != d
    ensures Orderly(State(ways, s.unmerged - {r}, s.log + [Transfer(r, d)]))
  {
  }

  lemma TransferExplained(from: seq<int>, s: State, unmerged: set<nat>, r: nat, d: nat)
    requires Explains(from, s) && r < |s.ways| && d < |s.ways| && r != d
    ensures Explains(from, State(Move(s.ways, r, d), unmerged, s.log + [Transfer(r, d)]))
  {
    var log := s.log + [Transfer(r, d)];
    assert log[..|log| - 1] == s.log;
  }

  lemma StealIsOrderly(curves: seq<Curve>, s: State, from: seq<int>)
    requires Fits(curves, s.ways) && Orderly(s) && Explains(from, s)
    ensures Orderly(Steal(curves, s)) && Explains(from, Steal(curves, s))
    ensures Steal(curves, s) != s ==> |Steal(curves, s).log| == |s.log| + 1
  {
    hide Orderly;
    hide Explains;
    hide Top;
    hide Move;
    hide Slowdowns;
    var r := MaxIndex(Slowdowns(curves, s.ways));
    var c := Cheapest(curves, s, r, |s.ways|);
    if !(r !in s.unmerged || c.0 > STEAL_THRESHOLD) {
      assert FirstCheapest(curves, s, r, |s.ways|, c.0, c.1);
      TransferKeepsOrder(s, Move(s.ways, r, c.1), r, c.1);
      TransferExplained(from, s, s.unmerged - {r}, r, c.1);
    }
  }

  lemma {:induction false} StealingIsOrderly(curves: seq<Curve>, s: State, rounds: nat, from: seq<int>)
    requires Fits(curves, s.ways) && Orderly(s) && Explains(from, s)
    ensures var t := StealAll(curves, s, rounds);
            Orderly(t) && Explains(from, t) && |t.log| <= |s.log| + rounds
    decreases rounds
  {
    hide Steal;
    if rounds > 0 && Steal(curves, s) != s {
      StealIsOrderly(curves, s, from);
      StealingIsOrderly(curves, Steal(curves, s), rounds - 1, from);
    }
  }

  lemma {:induction false} ReceivedAtMostOnce(log: seq<Transfer>, i: nat)
    requires forall j, k | 0 <= j < k < |log| :: log[j].receiver != log[k].receiver
    ensures CountReceived(log, i) <= 1
    ensures CountReceived(log, i) == 1 <==> exists k | 0 <= k < |log| :: log[k].receiver == i
  {
    if log != [] {
      var prefix := log[..|log| - 1];
      ReceivedAtMostOnce(prefix, i);
      if exists k | 0 <= k < |log| :: log[k].receiver == i {
        var k :| 0 <= k < |log| && log[k].receiver == i;
        assert k < |log| - 1 ==> prefix[k].receiver == i;
        if log[|log| - 1].receiver == i {
          assert forall j | 0 <= j < |prefix| :: prefix[j].receiver != i;
        }
      }
    }
  }

  /** The search is over: the worst-off application has had its way, or every donation to it costs too much. */
  ghost predicate Over(curves: seq<Curve>, s: State) {
    exists r: nat :: WorstOff(curves, s.ways, r) && (r in s.unmerged ==> TooDear(curves, s, r))
  }

  ghost predicate TooDear(curves: seq<Curve>, s: State, r: nat) {
    forall d: nat | Legal(curves, s, r, d) :: Growth(curves, s.ways, r, d) > STEAL_THRESHOLD
  }

  /** The worst-off application, if it has not received a way yet, takes one from the best donor, at no great cost. */
  ghost predicate StealsFrom(curves: seq<Curve>, s: State, t: State, r: nat, d: nat) {
    && WorstOff(curves, s.ways, r) && r in s.unmerged
    && BestDonor(curves, s, r, d) && Growth(curves, s.ways, r, d) <= STEAL_THRESHOLD
    && t == State(s.ways[r := s.ways[r] + 1][d := s.ways[d] - 1], s.unmerged - {r}, s.log + [Transfer(r, d)])
  }

  ghost predicate StealStep(curves: seq<Curve>, s: State, t: State) {
    exists r: nat, d: nat :: StealsFrom(curves, s, t, r, d)
  }

  /** Each round moves a way as it should, and the run ends after the last round or when the search is over. */
  ghost predicate StealRun(curves: seq<Curve>, run: seq<State>, rounds: nat) {
    && 0 < |run| <= rounds + 1
    && (forall k | 0 <= k < |run| - 1 :: StealStep(curves, run[k], run[k + 1]))
    && (|run| <= rounds ==> Over(curves, run[|run| - 1]))
  }

  /** A round steals as it should, or changes nothing because the search is over. */
  lemma StealMeaning(curves: seq<Curve>, s: State)
    requires Fits(curves, s.ways)
    ensures if Steal(curves, s) == s then Over(curves, s)
            else StealStep(curves, s, Steal(curves, s)) && |Steal(curves, s).log| == |s.log| + 1
  {
    hide Top;
    hide Legal;
    hide Growth;
    hide Slowdowns;
    var r := MaxIndex(Slowdowns(curves, s.ways));
    WorstMeaning(curves, s.ways, r);
    CheapestMeaning(curves, s, r);
    var (cost, d) := Cheapest(curves, s, r, |s.ways|);
    var t := Steal(curves, s);
    if r !in s.unmerged || cost > STEAL_THRESHOLD {
      OverBecause(curves, s, r, cost, d);
    } else {
      assert Legal(curves, s, r, d);
      LegalBounds(curves, s, r, d);
      assert StealsFrom(curves, s, t, r, d);
      assert |t.log| == |s.log| + 1;
    }
  }

  lemma LegalBounds(curves: seq<Curve>, s: State, r: int, d: int)
    requires Legal(curves, s, r, d)
    ensures 0 <= r < |s.ways| && 0 <= d < |s.ways| && r != d
  {
  }

  lemma OverBecause(curves: seq<Curve>, s: State, r: nat, cost: int, d: int)
    requires Fits(curves, s.ways) && WorstOff(curves, s.ways, r)
    requires r in s.unmerged ==> cost > STEAL_THRESHOLD
    requires if d == -1 then cost == INT_MAX && forall j | Legal(curves, s, r, j) :: Growth(curves, s.ways, r, j) >= INT_MAX
             else 0 <= d && BestDonor(curves, s, r, d) && cost == Growth(curves, s.ways, r, d) < INT_MAX
    ensures Over(curves, s)
  {
    hide Fits;
    hide Legal;
    hide Growth;
    hide WorstOff;
  }

  /** The phase only stops early when the search is over. */
  lemma {:induction false} StopsOnlyWhenOver(curves: seq<Curve>, s: State, rounds: nat)
    requires Fits(curves, s.ways)
    ensures |StealAll(curves, s, rounds).log| < |s.log| + rounds ==> Over(curves, StealAll(curves, s, rounds))
    decreases rounds
  {
    hide Steal;
    hide Over;
    StealMeaning(curves, s);
    if rounds > 0 && Steal(curves, s) != s {
      StopsOnlyWhenOver(curves, Steal(curves, s), rounds - 1);
    }
  }

  lemma OneWorst(curves: seq<Curve>, ways: seq<int>, r: int, r': int)
    requires WorstOff(curves, ways, r) && WorstOff(curves, ways, r')
    ensures r == r'
  {
    assert Entry(curves[r], ways[r]) == Entry(curves[r'], ways[r']);
  }

  lemma OneBestDonor(curves: seq<Curve>, s: State, r: nat, d: nat, d': nat)
    requires BestDonor(curves, s, r, d) && BestDonor(curves, s, r, d')
    ensures d == d'
  {
    hide Legal;
    hide Growth;
  }

  // A donation to the worst-off application that is cheap enough rules out that the search is over.
  lemma NotOver(curves: seq<Curve>, s: State, t: State, r: nat, d: nat)
    requires StealsFrom(curves, s, t, r, d)
    ensures !Over(curves, s)
  {
    hide WorstOff;
    hide Legal;
    hide Growth;
    if Over(curves, s) {
      var r': nat :| WorstOff(curves, s.ways, r') && (r' in s.unmerged ==> TooDear(curves, s, r'));
      OneWorst(curves, s.ways, r, r');
    }
  }

  // When the search is over there is nothing to steal, and otherwise at most one way to do it.
  lemma StealUnique(curves: seq<Curve>, s: State, t: State)
    requires Fits(curves, s.ways)
    ensures StealStep(curves, s, t) ==> t == Steal(curves, s) != s
    ensures Over(curves, s) ==> Steal(curves, s) == s
  {
    hide Fits;
    hide Steal;
    hide StealsFrom;
    hide Over;
    StealMeaning(curves, s);
    if Steal(curves, s) != s {
      var r': nat, d': nat :| StealsFrom(curves, s, Steal(curves, s), r', d');
      NotOver(curves, s, Steal(curves, s), r', d');
      if r: nat, d: nat :| StealsFrom(curves, s, t, r, d) {
        SameTheft(curves, s, t, Steal(curves, s), r, d, r', d');
      }
    } else if r: nat, d: nat :| StealsFrom(curves, s, t, r, d) {
      NotOver(curves, s, t, r, d);
    }
  }

  lemma SameTheft(curves: seq<Curve>, s: State, t: State, t': State, r: nat, d: nat, r': nat, d': nat)
    requires StealsFrom(curves, s, t, r, d) && StealsFrom(curves, s, t', r', d')
    ensures t == t'
  {
    hide Growth;
    OneWorst(curves, s.ways, r, r');
    OneBestDonor(curves, s, r, d, d');
  }

  lemma {:induction false} RunIsStealing(curves: seq<Curve>, run: seq<State>, rounds: nat)
    requires StealRun(curves, run, rounds) && Fits(curves, run[0].ways)
    ensures run[|run| - 1] == StealAll(curves, run[0], rounds)
    decreases rounds
  {
    hide Fits;
    hide Steal;
    hide StealStep;
    hide Over;
    StealUnique(curves, run[0], if |run| > 1 then run[1] else run[0]);
    RoundsUnfold(curves, run[0], rounds);
    if |run| > 1 {
      assert StealStep(curves, run[0], run[0 + 1]);
      var rest := run[1..];
      forall k | 0 <= k < |rest| - 1 ensures StealStep(curves, rest[k], rest[k + 1]) {
        assert StealStep(curves, run[k + 1], run[(k + 1) + 1]);
      }
      RunIsStealing(curves, rest, rounds - 1);
    }
  }

  lemma {:induction false} StealingHasRun(curves: seq<Curve>, s: State, rounds: nat) returns (run: seq<State>)
    requires Fits(curves, s.ways)
    ensures StealRun(curves, run, rounds) && run[0] == s && run[|run| - 1] == StealAll(curves, s, rounds)
    decreases rounds
  {
    hide Fits;
    hide Steal;
    hide StealStep;
    hide Over;
    StealMeaning(curves, s);
    RoundsUnfold(curves, s, rounds);
    if rounds == 0 || Steal(curves, s) == s {
      run := [s];
    } else {
      var rest := StealingHasRun(curves, Steal(curves, s), rounds - 1);
      run := [s] + rest;
      forall k | 0 <= k < |run| - 1 ensures StealStep(curves, run[k], run[k + 1]) {
        if k > 0 {
          assert StealStep(curves, rest[k - 1], rest[(k - 1) + 1]);
        }
      }
    }
  }

  /** The phase ends where the one run does in which each round steals as it should. */
  lemma StealingIsRun(curves: seq<Curve>, s: State, rounds: nat, t: State)
    requires Fits(curves, s.ways)
    ensures t == StealAll(curves, s, rounds)
            <==> exists run :: StealRun(curves, run, rounds) && run[0] == s && run[|run| - 1] == t
  {
    hide Fits;
    hide StealAll;
    hide StealStep;
    hide Over;
    var run := StealingHasRun(curves, s, rounds);
    if other :| StealRun(curves, other, rounds) && other[0] == s && other[|other| - 1] == t {
      RunIsStealing(curves, other, rounds);
    }
  }

  /** The whole phase from the lookahead result: a run in which everybody may still receive, and what it guarantees. */
  lemma FairnessPhase(curves: seq<Curve>, nrWays: int) returns (t: State, run: seq<State>)
    requires Measured(curves, nrWays) && 0 < |curves| <= nrWays
    ensures var l := Lookahead(curves, nrWays);
            && Fits(curves, l)
            && t == StealAll(curves, Start(l), |curves|)
            && StealRun(curves, run, |curves|) && run[0] == State(l, Below(|curves|), []) && run[|run| - 1] == t
            && Sum(t.ways) == nrWays && (forall i | 0 <= i < |t.ways| :: 1 <= t.ways[i] <= l[i] + 1)
            && Orderly(t) && Explains(l, t) && |t.log| <= |curves|
            && Sum(Slowdowns(curves, t.ways)) <= Sum(Slowdowns(curves, l)) + STEAL_THRESHOLD * |curves|
            && (Shrinking(curves) ==> forall bound | Bounded(curves, l, bound) :: Bounded(curves, t.ways, bound))
  {
    var l := Lookahead(curves, nrWays);
    LookaheadFits(curves, nrWays);
    UcpTheorems.LookaheadConserves(curves, nrWays);
    var s := Start(l);
    t := StealAll(curves, s, |curves|);
    run := StealingHasRun(curves, s, |curves|);
    hide StealRun;
    StealingConserves(curves, s, |curves|);
    StealingIsOrderly(curves, s, |curves|, l);
    StealingCostsLittle(curves, s, |curves|);
    forall i: nat | i < |t.ways| ensures t.ways[i] <= l[i] + 1 {
      ReceivedAtMostOnce(t.log, i);
    }
    if Shrinking(curves) {
      forall bound | Bounded(curves, l, bound) ensures Bounded(curves, t.ways, bound) {
        StealingKeepsBound(curves, s, |curves|, bound);
      }
    }
  }
}

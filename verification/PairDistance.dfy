/**
 * calculate_slowdown_distance: how much worse (positive) or better (negative) two
 * applications fare when they share a partition than when the lookahead allocator
 * splits it between them, summed over every partition size.
 */
module PairDistance {
  import opened Arithmetic
  import opened CombinedCurve
  import opened Sequences
  import opened Ucp
  import UcpTheorems

  /** Both applications are fully measured up to n ways. */
  ghost predicate Comparable(a0: App, a1: App, n: nat) {
    && Combinable(a0, a1, n) && n <= MAX_NR_WAYS
    && n <= a0.curve[0] < |a0.curve| && n <= a1.curve[0] < |a1.curve|
  }

  /** The greatest slowdown when i ways are split by the lookahead allocator; one way has to be shared. */
  function Partitioned(a0: App, a1: App, combined: seq<int>, i: nat): int
    requires AllWellFormed([a0.curve, a1.curve]) && 1 <= i < |combined|
    requires i < |a0.curve| && i < |a1.curve|
  {
    if i > 1 then
      var r := Lookahead([a0.curve, a1.curve], i);
      SplitInRange([a0.curve, a1.curve], i);
      Max(a0.curve[r[0]], a1.curve[r[1]])
    else combined[i]
  }

  lemma SplitInRange(curves: seq<Curve>, i: nat)
    requires AllWellFormed(curves) && |curves| == 2 <= i
    ensures var r := Lookahead(curves, i); 1 <= r[0] < i && 1 <= r[1] < i
  {
    UcpTheorems.LookaheadConserves(curves, i);
    var r := Lookahead(curves, i);
    SumBoundsEntry(r, 1, 0);
    SumBoundsEntry(r, 1, 1);
  }

  function Distance(a0: App, a1: App, combined: seq<int>, n: nat): int
    requires AllWellFormed([a0.curve, a1.curve]) && n < |combined| && n < |a0.curve| && n < |a1.curve|
  {
    if n == 0 then 0
    else Distance(a0, a1, combined, n - 1) + combined[n] - Partitioned(a0, a1, combined, n)
  }

  /** From two ways on each application has its own share of the lookahead allocation, and the worse of them counts. */
  lemma PartitionedMeaning(a0: App, a1: App, combined: seq<int>, i: nat, r: seq<int>)
    requires AllWellFormed([a0.curve, a1.curve]) && 1 <= i < |combined|
    requires i < |a0.curve| && i < |a1.curve| && r == Lookahead([a0.curve, a1.curve], i)
    ensures var v := Partitioned(a0, a1, combined, i);
            && (i == 1 ==> v == combined[1])
            && (i >= 2 ==>
                  && r[0] + r[1] == i && 1 <= r[0] < i && 1 <= r[1] < i
                  && v >= a0.curve[r[0]] && v >= a1.curve[r[1]] && (v == a0.curve[r[0]] || v == a1.curve[r[1]]))
  {
    hide Lookahead;
    if i >= 2 {
      SplitInRange([a0.curve, a1.curve], i);
      UcpTheorems.LookaheadConserves([a0.curve, a1.curve], i);
      SumOfTwo(r);
    }
  }

  lemma SumOfTwo(r: seq<int>)
    requires |r| == 2
    ensures Sum(r) == r[0] + r[1]
  {
    assert r[1..][1..] == [] && Sum(r[1..]) == r[1] + Sum(r[1..][1..]);
  }

  /** What partitioning costs with 1 to n ways. */
  function PartitionedCurve(a0: App, a1: App, combined: seq<int>, n: nat): (r: seq<int>)
    requires AllWellFormed([a0.curve, a1.curve]) && n < |combined| && n < |a0.curve| && n < |a1.curve|
    ensures |r| == n && forall i | 0 <= i < n :: r[i] == Partitioned(a0, a1, combined, i + 1)
  {
    seq(n, i requires 0 <= i < n => Partitioned(a0, a1, combined, i + 1))
  }

  /** The distance is what sharing costs in total, less what partitioning costs: negative exactly when sharing is better. */
  lemma {:induction false} DistanceIsDifference(a0: App, a1: App, combined: seq<int>, n: nat)
    requires AllWellFormed([a0.curve, a1.curve]) && n < |combined| && n < |a0.curve| && n < |a1.curve|
    ensures Distance(a0, a1, combined, n) == Sum(combined[1..n + 1]) - Sum(PartitionedCurve(a0, a1, combined, n))
    ensures Distance(a0, a1, combined, n) < 0 <==> Sum(combined[1..n + 1]) < Sum(PartitionedCurve(a0, a1, combined, n))
  {
    hide Partitioned;
    var shared, split := combined[1..n + 1], PartitionedCurve(a0, a1, combined, n);
    if n == 0 {
      assert shared == [] && split == [];
    } else {
      DistanceIsDifference(a0, a1, combined, n - 1);
      assert shared == combined[1..(n - 1) + 1] + [combined[n]];
      assert split == PartitionedCurve(a0, a1, combined, n - 1) + [Partitioned(a0, a1, combined, n)];
      SumSnoc(combined[1..(n - 1) + 1], combined[n]);
      SumSnoc(PartitionedCurve(a0, a1, combined, n - 1), Partitioned(a0, a1, combined, n));
    }
  }

  lemma SumSnoc(s: seq<int>, x: int)
    ensures Sum(s + [x]) == Sum(s) + x
  {
    SumAppend(s, [x]);
    assert [x][1..] == [];
  }

  /** calculate_slowdown_distance */
  method CalculateSlowdownDistance(a0: App, a1: App, nrWays: nat) returns (distance: int, info: Combined)
    requires Comparable(a0, a1, nrWays)
    ensures info == CombinedOf(a0, a1, nrWays, nrWays)
    ensures distance == Distance(a0, a1, info.maxSlowdown, nrWays)
  {
    hide Partitioned;
    hide CombinedOf;
    hide Walkable;
    hide IsCombination;
    info := BuildCombinedCurve(a0, a1, nrWays);
    distance := 0;
    var ucpSolution := new int[2];
    for i := 1 to nrWays + 1
      invariant distance == Distance(a0, a1, info.maxSlowdown, i - 1)
    {
      var value := SlowdownAt(a0, a1, info.maxSlowdown, i, ucpSolution);
      distance := distance + info.maxSlowdown[i] - value;
    }
  }

  // The slowdown for i ways, as the loop of calculate_slowdown_distance finds it.
  method SlowdownAt(a0: App, a1: App, combined: seq<int>, i: nat, ucpSolution: array<int>) returns (value: int)
    requires AllWellFormed([a0.curve, a1.curve]) && 1 <= i < |combined| && ucpSolution.Length == 2
    requires i < |a0.curve| && i < |a1.curve|
    modifies ucpSolution
    ensures value == Partitioned(a0, a1, combined, i)
  {
    hide Lookahead;
    if i > 1 {
      var curves := [a0.curve, a1.curve];
      LookaheadArray(curves, i, ucpSolution);
      SplitInRange(curves, i);
      assert ucpSolution[0] == ucpSolution[..2][0] && ucpSolution[1] == ucpSolution[..2][1];
      value := Max(a0.curve[ucpSolution[0]], a1.curve[ucpSolution[1]]);
    } else {
      value := combined[i];
    }
  }
}

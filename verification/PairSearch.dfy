/**
 * What the search over clusterings does, without the functions that compute it: what an
 * application's visit must lead to, which clustering the visits end in, and what the
 * numbers recorded with a clustering mean.
 */
module PairSearch {
  import opened Constants
  import opened PairClustering
  import opened PairDistance
  import opened Sequences
  import opened Ucp
  import CC = CombinedCurve
  import UcpTheorems

  // ---------------------------------------------------------------------------
  // One visit
  // ---------------------------------------------------------------------------

  /** Two distinct applications that have neither been visited nor merged. */
  ghost predicate Partners(env: Env, unmerged: set<nat>, a: nat, b: nat) {
    a < env.N() && b < env.N() && a != b && a in unmerged && b in unmerged
  }

  /** The distance of two applications. */
  ghost function Gap(env: Env, a: nat, b: nat): int
    requires env.Valid() && a < env.N() && b < env.N()
  {
    if a < b then env.dist[a][b] else env.dist[b][a]
  }

  /** Sharing with b is better than without, and of all partners b is the first of the closest. */
  ghost predicate ClosestPartner(env: Env, unmerged: set<nat>, a: nat, b: nat)
    requires env.Valid()
  {
    && Partners(env, unmerged, a, b) && Gap(env, a, b) < 0
    && (forall k: nat | Partners(env, unmerged, a, k) :: Gap(env, a, b) <= Gap(env, a, k))
    && (forall k: nat | Partners(env, unmerged, a, k) && k < b :: Gap(env, a, b) < Gap(env, a, k))
  }

  ghost predicate NobodyCloser(env: Env, unmerged: set<nat>, a: nat)
    requires env.Valid()
  {
    forall k: nat | Partners(env, unmerged, a, k) :: Gap(env, a, k) >= 0
  }

  /** The clustering that comes next is the last one with a and b in one cluster, and best follows it if it is as fair. */
  ghost predicate Joins(env: Env, s: Search, t: Search, a: nat, b: nat)
    requires env.Valid()
  {
    && s.solutions != [] && |t.solutions| == |s.solutions| + 1 && t.solutions[..|s.solutions|] == s.solutions
    && t.unmerged == s.unmerged - {a, b} && Fairest(t.solutions, t.best)
    && var next := t.solutions[|s.solutions|];
       && Solved(env, next)
       && MergeOf(env, s.solutions[|s.solutions| - 1].clusters, next.clusters, Low(a, b), High(a, b))
  }

  /**
   * The visit of a: nothing if it has been merged; else it joins the first of its closest
   * partners if sharing with that one is better, and stays alone if it is with nobody.
   */
  ghost predicate VisitStep(env: Env, s: Search, a: nat, t: Search)
    requires env.Valid()
  {
    || (a !in s.unmerged && t == s)
    || (a in s.unmerged && NobodyCloser(env, s.unmerged, a) && t == s.(unmerged := s.unmerged - {a}))
    || (exists b: nat :: ClosestPartner(env, s.unmerged, a, b) && Joins(env, s, t, a, b))
  }

  lemma ClosestMeaning(env: Env, unmerged: set<nat>, a: nat)
    requires env.Valid() && a < env.N() && a in unmerged
    ensures var r := Closest(env, unmerged, a, env.N());
            if r.0 >= 0 then NobodyCloser(env, unmerged, a) else ClosestPartner(env, unmerged, a, r.1)
  {
    hide Env.Valid;
    hide Closest;
    var r := Closest(env, unmerged, a, env.N());
    assert FirstClosest(env, unmerged, a, env.N(), r.0, r.1);
    forall k: nat | k < env.N() && Partners(env, unmerged, a, k) ensures Entry(env, unmerged, a, k) == Gap(env, a, k) {
    }
    ClosestIsUnmerged(env, unmerged, a);
  }

  lemma VisitAppends(env: Env, s: Search, a: nat, i: nat, j: nat) returns (next: Solution)
    requires Inv(env, s) && a < env.N() && a in s.unmerged
    requires var r := Closest(env, s.unmerged, a, env.N()); r.0 < 0 && i == Low(a, r.1) && j == High(a, r.1)
    ensures s.solutions != [] && Fairest(s.solutions, s.best)
    ensures Visit(env, s, a) == Append(s, next, s.unmerged - {i, j})
    ensures Solved(env, next) && MergeOf(env, s.solutions[|s.solutions| - 1].clusters, next.clusters, i, j)
  {
    hide Solve;
    hide Partition;
    hide Explored;
    hide Alone;
    hide Fairest;
    hide Append;
    var r := Closest(env, s.unmerged, a, env.N());
    ClosestIsUnmerged(env, s.unmerged, a);
    assert FirstClosest(env, s.unmerged, a, env.N(), r.0, r.1);
    AppendKeeps(env, s, i, j);
    var cs := [env.pairs[i][j]] + Others(s.solutions[|s.solutions| - 1].clusters, i, j);
    next := Solve(env, cs);
    SolveClusters(env, cs);
  }

  lemma VisitIsMerge(env: Env, s: Search, a: nat)
    requires Inv(env, s) && a < env.N() && a in s.unmerged && Closest(env, s.unmerged, a, env.N()).0 < 0
    ensures Joins(env, s, Visit(env, s, a), a, Closest(env, s.unmerged, a, env.N()).1)
  {
    var b := Closest(env, s.unmerged, a, env.N()).1;
    var i, j := Low(a, b), High(a, b);
    assert {a, b} == {i, j};
    hide Inv;
    hide Closest;
    hide Visit;
    hide Joins;
    hide Solved;
    hide MergeOf;
    var next := VisitAppends(env, s, a, i, j);
    AppendJoins(env, s, next, a, b);
  }

  lemma AppendJoins(env: Env, s: Search, next: Solution, a: nat, b: nat)
    requires env.Valid() && s.solutions != [] && Fairest(s.solutions, s.best) && Solved(env, next)
    requires MergeOf(env, s.solutions[|s.solutions| - 1].clusters, next.clusters, Low(a, b), High(a, b))
    ensures Joins(env, s, Append(s, next, s.unmerged - {a, b}), a, b)
  {
    hide Solved;
    hide MergeOf;
    hide Env.Valid;
    FairestGrows(s, next, s.unmerged - {a, b});
    hide Fairest;
  }

  /** Each step of the search is such a visit. */
  lemma VisitMeaning(env: Env, s: Search, a: nat)
    requires Inv(env, s) && a < env.N()
    ensures VisitStep(env, s, a, Visit(env, s, a))
  {
    InvValid(env, s);
    if a in s.unmerged {
      var r := Closest(env, s.unmerged, a, env.N());
      ClosestMeaning(env, s.unmerged, a);
      if r.0 < 0 {
        VisitIsMerge(env, s, a);
      } else {
        VisitAlone(env, s, a);
      }
    } else {
      VisitOver(env, s, a);
    }
  }

  lemma InvValid(env: Env, s: Search)
    requires Inv(env, s)
    ensures env.Valid()
  {
  }

  lemma VisitAlone(env: Env, s: Search, a: nat)
    requires Inv(env, s) && a < env.N() && a in s.unmerged && Closest(env, s.unmerged, a, env.N()).0 >= 0
    ensures Visit(env, s, a) == s.(unmerged := s.unmerged - {a})
  {
  }

  lemma VisitOver(env: Env, s: Search, a: nat)
    requires Inv(env, s) && a < env.N() && a !in s.unmerged
    ensures Visit(env, s, a) == s
  {
  }

  lemma JoinsUnique(env: Env, s: Search, t: Search, t': Search, a: nat, b: nat)
    requires env.Valid() && Joins(env, s, t, a, b) && Joins(env, s, t', a, b)
    ensures t == t'
  {
    hide Solve;
    hide Partition;
    hide Env.Valid;
    assert t.solutions == s.solutions + [t.solutions[|s.solutions|]];
    assert t'.solutions == s.solutions + [t'.solutions[|s.solutions|]];
    FairestUnique(t.solutions, t.best, t'.best);
  }

  lemma FairestUnique(solutions: seq<Solution>, best: nat, best': nat)
    requires Fairest(solutions, best) && Fairest(solutions, best')
    ensures best == best'
  {
    assert solutions[best].unfairness == solutions[best'].unfairness;
  }

  lemma PartnerUnique(env: Env, unmerged: set<nat>, a: nat, b: nat, b': nat)
    requires env.Valid() && ClosestPartner(env, unmerged, a, b) && ClosestPartner(env, unmerged, a, b')
    ensures b == b'
  {
    hide Gap;
  }

  lemma PartnersIn(env: Env, unmerged: set<nat>, a: nat, b: nat)
    requires env.Valid() && ClosestPartner(env, unmerged, a, b)
    ensures a in unmerged && !NobodyCloser(env, unmerged, a)
  {
  }

  /** A visit can lead to nothing else. */
  lemma VisitDetermined(env: Env, s: Search, a: nat, t: Search, t': Search)
    requires env.Valid() && VisitStep(env, s, a, t) && VisitStep(env, s, a, t')
    ensures t == t'
  {
    hide Joins;
    hide ClosestPartner;
    hide NobodyCloser;
    hide Env.Valid;
    if b: nat :| ClosestPartner(env, s.unmerged, a, b) && Joins(env, s, t, a, b) {
      PartnersIn(env, s.unmerged, a, b);
      var b': nat :| ClosestPartner(env, s.unmerged, a, b') && Joins(env, s, t', a, b');
      PartnerUnique(env, s.unmerged, a, b, b');
      JoinsUnique(env, s, t, t', a, b);
    } else if b: nat :| ClosestPartner(env, s.unmerged, a, b) && Joins(env, s, t', a, b) {
      PartnersIn(env, s.unmerged, a, b);
    }
  }

  // ---------------------------------------------------------------------------
  // The whole search
  // ---------------------------------------------------------------------------

  /** Visits of all applications in the order, from the state where everybody is alone and nobody visited. */
  ghost predicate SearchRun(env: Env, order: seq<nat>, run: seq<Search>)
    requires env.Valid()
  {
    && |run| == |order| + 1
    && run[0].unmerged == Below(env.N()) && run[0].best == 0
    && |run[0].solutions| == 1 && run[0].solutions[0].clusters == Singles(env.N()) && Solved(env, run[0].solutions[0])
    && forall k | 0 <= k < |order| :: VisitStep(env, run[k], order[k], run[k + 1])
  }

  lemma BeginMeaning(env: Env, s: Search)
    requires env.Valid()
    ensures s == Begin(env) <==>
              && s.unmerged == Below(env.N()) && s.best == 0
              && |s.solutions| == 1 && s.solutions[0].clusters == Singles(env.N()) && Solved(env, s.solutions[0])
  {
    hide Solve;
    hide Partition;
    hide Env.Valid;
    SinglesPartition(env);
    SolveClusters(env, Singles(env.N()));
    if |s.solutions| == 1 {
      assert s.solutions == [s.solutions[0]];
    }
  }

  lemma {:induction false} RunIsVisits(env: Env, order: seq<nat>, run: seq<Search>, k: nat)
    requires env.Valid() && SearchRun(env, order, run) && k <= |order| && forall a <- order :: a < env.N()
    ensures run[k] == VisitAll(env, Begin(env), order, k)
  {
    hide Env.Valid;
    hide VisitStep;
    hide Visit;
    hide Begin;
    hide Inv;
    hide Solved;
    if k == 0 {
      BeginMeaning(env, run[0]);
    } else {
      RunIsVisits(env, order, run, k - 1);
      var s := VisitAll(env, Begin(env), order, k - 1);
      assert order[k - 1] in order;
      assert VisitStep(env, run[k - 1], order[k - 1], run[(k - 1) + 1]);
      VisitMeaning(env, s, order[k - 1]);
      VisitDetermined(env, s, order[k - 1], run[k], Visit(env, s, order[k - 1]));
    }
  }

  lemma VisitsAreRun(env: Env, order: seq<nat>) returns (run: seq<Search>)
    requires env.Valid() && forall a <- order :: a < env.N()
    ensures SearchRun(env, order, run) && run[|order|] == VisitAll(env, Begin(env), order, |order|)
  {
    hide Env.Valid;
    hide VisitStep;
    hide Visit;
    hide Begin;
    hide Inv;
    hide Solved;
    run := seq(|order| + 1, k requires 0 <= k <= |order| => VisitAll(env, Begin(env), order, k));
    BeginMeaning(env, run[0]);
    forall k | 0 <= k < |order| ensures VisitStep(env, run[k], order[k], run[k + 1]) {
      assert order[k] in order;
      VisitMeaning(env, run[k], order[k]);
    }
  }

  /** The search ends in the state that visiting the applications in this order leads to, and in no other. */
  lemma SearchIsRun(env: Env, order: seq<nat>, t: Search)
    requires env.Valid() && forall a <- order :: a < env.N()
    ensures t == VisitAll(env, Begin(env), order, |order|)
            <==> exists run :: SearchRun(env, order, run) && run[|order|] == t
  {
    hide Env.Valid;
    hide Solved;
    hide VisitStep;
    hide VisitAll;
    hide Begin;
    var run := VisitsAreRun(env, order);
    if other :| SearchRun(env, order, other) && other[|order|] == t {
      RunIsVisits(env, order, other, |order|);
    }
  }

  lemma OthersLast(cs: seq<Cluster>, d: Cluster, i: nat, j: nat)
    ensures Others(cs + [d], i, j) == Others(cs, i, j) + if d.idx == i || d.idx == j then [] else [d]
  {
    assert (cs + [d])[..|cs|] == cs;
  }

  lemma OthersOne(c: Cluster, i: nat, j: nat)
    ensures Others([], i, j) == [] && Others([c], i, j) == if c.idx == i || c.idx == j then [] else [c]
  {
    OthersLast([], c, i, j);
    assert [] + [c] == [c];
  }

  lemma Spliced(whole: seq<Cluster>, x: seq<Cluster>, o: seq<Cluster>, tail: seq<Cluster>, rest: seq<Cluster>)
    requires whole == (x + o) + tail && rest == o + tail
    ensures whole == x + rest
  {
  }

  /** The clusters that a merge does not replace keep their order. */
  lemma {:induction false} OthersInOrder(c: Cluster, cs: seq<Cluster>, i: nat, j: nat, kept: seq<Cluster>)
    requires kept == if c.idx == i || c.idx == j then [] else [c]
    ensures Others([c] + cs, i, j) == kept + Others(cs, i, j)
  {
    hide Others;
    if cs == [] {
      OthersOne(c, i, j);
      assert [c] + cs == [c] && kept + [] == kept;
    } else {
      var n := |cs| - 1;
      var front, d := cs[..n], cs[n];
      var tail := if d.idx == i || d.idx == j then [] else [d];
      OthersInOrder(c, front, i, j, kept);
      OthersLast(front, d, i, j);
      OthersLast([c] + front, d, i, j);
      assert cs == front + [d] && [c] + cs == ([c] + front) + [d];
      Spliced(Others([c] + cs, i, j), kept, Others(front, i, j), tail, Others(cs, i, j));
    }
  }

  // ---------------------------------------------------------------------------
  // No gainful merge is left
  // ---------------------------------------------------------------------------

  ghost predicate Unpaired(s: Search, a: nat) {
    s.solutions != [] && Single(a) in s.solutions[|s.solutions| - 1].clusters
  }

  /** Whoever has been visited and is still alone would not gain from sharing with anybody who is alone. */
  ghost predicate VisitedSettled(env: Env, s: Search)
    requires env.Valid()
  {
    forall a: nat, b: nat | a < env.N() && b < env.N() && a != b && a !in s.unmerged && Unpaired(s, a) && Unpaired(s, b) ::
      Gap(env, a, b) >= 0
  }

  // After a merge, the two applications merged are no longer alone, and nobody is newly alone.
  lemma JoinedAreNotAlone(env: Env, s: Search, t: Search, a: nat, b: nat)
    requires env.Valid() && Joins(env, s, t, a, b)
    ensures !Unpaired(t, a) && !Unpaired(t, b)
    ensures forall c: nat | Unpaired(t, c) :: Unpaired(s, c)
  {
    hide Solve;
    var i, j := Low(a, b), High(a, b);
    var before, after := s.solutions[|s.solutions| - 1].clusters, t.solutions[|s.solutions|].clusters;
    NewlyAlone(env, before, after, i, j);
  }

  lemma NewlyAlone(env: Env, before: seq<Cluster>, after: seq<Cluster>, i: nat, j: nat)
    requires env.Valid() && MergeOf(env, before, after, i, j)
    ensures Single(i) !in after && Single(j) !in after
    ensures forall c: nat | Single(c) in after :: Single(c) in before
  {
    var pair := env.pairs[i][j];
    assert env.PairOk(i, j);
    forall c: nat | Single(c) in after ensures Single(c) in Others(before, i, j) {
      assert |pair.members| == 2 && |Single(c).members| == 1;
    }
  }

  lemma StepSettles(env: Env, s: Search, a: nat, t: Search)
    requires env.Valid() && VisitStep(env, s, a, t) && VisitedSettled(env, s) && a < env.N()
    ensures VisitedSettled(env, t)
  {
    hide Env.Valid;
    hide Joins;
    hide ClosestPartner;
    if c: nat :| ClosestPartner(env, s.unmerged, a, c) && Joins(env, s, t, a, c) {
      JoinedAreNotAlone(env, s, t, a, c);
      JoinedLeave(env, s, t, a, c);
      hide Gap;
      hide Unpaired;
    } else if a in s.unmerged {
      forall x: nat, y: nat | x < env.N() && y < env.N() && x != y && x !in t.unmerged && Unpaired(t, x) && Unpaired(t, y)
        ensures Gap(env, x, y) >= 0
      {
        assert Gap(env, x, y) == Gap(env, y, x);
        assert Unpaired(s, x) && Unpaired(s, y);
        if x == a && y in s.unmerged {
          assert Partners(env, s.unmerged, a, y);
        }
      }
    }
  }

  lemma JoinedLeave(env: Env, s: Search, t: Search, a: nat, b: nat)
    requires env.Valid() && Joins(env, s, t, a, b)
    ensures t.unmerged == s.unmerged - {a, b}
  {
  }

  lemma {:induction false} RunSettles(env: Env, order: seq<nat>, run: seq<Search>, k: nat)
    requires env.Valid() && SearchRun(env, order, run) && k <= |order| && forall a <- order :: a < env.N()
    ensures VisitedSettled(env, run[k])
  {
    hide Env.Valid;
    hide VisitStep;
    hide Solved;
    if k > 0 {
      RunSettles(env, order, run, k - 1);
      assert order[k - 1] in order;
      assert VisitStep(env, run[k - 1], order[k - 1], run[(k - 1) + 1]);
      StepSettles(env, run[k - 1], order[k - 1], run[k]);
    }
  }

  /**
   * The search as a whole: visits in the order of the slowdowns under lookahead, each of which
   * joins the application with the first of its closest partners or finds that it gains with
   * nobody; and in the last clustering no two applications that are alone would gain by sharing.
   */
  lemma SearchMeaning(env: Env) returns (order: seq<nat>, run: seq<Search>, t: Search)
    requires env.Valid()
    ensures order == Order(InitialSlowdowns(env), env.N())
    ensures t == VisitAll(env, Begin(env), order, env.N())
    ensures SearchRun(env, order, run) && run[env.N()] == t
    ensures Fairest(t.solutions, t.best)
    ensures t.unmerged == {} && t.solutions != []
    ensures forall a: nat, b: nat | a < b < env.N() && Unpaired(t, a) && Unpaired(t, b) :: env.dist[a][b] >= 0
  {
    hide VisitAll;
    hide Order;
    hide SearchRun;
    hide Explored;
    order := Order(InitialSlowdowns(env), env.N());
    run := VisitsAreRun(env, order);
    t := SearchGuarantees(env);
    RunSettles(env, order, run, env.N());
    forall a: nat, b: nat | a < b < env.N() && Unpaired(t, a) && Unpaired(t, b) ensures env.dist[a][b] >= 0 {
      assert Gap(env, a, b) == env.dist[a][b];
    }
  }

  // ---------------------------------------------------------------------------
  // What is known about a clustering
  // ---------------------------------------------------------------------------

  /** v is the slowdown of a member of a cluster with w ways: on its own curve when alone, as stored for the pair otherwise. */
  ghost predicate MemberSlowdown(env: Env, c: Cluster, w: int, v: int) {
    if |c.members| == 1 then
      var a := c.members[0];
      a < env.N() && 0 <= w < |env.curves[a]| && v == env.curves[a][w]
    else
      1 <= w <= |c.perApp| && (v == c.perApp[w - 1].0 || v == c.perApp[w - 1].1)
  }

  /** The greatest and the least slowdown of all members of all clusters, bounded by zero and by the greatest integer. */
  ghost predicate Extremes(env: Env, cs: seq<Cluster>, ways: seq<int>, greatest: int, least: int)
    requires |ways| == |cs|
  {
    && greatest >= 0 && least <= INT_MAX
    && (forall k, v | 0 <= k < |cs| && MemberSlowdown(env, cs[k], ways[k], v) :: least <= v <= greatest)
    && (greatest == 0 || exists k :: 0 <= k < |cs| && MemberSlowdown(env, cs[k], ways[k], greatest))
    && (least == INT_MAX || exists k :: 0 <= k < |cs| && MemberSlowdown(env, cs[k], ways[k], least))
  }

  /** u is greatest over least in thousandths, rounded towards zero, or the greatest integer. */
  ghost predicate RatioOf(u: int, greatest: int, least: int) {
    && (least == 0 ==> u == INT_MAX)
    && (least > 0 ==> u * least <= 1000 * greatest < (u + 1) * least)
    && (least < 0 ==> (0 - u) * (0 - least) <= 1000 * greatest < (1 - u) * (0 - least))
  }

  lemma ReadingsAreSlowdowns(env: Env, c: Cluster, w: int, v: int)
    requires env.Valid() && env.IsCluster(c) && 1 <= w <= env.nrWays
    ensures MemberSlowdown(env, c, w, v) <==> exists r <- ClusterReadings(env, c, w) :: r.slowdown == v
  {
    ReadingsOfCluster(env, c, w);
    MemberOfIdx(env, c);
    var rs := ClusterReadings(env, c, w);
    assert rs[0] in rs;
    if |c.members| == 2 {
      assert rs[1] in rs;
    }
  }

  lemma {:induction false} ReadingsComeFrom(env: Env, cs: seq<Cluster>, ways: seq<int>, n: nat, r: Reading) returns (k: nat)
    requires Divided(env, cs, ways) && n <= |cs| && r in Readings(env, cs, ways, n)
    ensures k < n && env.IsCluster(cs[k]) && r in ClusterReadings(env, cs[k], ways[k])
  {
    hide ClusterReadings;
    hide Env.IsCluster;
    ReadingsStep(env, cs, ways, n);
    if r in ClusterReadings(env, cs[n - 1], ways[n - 1]) {
      k := n - 1;
    } else {
      k := ReadingsComeFrom(env, cs, ways, n - 1, r);
    }
  }

  lemma ClusterAt(env: Env, cs: seq<Cluster>, ways: seq<int>, k: nat)
    requires Divided(env, cs, ways) && k < |cs|
    ensures env.Valid() && env.IsCluster(cs[k]) && 1 <= ways[k] <= env.nrWays
  {
    assert cs[k] in cs;
  }

  lemma SummaryIsExtremes(env: Env, cs: seq<Cluster>, ways: seq<int>)
    requires Divided(env, cs, ways)
    ensures var s := Summarize(Readings(env, cs, ways, |cs|));
            Extremes(env, cs, ways, s.greatest, s.least)
  {
    hide Divided;
    hide Readings;
    hide Summarize;
    hide ClusterReadings;
    hide MemberSlowdown;
    hide Env.IsCluster;
    hide Env.Valid;
    DividedSize(env, cs, ways);
    var rs := Readings(env, cs, ways, |cs|);
    var s := Summarize(rs);
    SummaryExtremes(rs);
    forall k: nat, v | k < |cs| && MemberSlowdown(env, cs[k], ways[k], v) ensures s.least <= v <= s.greatest {
      ClusterAt(env, cs, ways, k);
      ReadingsAreSlowdowns(env, cs[k], ways[k], v);
      var r :| r in ClusterReadings(env, cs[k], ways[k]) && r.slowdown == v;
      ReadingsInclude(env, cs, ways, k, |cs|, r);
    }
    if s.greatest != 0 {
      var r :| r in rs && r.slowdown == s.greatest;
      var k := Attained(env, cs, ways, r);
    }
    if s.least != INT_MAX {
      var r :| r in rs && r.slowdown == s.least;
      var k := Attained(env, cs, ways, r);
    }
  }

  lemma DividedSize(env: Env, cs: seq<Cluster>, ways: seq<int>)
    requires Divided(env, cs, ways)
    ensures |ways| == |cs| && env.Valid()
  {
  }

  lemma Attained(env: Env, cs: seq<Cluster>, ways: seq<int>, r: Reading) returns (k: nat)
    requires Divided(env, cs, ways) && r in Readings(env, cs, ways, |cs|)
    ensures |ways| == |cs| && k < |cs| && MemberSlowdown(env, cs[k], ways[k], r.slowdown)
  {
    hide ClusterReadings;
    hide MemberSlowdown;
    hide Readings;
    k := ReadingsComeFrom(env, cs, ways, |cs|, r);
    ReadingsAreSlowdowns(env, cs[k], ways[k], r.slowdown);
  }

  lemma UnfairnessIsRatio(s: Summary)
    requires s.greatest >= 0
    ensures RatioOf(Unfairness(s), s.greatest, s.least)
  {
    if s.least > 0 {
      QuotientIs(1000 * s.greatest, s.least);
    } else if s.least < 0 {
      QuotientIs(1000 * s.greatest, 0 - s.least);
    }
  }

  lemma QuotientIs(a: int, k: int)
    requires k > 0
    ensures (a / k) * k <= a < (a / k + 1) * k
  {
  }

  /** The unfairness recorded with a clustering is the ratio of the extreme slowdowns of its members. */
  lemma UnfairnessMeaning(env: Env, cs: seq<Cluster>) returns (greatest: int, least: int)
    requires env.Valid() && Partition(env, cs)
    ensures var s := Solve(env, cs);
            && |s.ways| == |cs| && Extremes(env, cs, s.ways, greatest, least) && RatioOf(s.unfairness, greatest, least)
  {
    hide Extremes;
    hide RatioOf;
    hide Unfairness;
    hide Readings;
    hide Summarize;
    hide Ways;
    WaysDivideCache(env, cs);
    var w := Ways(env, cs);
    PartitionDivided(env, cs, w);
    var m := Summarize(Readings(env, cs, w, |cs|));
    greatest, least := m.greatest, m.least;
    SummaryIsExtremes(env, cs, w);
    SummaryExtremes(Readings(env, cs, w, |cs|));
    UnfairnessIsRatio(m);
  }

  lemma PartitionDivided(env: Env, cs: seq<Cluster>, w: seq<int>)
    requires env.Valid() && Partition(env, cs) && |w| == |cs| && forall k | 0 <= k < |w| :: 1 <= w[k] <= env.nrWays
    ensures Divided(env, cs, w)
  {
  }

  /** The ways of a clustering are lookahead's for the clusters' curves: the summed slowdowns for a pair, its own for a single application. */
  lemma WaysMeaning(env: Env, cs: seq<Cluster>, curves: seq<Curve>)
    requires env.Valid() && Partition(env, cs) && |curves| == |cs|
    requires forall k: nat | k < |cs| && |cs[k].members| == 1 && cs[k].idx < env.N() :: curves[k] == env.curves[cs[k].idx]
    requires forall k: nat | k < |cs| && |cs[k].members| == 2 :: curves[k] == cs[k].sumSlowdown
    ensures AllWellFormed(curves) && |curves| > 0 && Ways(env, cs) == Lookahead(curves, env.nrWays)
  {
    hide Lookahead;
    hide Env.Valid;
    NodesWellFormed(env, cs);
    forall k: nat | k < |cs| ensures NodeCurves(Nodes(env, cs))[k] == curves[k] {
      assert cs[k] in cs;
      MemberOfIdx(env, cs[k]);
      PairShape(env, cs[k]);
    }
    assert NodeCurves(Nodes(env, cs)) == curves;
    PartitionSize(env, cs);
    ValidWays(env);
    UcpTheorems.ListAgreesWithArray(curves, env.nrWays);
  }

  lemma ValidWays(env: Env)
    requires env.Valid()
    ensures env.nrWays >= 1
  {
  }

  /** Distances and stored pairs are those of the combined curves: the pair keeps both slowdowns and their sum. */
  lemma ComparedMeaning(apps: seq<CC.App>, n: nat, i: nat, j: nat) returns (c: CC.Combined)
    requires Input(apps, n) && i < j < |apps|
    ensures Comparable(apps[i], apps[j], n) && CC.IsCombination(c, apps[i], apps[j], n, n)
    ensures PairOf(apps, n, i, j) == Cluster(i, [i, j], c.perAppSlowdown, c.sumSlowdown)
    ensures DistanceOf(apps, n, i, j)
            == Sum(c.maxSlowdown[1..n + 1]) - Sum(PartitionedCurve(apps[i], apps[j], c.maxSlowdown, n))
  {
    assert Comparable(apps[i], apps[j], n);
    hide CC.IsCombination;
    c := CC.CombinedOf(apps[i], apps[j], n, n);
    CC.CombinedIsCombination(apps[i], apps[j], n, n);
    DistanceIsDifference(apps[i], apps[j], c.maxSlowdown, n);
  }
}

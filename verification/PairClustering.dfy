/**
 * pair_clustering_core: starting from one cluster per application, visit the
 * applications from the most to the least slowed down, merge each with the partner
 * whose sharing helps most, divide the cache among the clusters again after every
 * merge, and keep the fairest division seen.
 */
module PairClustering {
  import opened Arithmetic
  import CC = CombinedCurve
  import opened Constants
  import opened PairDistance
  import opened Sequences
  import opened Ucp
  import UcpTheorems

  /** A candidate cluster; idx is its smallest member. The curves are only filled in for pairs. */
  datatype Cluster = Cluster(idx: nat, members: seq<nat>, perApp: seq<(int, int)>, sumSlowdown: Curve)

  function Single(i: nat): Cluster {
    Cluster(i, [i], [], [])
  }

  /** What the search works on: the applications' curves, the initial distances and the pre-merged pairs. */
  datatype Env = Env(curves: seq<Curve>, nrWays: nat, dist: seq<seq<int>>, pairs: seq<seq<Cluster>>)
  {
    function N(): nat { |curves| }

    ghost predicate Valid() {
      && 0 < N() <= nrWays && N() <= MAX_APPS
      && (forall i | 0 <= i < N() :: |curves[i]| > 0 && nrWays <= curves[i][0] < |curves[i]|)
      && |dist| == |pairs| == N()
      && (forall i | 0 <= i < N() :: |dist[i]| == |pairs[i]| == N())
      && (forall i: nat, j: nat | i < j < N() :: PairOk(i, j))
    }

    ghost predicate PairOk(i: nat, j: nat)
      requires |pairs| == N() && i < j < N() && |pairs[i]| == N()
    {
      var c := pairs[i][j];
      c.idx == i && c.members == [i, j] && |c.perApp| == nrWays
      && |c.sumSlowdown| == nrWays + 1 && c.sumSlowdown[0] == nrWays
    }

    /** The clusters the search can build. */
    ghost predicate IsCluster(c: Cluster)
      requires Valid()
    {
      || (c.idx < N() && c == Single(c.idx))
      || (exists j: nat :: c.idx < j < N() && c == pairs[c.idx][j])
    }
  }

  // ---------------------------------------------------------------------------
  // The distance matrix
  // ---------------------------------------------------------------------------

  /** Distances survive only between two distinct applications that are both still unmerged. */
  function Entry(env: Env, unmerged: set<nat>, i: nat, j: nat): int
    requires env.Valid() && i < env.N() && j < env.N()
  {
    if i == j || i !in unmerged || j !in unmerged then INT_MAX
    else if i < j then env.dist[i][j] else env.dist[j][i]
  }

  ghost predicate Holds(matrix: array2<int>, env: Env, unmerged: set<nat>)
    requires env.Valid()
    reads matrix
  {
    && matrix.Length0 == matrix.Length1 == MAX_APPS
    && forall i: nat, j: nat | i < env.N() && j < env.N() :: matrix[i, j] == Entry(env, unmerged, i, j)
  }

  /** clear_distance_in_matrix */
  method ClearDistance(matrix: array2<int>, index: nat, env: Env, ghost unmerged: set<nat>)
    requires env.Valid() && index < env.N() && Holds(matrix, env, unmerged)
    modifies matrix
    ensures Holds(matrix, env, unmerged - {index})
  {
    for i := 0 to env.N()
      invariant forall k: nat, l: nat | k < env.N() && l < env.N() ::
                  matrix[k, l] == if (k == index && l < i) || (l == index && k < i) then INT_MAX
                                  else Entry(env, unmerged, k, l)
    {
      matrix[index, i] := INT_MAX;
      matrix[i, index] := INT_MAX;
    }
  }

  /** (d, j) is the first of the closest partners among the first n applications, if any is below INT_MAX. */
  ghost predicate FirstClosest(env: Env, unmerged: set<nat>, idxc: nat, n: nat, d: int, j: nat)
    requires env.Valid() && idxc < env.N() && n <= env.N()
  {
    && (forall k: nat | k < n :: d <= Entry(env, unmerged, idxc, k))
    && (d == INT_MAX || (j < n && Entry(env, unmerged, idxc, j) == d < INT_MAX
                         && forall k: nat | k < j :: d < Entry(env, unmerged, idxc, k)))
  }

  function Closest(env: Env, unmerged: set<nat>, idxc: nat, n: nat): (r: (int, nat))
    requires env.Valid() && idxc < env.N() && n <= env.N()
    ensures r.0 <= INT_MAX && FirstClosest(env, unmerged, idxc, n, r.0, r.1)
  {
    if n == 0 then (INT_MAX, 0)
    else
      var r := Closest(env, unmerged, idxc, n - 1);
      if Entry(env, unmerged, idxc, n - 1) < r.0 then (Entry(env, unmerged, idxc, n - 1), n - 1) else r
  }

  /** A finite distance always names two distinct applications that have not been merged. */
  lemma ClosestIsUnmerged(env: Env, unmerged: set<nat>, idxc: nat)
    requires env.Valid() && idxc < env.N()
    ensures var r := Closest(env, unmerged, idxc, env.N());
            r.0 < INT_MAX ==> idxc in unmerged && r.1 in unmerged && r.1 != idxc && r.1 < env.N()
  {
    var r := Closest(env, unmerged, idxc, env.N());
    assert FirstClosest(env, unmerged, idxc, env.N(), r.0, r.1);
  }

  method FindClosest(matrix: array2<int>, env: Env, ghost unmerged: set<nat>, idxc: nat)
    returns (minDistance: int, idxMin: nat)
    requires env.Valid() && idxc < env.N() && Holds(matrix, env, unmerged)
    ensures (minDistance, idxMin) == Closest(env, unmerged, idxc, env.N())
  {
    minDistance, idxMin := INT_MAX, 0;
    for j := 0 to env.N()
      invariant (minDistance, idxMin) == Closest(env, unmerged, idxc, j)
    {
      if matrix[idxc, j] < minDistance {
        minDistance, idxMin := matrix[idxc, j], j;
      }
    }
  }

  // ---------------------------------------------------------------------------
  // One clustering: a partition of the applications
  // ---------------------------------------------------------------------------

  /** Every application is in exactly one cluster, and the clusters have one or two members. */
  ghost predicate Partition(env: Env, cs: seq<Cluster>)
    requires env.Valid()
  {
    && cs != [] && NoDuplicates(cs)
    && (forall c <- cs :: env.IsCluster(c))
    && (forall c <- cs, d <- cs, a <- c.members :: a in d.members ==> c == d)
    && (forall a: nat | a < env.N() :: Covers(cs, a))
  }

  ghost predicate Covers(cs: seq<Cluster>, a: nat) {
    exists c <- cs :: a in c.members
  }

  /** The clusters neither min_i nor min_j belongs to, in order. */
  function Others(cs: seq<Cluster>, i: nat, j: nat): (r: seq<Cluster>)
    ensures forall c :: c in r <==> c in cs && c.idx != i && c.idx != j
    ensures NoDuplicates(cs) ==> NoDuplicates(r)
  {
    if cs == [] then []
    else
      var rest := Others(cs[..|cs| - 1], i, j);
      var c := cs[|cs| - 1];
      assert forall d :: d in cs <==> d in cs[..|cs| - 1] || d == c;
      if c.idx == i || c.idx == j then rest else rest + [c]
  }

  /** build_new_solution: the merged pair first, then the clusters it does not replace. */
  method BuildNewSolution(prev: seq<Cluster>, merged: Cluster, minI: nat, minJ: nat) returns (clusters: seq<Cluster>)
    ensures clusters == [merged] + Others(prev, minI, minJ)
  {
    clusters := [merged];
    hide NoDuplicates;
    for i := 0 to |prev|
      invariant clusters == [merged] + Others(prev[..i], minI, minJ)
    {
      assert prev[..i + 1][..i] == prev[..i];
      var idxCluster := prev[i].idx;
      if idxCluster == minI || idxCluster == minJ {
        continue;
      }
      clusters := clusters + [prev[i]];
    }
    assert prev[..|prev|] == prev;
  }

  function Singles(n: nat): (cs: seq<Cluster>)
    ensures |cs| == n && forall i | 0 <= i < n :: cs[i] == Single(i)
  {
    seq(n, i requires 0 <= i < n => Single(i))
  }

  lemma SinglesPartition(env: Env)
    requires env.Valid()
    ensures Partition(env, Singles(env.N()))
  {
    var cs := Singles(env.N());
    forall a: nat | a < env.N() ensures Covers(cs, a) {
      assert cs[a] in cs && a in cs[a].members;
    }
  }

  // The only clusters that go are those of the two applications being merged.
  lemma OthersKept(env: Env, cs: seq<Cluster>, i: nat, j: nat, c: Cluster)
    requires env.Valid() && Partition(env, cs) && Single(i) in cs && Single(j) in cs && c in cs
    ensures c in Others(cs, i, j) <==> c != Single(i) && c != Single(j)
    ensures c in Others(cs, i, j) ==> i !in c.members && j !in c.members
  {
    MemberOfIdx(env, c);
    assert i in Single(i).members && j in Single(j).members;
  }

  lemma MergeCovers(env: Env, cs: seq<Cluster>, i: nat, j: nat, a: nat)
    requires env.Valid() && Partition(env, cs) && i < j < env.N() && a < env.N()
    requires Single(i) in cs && Single(j) in cs
    ensures Covers([env.pairs[i][j]] + Others(cs, i, j), a)
  {
    var merged, cs' := env.pairs[i][j], [env.pairs[i][j]] + Others(cs, i, j);
    assert env.PairOk(i, j);
    assert Covers(cs, a);
    var c :| c in cs && a in c.members;
    OthersKept(env, cs, i, j, c);
    if c in Others(cs, i, j) {
      assert c in cs';
    } else {
      assert merged in cs' && a in merged.members;
    }
  }

  /** Merging two applications that are alone keeps the partition and takes nobody else out of a cluster. */
  lemma MergePartition(env: Env, cs: seq<Cluster>, i: nat, j: nat)
    requires env.Valid() && Partition(env, cs) && i < j < env.N()
    requires Single(i) in cs && Single(j) in cs
    ensures var cs' := [env.pairs[i][j]] + Others(cs, i, j);
            && Partition(env, cs')
            && forall a: nat | Single(a) in cs && a != i && a != j :: Single(a) in cs'
  {
    var merged, others := env.pairs[i][j], Others(cs, i, j);
    var cs' := [merged] + others;
    assert env.PairOk(i, j);
    assert env.IsCluster(merged);
    assert forall c :: c in cs' <==> c == merged || c in others;
    forall c <- others ensures c in cs && i !in c.members && j !in c.members {
      OthersKept(env, cs, i, j, c);
    }
    forall a: nat | a < env.N() ensures Covers(cs', a) {
      MergeCovers(env, cs, i, j, a);
    }
    assert NoDuplicates(cs') by {
      assert i in merged.members;
    }
  }

  lemma MemberOfIdx(env: Env, c: Cluster)
    requires env.Valid() && env.IsCluster(c)
    ensures c.members != [] && c.members[0] == c.idx && c.idx in c.members && c.idx < env.N()
    ensures |c.members| == 1 ==> c == Single(c.idx)
    ensures forall a <- c.members :: a < env.N()
  {
    if c != Single(c.idx) {
      var j: nat :| c.idx < j < env.N() && c == env.pairs[c.idx][j];
      assert env.PairOk(c.idx, j);
    }
  }

  // ---------------------------------------------------------------------------
  // Dividing the cache among clusters
  // ---------------------------------------------------------------------------

  function Nodes(env: Env, cs: seq<Cluster>): (r: seq<Node>)
    requires env.Valid() && forall c <- cs :: env.IsCluster(c)
    ensures |r| == |cs|
  {
    seq(|cs|, k requires 0 <= k < |cs| =>
      (assert cs[k] in cs; MemberOfIdx(env, cs[k]); ClusterNode(|cs[k].members|, env.curves[cs[k].members[0]], cs[k].sumSlowdown)))
  }

  lemma NodesWellFormed(env: Env, cs: seq<Cluster>)
    requires env.Valid() && forall c <- cs :: env.IsCluster(c)
    ensures AllWellFormed(NodeCurves(Nodes(env, cs)))
  {
    forall k | 0 <= k < |cs| ensures WellFormed(Nodes(env, cs)[k].Curve()) {
      assert cs[k] in cs;
      MemberOfIdx(env, cs[k]);
      PairShape(env, cs[k]);
      var first := cs[k].members[0];
      assert env.Valid() && first < env.N();
      assert WellFormed(env.curves[first]);
    }
  }

  lemma PairShape(env: Env, c: Cluster)
    requires env.Valid() && env.IsCluster(c)
    ensures |c.members| == 1 || (|c.members| == 2 && |c.perApp| == env.nrWays)
    ensures |c.members| == 2 ==> |c.sumSlowdown| == env.nrWays + 1 && c.sumSlowdown[0] == env.nrWays
    ensures |c.members| == 2 ==> c.members[0] < c.members[1] < env.N()
  {
    if c != Single(c.idx) {
      var j: nat :| c.idx < j < env.N() && c == env.pairs[c.idx][j];
      assert env.PairOk(c.idx, j);
    }
  }

  lemma PartitionSize(env: Env, cs: seq<Cluster>)
    requires env.Valid() && Partition(env, cs)
    ensures |cs| <= env.N()
  {
    forall k | 0 <= k < |cs| ensures cs[k].idx in cs[k].members && cs[k].idx < env.N() {
      assert cs[k] in cs;
      MemberOfIdx(env, cs[k]);
    }
    var idxs := seq(|cs|, k requires 0 <= k < |cs| => cs[k].idx);
    Pigeonhole(idxs, env.N());
  }

  /** How cluster_ucp divides the ways. */
  function Ways(env: Env, cs: seq<Cluster>): (w: seq<int>)
    requires env.Valid() && Partition(env, cs)
    ensures |w| == |cs|
  {
    NodesWellFormed(env, cs);
    if |cs| == 1 then [env.nrWays] else Lookahead(NodeCurves(Nodes(env, cs)), env.nrWays)
  }

  /** Every cluster gets at least one way, and together they get them all. */
  lemma WaysDivideCache(env: Env, cs: seq<Cluster>)
    requires env.Valid() && Partition(env, cs)
    ensures var w := Ways(env, cs);
            && Sum(w) == env.nrWays
            && forall k | 0 <= k < |w| :: 1 <= w[k] <= env.nrWays
  {
    NodesWellFormed(env, cs);
    PartitionSize(env, cs);
    UcpTheorems.LookaheadConserves(NodeCurves(Nodes(env, cs)), env.nrWays);
    var w := Ways(env, cs);
    if |cs| == 1 {
      assert w[1..] == [];
    }
    forall k | 0 <= k < |w| ensures 1 <= w[k] <= env.nrWays {
      if |cs| > 1 {
        SumBoundsEntry(w, 1, k);
      }
    }
  }

  datatype Reading = Reading(app: nat, slowdown: int)

  /** The slowdown of each member of a cluster that has w ways. */
  function ClusterReadings(env: Env, c: Cluster, w: int): seq<Reading>
    requires env.Valid() && env.IsCluster(c) && 1 <= w <= env.nrWays
  {
    MemberOfIdx(env, c);
    PairShape(env, c);
    if |c.members| == 1 then
      [Reading(c.members[0], env.curves[c.members[0]][w])]
    else
      [Reading(c.members[0], c.perApp[w - 1].0), Reading(c.members[1], c.perApp[w - 1].1)]
  }

  ghost predicate Divided(env: Env, cs: seq<Cluster>, ways: seq<int>) {
    && env.Valid() && |ways| == |cs| && (forall c <- cs :: env.IsCluster(c))
    && forall k | 0 <= k < |ways| :: 1 <= ways[k] <= env.nrWays
  }

  function Readings(env: Env, cs: seq<Cluster>, ways: seq<int>, k: nat): seq<Reading>
    requires Divided(env, cs, ways) && k <= |cs|
  {
    if k == 0 then [] else
      assert cs[k - 1] in cs;
      Readings(env, cs, ways, k - 1) + ClusterReadings(env, cs[k - 1], ways[k - 1])
  }

  /** What cluster_ucp gathers over the readings. */
  datatype Summary = Summary(greatest: int, least: int, perApp: map<nat, int>)

  function Include(s: Summary, r: Reading): Summary {
    Summary(
      if r.slowdown > s.greatest then r.slowdown else s.greatest,
      if r.slowdown < s.least then r.slowdown else s.least,
      s.perApp[r.app := r.slowdown])
  }

  function Summarize(rs: seq<Reading>): Summary {
    if rs == [] then Summary(0, INT_MAX, map[])
    else Include(Summarize(rs[..|rs| - 1]), rs[|rs| - 1])
  }

  /** The summary holds the extreme slowdowns. */
  lemma {:induction false} SummaryExtremes(rs: seq<Reading>)
    ensures var s := Summarize(rs);
            && s.greatest >= 0 && s.least <= INT_MAX
            && (forall r <- rs :: s.least <= r.slowdown <= s.greatest)
            && (s.greatest == 0 || exists r <- rs :: r.slowdown == s.greatest)
            && (s.least == INT_MAX || exists r <- rs :: r.slowdown == s.least)
  {
    if rs != [] {
      var prefix, last := rs[..|rs| - 1], rs[|rs| - 1];
      SummaryExtremes(prefix);
      assert rs == prefix + [last];
      assert forall r :: r in rs <==> r in prefix || r == last;
    }
  }

  lemma SummarizeSnoc(base: seq<Reading>, found: seq<Reading>, j: nat)
    requires j < |found|
    ensures Summarize(base + found[..j + 1]) == Include(Summarize(base + found[..j]), found[j])
  {
    var rs := base + found[..j + 1];
    assert rs[..|rs| - 1] == base + found[..j] && rs[|rs| - 1] == found[j];
  }

  ghost predicate DistinctApps(rs: seq<Reading>) {
    forall i, j | 0 <= i < j < |rs| :: rs[i].app != rs[j].app
  }

  lemma {:induction false} SummaryKeepsReadings(rs: seq<Reading>)
    requires DistinctApps(rs)
    ensures forall i | 0 <= i < |rs| :: rs[i].app in Summarize(rs).perApp && Summarize(rs).perApp[rs[i].app] == rs[i].slowdown
  {
    if rs != [] {
      SummaryKeepsReadings(rs[..|rs| - 1]);
    }
  }

  lemma DistinctConcat(a: seq<Reading>, b: seq<Reading>)
    requires DistinctApps(a) && DistinctApps(b) && forall r <- a, t <- b :: r.app != t.app
    ensures DistinctApps(a + b)
  {
  }

  /** The readings of a cluster are one for each member: from the curve of a single one, or as stored for the pair. */
  lemma ReadingsOfCluster(env: Env, c: Cluster, w: int)
    requires env.Valid() && env.IsCluster(c) && 1 <= w <= env.nrWays
    ensures var rs := ClusterReadings(env, c, w);
            && DistinctApps(rs) && |rs| == |c.members| && (forall r <- rs :: r.app in c.members)
            && if |c.members| == 1 then c.members[0] < env.N() && rs == [Reading(c.members[0], env.curves[c.members[0]][w])]
               else |c.members| == 2 && |c.perApp| == env.nrWays
                    && rs == [Reading(c.members[0], c.perApp[w - 1].0), Reading(c.members[1], c.perApp[w - 1].1)]
  {
    MemberOfIdx(env, c);
    PairShape(env, c);
  }

  /** The reading is of a member of one of the first k clusters. */
  ghost predicate FromCluster(cs: seq<Cluster>, k: nat, r: Reading) {
    exists c: nat :: c < k && c < |cs| && r.app in cs[c].members
  }

  lemma ReadingsStep(env: Env, cs: seq<Cluster>, ways: seq<int>, k: nat)
    requires Divided(env, cs, ways) && 0 < k <= |cs|
    ensures |ways| == |cs| && env.Valid() && env.IsCluster(cs[k - 1]) && 1 <= ways[k - 1] <= env.nrWays
    ensures Readings(env, cs, ways, k) == Readings(env, cs, ways, k - 1) + ClusterReadings(env, cs[k - 1], ways[k - 1])
  {
    hide ClusterReadings;
    assert cs[k - 1] in cs;
  }

  // The readings of the first k clusters are of their members, and nobody is read twice.
  lemma {:induction false} ReadingsDistinct(env: Env, cs: seq<Cluster>, ways: seq<int>, k: nat)
    requires env.Valid() && Partition(env, cs) && Divided(env, cs, ways) && k <= |cs|
    ensures DistinctApps(Readings(env, cs, ways, k))
    ensures forall r <- Readings(env, cs, ways, k) :: FromCluster(cs, k, r)
  {
    hide Partition;
    hide Divided;
    hide ClusterReadings;
    hide Env.Valid;
    hide Env.IsCluster;
    if k > 0 {
      ReadingsDistinct(env, cs, ways, k - 1);
      ReadingsStep(env, cs, ways, k);
      ReadingsOfCluster(env, cs[k - 1], ways[k - 1]);
      ReadingsApart(env, cs, k - 1, Readings(env, cs, ways, k - 1), ClusterReadings(env, cs[k - 1], ways[k - 1]));
    }
  }

  lemma ReadingsApart(env: Env, cs: seq<Cluster>, k: nat, before: seq<Reading>, now: seq<Reading>)
    requires env.Valid() && Partition(env, cs) && k < |cs|
    requires DistinctApps(before) && DistinctApps(now)
    requires (forall r <- before :: FromCluster(cs, k, r)) && (forall r <- now :: r.app in cs[k].members)
    ensures DistinctApps(before + now)
    ensures forall r <- before + now :: FromCluster(cs, k + 1, r)
  {
    hide Partition;
    hide Env.Valid;
    forall r <- before, t <- now ensures r.app != t.app {
      ClustersApart(env, cs, k, r, t.app);
    }
    DistinctConcat(before, now);
  }

  lemma ClustersApart(env: Env, cs: seq<Cluster>, k: nat, r: Reading, a: nat)
    requires env.Valid() && Partition(env, cs) && k < |cs| && FromCluster(cs, k, r) && a in cs[k].members
    ensures r.app != a
  {
    var c: nat :| c < k && r.app in cs[c].members;
    assert cs[c] in cs && cs[k] in cs && cs[c] != cs[k];
  }

  lemma {:induction false} ReadingsInclude(env: Env, cs: seq<Cluster>, ways: seq<int>, k: nat, n: nat, r: Reading)
    requires Divided(env, cs, ways) && k < n <= |cs| && env.IsCluster(cs[k]) && r in ClusterReadings(env, cs[k], ways[k])
    ensures r in Readings(env, cs, ways, n)
  {
    hide ClusterReadings;
    if k < n - 1 {
      ReadingsInclude(env, cs, ways, k, n - 1, r);
    }
  }

  /** The members of a cluster with w ways are on record with their slowdowns: from the curve of a single one, or as stored for the pair. */
  ghost predicate OnRecord(env: Env, c: Cluster, w: int, m: map<nat, int>) {
    if |c.members| == 1 then
      var a := c.members[0];
      a in m && a < env.N() && 0 <= w < |env.curves[a]| && m[a] == env.curves[a][w]
    else
      && |c.members| == 2 && 1 <= w <= |c.perApp|
      && c.members[0] in m && m[c.members[0]] == c.perApp[w - 1].0
      && c.members[1] in m && m[c.members[1]] == c.perApp[w - 1].1
  }

  lemma RecordOfReadings(env: Env, c: Cluster, w: int, m: map<nat, int>)
    requires env.Valid() && env.IsCluster(c) && 1 <= w <= env.nrWays
    requires var now := ClusterReadings(env, c, w);
             forall i | 0 <= i < |now| :: now[i].app in m && m[now[i].app] == now[i].slowdown
    ensures OnRecord(env, c, w, m)
  {
    ReadingsOfCluster(env, c, w);
    hide ClusterReadings;
    hide Env.IsCluster;
    var now := ClusterReadings(env, c, w);
    assert now[0].app == c.members[0];
    if |now| == 2 {
      assert now[1].app == c.members[1];
    }
  }

  /** What cluster_ucp leaves in the table of slowdowns. */
  lemma SlowdownsOnRecord(env: Env, cs: seq<Cluster>, ways: seq<int>, k: nat)
    requires env.Valid() && Partition(env, cs) && Divided(env, cs, ways) && k < |cs|
    ensures OnRecord(env, cs[k], ways[k], Summarize(Readings(env, cs, ways, |cs|)).perApp)
  {
    assert cs[k] in cs;
    hide Partition;
    hide Summarize;
    hide Readings;
    hide ClusterReadings;
    hide OnRecord;
    hide Env.IsCluster;
    ClusterOnRecord(env, cs, ways, k);
    RecordOfReadings(env, cs[k], ways[k], Summarize(Readings(env, cs, ways, |cs|)).perApp);
  }

  lemma ClusterOnRecord(env: Env, cs: seq<Cluster>, ways: seq<int>, k: nat)
    requires env.Valid() && Partition(env, cs) && Divided(env, cs, ways) && k < |cs| && env.IsCluster(cs[k])
    ensures var now, m := ClusterReadings(env, cs[k], ways[k]), Summarize(Readings(env, cs, ways, |cs|)).perApp;
            forall i | 0 <= i < |now| :: now[i].app in m && m[now[i].app] == now[i].slowdown
  {
    hide Partition;
    hide Summarize;
    hide Readings;
    hide ClusterReadings;
    hide Env.IsCluster;
    ReadingsDistinct(env, cs, ways, |cs|);
    var rs, now := Readings(env, cs, ways, |cs|), ClusterReadings(env, cs[k], ways[k]);
    SummaryKeepsReadings(rs);
    forall r | r in now ensures r in rs {
      ReadingsInclude(env, cs, ways, k, |cs|, r);
    }
    Recorded(rs, now, Summarize(rs).perApp);
  }

  lemma Recorded(rs: seq<Reading>, now: seq<Reading>, m: map<nat, int>)
    requires forall i | 0 <= i < |rs| :: rs[i].app in m && m[rs[i].app] == rs[i].slowdown
    requires forall r <- now :: r in rs
    ensures forall i | 0 <= i < |now| :: now[i].app in m && m[now[i].app] == now[i].slowdown
  {
    forall i | 0 <= i < |now| ensures now[i].app in m && m[now[i].app] == now[i].slowdown {
      assert now[i] in now;
    }
  }

  /** The ratio of the extreme slowdowns, in thousandths. */
  function Unfairness(s: Summary): int {
    if s.least == 0 then INT_MAX else TruncDiv(1000 * s.greatest, s.least)
  }

  datatype Solution = Solution(clusters: seq<Cluster>, ways: seq<int>, unfairness: int)

  function Solve(env: Env, cs: seq<Cluster>): Solution
    requires env.Valid() && Partition(env, cs)
  {
    var w := Ways(env, cs);
    WaysDivideCache(env, cs);
    Solution(cs, w, Unfairness(Summarize(Readings(env, cs, w, |cs|))))
  }

  method RecordCluster(found: seq<Reading>, ghost base: seq<Reading>, before: Summary) returns (s: Summary)
    requires before == Summarize(base)
    ensures s == Summarize(base + found)
  {
    hide Summarize;
    s := before;
    assert base + found[..0] == base;
    for j := 0 to |found|
      invariant s == Summarize(base + found[..j])
    {
      SummarizeSnoc(base, found, j);
      var thisSlowdown := found[j].slowdown;
      s := s.(perApp := s.perApp[found[j].app := thisSlowdown]);
      if thisSlowdown > s.greatest {
        s := s.(greatest := thisSlowdown);
      }
      if thisSlowdown < s.least {
        s := s.(least := thisSlowdown);
      }
    }
    assert found[..|found|] == found;
  }

  method Measure(env: Env, cs: seq<Cluster>, ways: seq<int>) returns (s: Summary)
    requires Divided(env, cs, ways)
    ensures s == Summarize(Readings(env, cs, ways, |cs|))
  {
    hide ClusterReadings;
    s := Summary(0, INT_MAX, map[]);
    for i := 0 to |cs|
      invariant s == Summarize(Readings(env, cs, ways, i))
    {
      assert cs[i] in cs;
      var found := ClusterReadings(env, cs[i], ways[i]);
      s := RecordCluster(found, Readings(env, cs, ways, i), s);
    }
  }

  /** cluster_ucp */
  method ClusterUcp(env: Env, cs: seq<Cluster>) returns (s: Solution, slowdownPerApp: map<nat, int>)
    requires env.Valid() && Partition(env, cs)
    ensures s == Solve(env, cs)
    ensures Divided(env, cs, s.ways) && slowdownPerApp == Summarize(Readings(env, cs, s.ways, |cs|)).perApp
  {
    var ways := DivideWays(env, cs);
    WaysDivideCache(env, cs);
    var m := Measure(env, cs, ways);
    s := Solution(cs, ways, Unfairness(m));
    slowdownPerApp := m.perApp;
  }

  method DivideWays(env: Env, cs: seq<Cluster>) returns (ways: seq<int>)
    requires env.Valid() && Partition(env, cs)
    ensures ways == Ways(env, cs)
  {
    NodesWellFormed(env, cs);
    var solution := new int[|cs|];
    LookaheadList(Nodes(env, cs), env.nrWays, solution);
    ways := solution[..|cs|];
  }

  // ---------------------------------------------------------------------------
  // The order in which applications are visited
  // ---------------------------------------------------------------------------

  /** i is the first of the most slowed-down applications that have not been selected. */
  ghost predicate FirstWorst(slow: seq<int>, selected: set<nat>, n: nat, i: int)
    requires n <= |slow|
  {
    && 0 <= i < n && i !in selected
    && (forall j: nat | j < n && j !in selected :: slow[j] <= slow[i])
    && (forall j: nat | j < i && j !in selected :: slow[j] < slow[i])
  }

  function Worst(slow: seq<int>, selected: set<nat>, n: nat): (i: int)
    requires n <= |slow|
    ensures if i == -1 then forall j: nat | j < n :: j in selected else FirstWorst(slow, selected, n, i)
  {
    if n == 0 then -1
    else
      var i := Worst(slow, selected, n - 1);
      if n - 1 in selected then i
      else if i == -1 || slow[n - 1] > slow[i] then n - 1 else i
  }

  ghost predicate IsSelection(slow: seq<int>, order: seq<nat>) {
    NoDuplicates(order) && forall k | 0 <= k < |order| :: order[k] < |slow|
  }

  lemma SomeoneLeft(slow: seq<int>, order: seq<nat>)
    requires IsSelection(slow, order) && |order| < |slow|
    ensures Worst(slow, Elements(order), |slow|) != -1
  {
    DistinctCount(order);
    if forall j: nat | j < |slow| :: j in Elements(order) {
      assert Below(|slow|) <= Elements(order);
      SubsetSize(Below(|slow|), Elements(order));
    }
  }

  /** The k most slowed-down applications. */
  function Order(slow: seq<int>, k: nat): (order: seq<nat>)
    requires k <= |slow|
    ensures |order| == k && IsSelection(slow, order)
  {
    if k == 0 then []
    else
      var o := Order(slow, k - 1);
      SomeoneLeft(slow, o);
      o + [Worst(slow, Elements(o), |slow|)]
  }

  lemma {:induction false} OrderAt(slow: seq<int>, k: nat, a: nat)
    requires a < k <= |slow|
    ensures Order(slow, k)[..a] == Order(slow, a)
    ensures FirstWorst(slow, Elements(Order(slow, a)), |slow|, Order(slow, k)[a])
  {
    hide Worst;
    if a < k - 1 {
      OrderAt(slow, k - 1, a);
      assert Order(slow, k)[..a] == Order(slow, k - 1)[..a];
    } else {
      SomeoneLeft(slow, Order(slow, a));
      assert Order(slow, k)[..a] == Order(slow, a);
    }
  }

  /** The visiting order is a permutation of the applications, by decreasing slowdown, ties by position. */
  lemma OrderSorts(slow: seq<int>)
    ensures var o := Order(slow, |slow|);
            && (forall a: nat | a < |slow| :: a in o)
            && forall a, b | 0 <= a < b < |slow| ::
                 slow[o[a]] > slow[o[b]] || (slow[o[a]] == slow[o[b]] && o[a] < o[b])
  {
    hide Order;
    hide Worst;
    var o := Order(slow, |slow|);
    Pigeonhole(o, |slow|);
    forall a, b | 0 <= a < b < |slow|
      ensures slow[o[a]] > slow[o[b]] || (slow[o[a]] == slow[o[b]] && o[a] < o[b])
    {
      OrderAt(slow, |slow|, a);
      assert o[b] !in o[..a];
    }
  }

  method SelectWorst(slow: seq<int>, selected: set<nat>) returns (idxMax: nat)
    requires (forall i | 0 <= i < |slow| :: 0 <= slow[i]) && Worst(slow, selected, |slow|) != -1
    ensures idxMax == Worst(slow, selected, |slow|)
  {
    var maxSlowdown := -1;
    idxMax := 0;
    for j := 0 to |slow|
      invariant if Worst(slow, selected, j) == -1 then maxSlowdown == -1
                else idxMax == Worst(slow, selected, j) && maxSlowdown == slow[idxMax]
    {
      if j in selected {
        continue;
      }
      if slow[j] > maxSlowdown {
        maxSlowdown, idxMax := slow[j], j;
      }
    }
  }

  /** get_sorted_slowdowns: repeated selection, for slowdowns that are not negative. */
  method GetSortedSlowdowns(slow: seq<int>) returns (indexVector: seq<nat>)
    requires forall i | 0 <= i < |slow| :: 0 <= slow[i]
    ensures indexVector == Order(slow, |slow|)
  {
    var selected: set<nat> := {};
    indexVector := [];
    for i := 0 to |slow|
      invariant indexVector == Order(slow, i) && selected == Elements(indexVector)
    {
      SomeoneLeft(slow, indexVector);
      var idxMax := SelectWorst(slow, selected);
      selected := selected + {idxMax};
      assert Elements(indexVector + [idxMax]) == Elements(indexVector) + {idxMax};
      indexVector := indexVector + [idxMax];
    }
  }

  // ---------------------------------------------------------------------------
  // The search
  // ---------------------------------------------------------------------------

  datatype Search = Search(solutions: seq<Solution>, unmerged: set<nat>, best: nat)

  /** The second clustering is the first with two applications that were alone, and gain by sharing, put together. */
  ghost predicate MergeOf(env: Env, before: seq<Cluster>, after: seq<Cluster>, i: nat, j: nat)
    requires env.Valid()
  {
    && i < j < env.N() && Single(i) in before && Single(j) in before
    && env.dist[i][j] < 0
    && after == [env.pairs[i][j]] + Others(before, i, j)
  }

  ghost predicate Merges(env: Env, before: seq<Cluster>, after: seq<Cluster>)
    requires env.Valid()
  {
    exists i: nat, j: nat :: MergeOf(env, before, after, i, j)
  }

  ghost predicate Solved(env: Env, s: Solution)
    requires env.Valid()
  {
    Partition(env, s.clusters) && s == Solve(env, s.clusters)
  }

  /** Every solution divides the cache among a partition, and each comes from the one before by a merge. */
  ghost predicate Explored(env: Env, solutions: seq<Solution>)
    requires env.Valid()
  {
    && (forall s <- solutions :: Solved(env, s))
    && (forall k | 0 <= k < |solutions| - 1 :: Merges(env, solutions[k].clusters, solutions[k + 1].clusters))
  }

  /** best is the last of the fairest solutions. */
  ghost predicate Fairest(solutions: seq<Solution>, best: nat) {
    && best < |solutions|
    && (forall k | 0 <= k < |solutions| :: solutions[best].unfairness <= solutions[k].unfairness)
    && (forall k | best < k < |solutions| :: solutions[best].unfairness < solutions[k].unfairness)
  }

  ghost predicate Alone(env: Env, unmerged: set<nat>, cs: seq<Cluster>) {
    forall a <- unmerged :: a < env.N() && Single(a) in cs
  }

  ghost predicate Inv(env: Env, s: Search) {
    && env.Valid() && s.solutions != []
    && Explored(env, s.solutions)
    && Fairest(s.solutions, s.best)
    && Alone(env, s.unmerged, s.solutions[|s.solutions| - 1].clusters)
    && 2 * (|s.solutions| - 1) + |s.unmerged| <= env.N()
  }

  function Low(i: nat, j: nat): nat { if i < j then i else j }
  function High(i: nat, j: nat): nat { if i < j then j else i }

  function Append(s: Search, next: Solution, unmerged: set<nat>): Search
    requires s.best < |s.solutions|
  {
    Search(s.solutions + [next], unmerged,
           if next.unfairness <= s.solutions[s.best].unfairness then |s.solutions| else s.best)
  }

  lemma AppendKeeps(env: Env, s: Search, i: nat, j: nat)
    requires Inv(env, s) && i < j < env.N() && i in s.unmerged && j in s.unmerged && env.dist[i][j] < 0
    ensures var cs := s.solutions[|s.solutions| - 1].clusters;
            && i < j < env.N() && Single(i) in cs && Single(j) in cs
            && var cs' := [env.pairs[i][j]] + Others(cs, i, j);
               Partition(env, cs') && Inv(env, Append(s, Solve(env, cs'), s.unmerged - {i, j}))
  {
    hide Partition;
    hide Solve;
    hide Solved;
    hide Merges;
    hide Explored;
    var next := MergeAlone(env, s, i, j);
    var t := Append(s, next, s.unmerged - {i, j});
    ExploredGrows(env, s.solutions, next);
    FairestGrows(s, next, s.unmerged - {i, j});
    assert |s.unmerged| == |t.unmerged| + 2 by {
      assert s.unmerged == t.unmerged + {i, j};
    }
  }

  lemma SolveClusters(env: Env, cs: seq<Cluster>)
    requires env.Valid() && Partition(env, cs)
    ensures Solve(env, cs).clusters == cs && Solved(env, Solve(env, cs))
  {
  }

  lemma MergeAlone(env: Env, s: Search, i: nat, j: nat) returns (next: Solution)
    requires Inv(env, s) && i < j < env.N() && i in s.unmerged && j in s.unmerged && env.dist[i][j] < 0
    ensures var cs := s.solutions[|s.solutions| - 1].clusters;
            && i < j < env.N() && Single(i) in cs && Single(j) in cs
            && var cs' := [env.pairs[i][j]] + Others(cs, i, j);
               && Partition(env, cs') && next == Solve(env, cs') && next.clusters == cs'
               && Solved(env, next) && Merges(env, cs, next.clusters)
               && Alone(env, s.unmerged - {i, j}, next.clusters)
  {
    hide Partition;
    hide Solve;
    var cs := s.solutions[|s.solutions| - 1].clusters;
    assert Solved(env, s.solutions[|s.solutions| - 1]);
    MergePartition(env, cs, i, j);
    var cs' := [env.pairs[i][j]] + Others(cs, i, j);
    next := Solve(env, cs');
    SolveClusters(env, cs');
    assert MergeOf(env, cs, cs', i, j);
  }

  lemma FairestGrows(s: Search, next: Solution, unmerged: set<nat>)
    requires Fairest(s.solutions, s.best)
    ensures Fairest(Append(s, next, unmerged).solutions, Append(s, next, unmerged).best)
  {
  }

  lemma ExploredGrows(env: Env, solutions: seq<Solution>, next: Solution)
    requires env.Valid() && solutions != [] && Explored(env, solutions)
    requires Solved(env, next) && Merges(env, solutions[|solutions| - 1].clusters, next.clusters)
    ensures Explored(env, solutions + [next])
  {
    hide Solved;
    hide Merges;
    var grown := solutions + [next];
    forall k | 0 <= k < |grown| - 1 ensures Merges(env, grown[k].clusters, grown[k + 1].clusters) {
      if k < |solutions| - 1 {
        assert Merges(env, solutions[k].clusters, solutions[k + 1].clusters);
      }
    }
  }

  /** Visit one application: merge it with its closest partner if sharing helps, else set it aside. */
  function Visit(env: Env, s: Search, idxc: nat): (t: Search)
    requires Inv(env, s) && idxc < env.N()
    ensures Inv(env, t)
  {
    if idxc !in s.unmerged then s
    else
      var r := Closest(env, s.unmerged, idxc, env.N());
      if r.0 >= 0 then s.(unmerged := s.unmerged - {idxc})
      else
        var i, j := Low(idxc, r.1), High(idxc, r.1);
        ClosestIsUnmerged(env, s.unmerged, idxc);
        AppendKeeps(env, s, i, j);
        var cs := [env.pairs[i][j]] + Others(s.solutions[|s.solutions| - 1].clusters, i, j);
        Append(s, Solve(env, cs), s.unmerged - {i, j})
  }

  function VisitAll(env: Env, s: Search, order: seq<nat>, k: nat): (t: Search)
    requires Inv(env, s) && k <= |order| && forall a <- order :: a < env.N()
    ensures Inv(env, t)
  {
    if k == 0 then s
    else
      assert order[k - 1] in order;
      Visit(env, VisitAll(env, s, order, k - 1), order[k - 1])
  }

  /** Where the search begins: everybody alone, and nobody visited. */
  function Begin(env: Env): (s: Search)
    requires env.Valid()
    ensures Inv(env, s)
  {
    SinglesPartition(env);
    BeginInv(env);
    Search([Solve(env, Singles(env.N()))], Below(env.N()), 0)
  }

  lemma AloneAtFirst(env: Env)
    ensures Alone(env, Below(env.N()), Singles(env.N()))
  {
    forall a <- Below(env.N()) ensures Single(a) in Singles(env.N()) {
      assert Singles(env.N())[a] == Single(a);
    }
  }

  lemma BeginInv(env: Env)
    requires env.Valid() && Partition(env, Singles(env.N()))
    ensures Inv(env, Search([Solve(env, Singles(env.N()))], Below(env.N()), 0))
  {
    hide Solve;
    hide Partition;
    hide Solved;
    hide Alone;
    hide Singles;
    hide Below;
    hide Env.Valid;
    SolveClusters(env, Singles(env.N()));
    AloneAtFirst(env);
  }

  // Steps 1 and 2 of the loop for two applications found worth merging.
  method MergeApps(env: Env, s: Search, minI: nat, minJ: nat, matrix: array2<int>) returns (t: Search)
    requires Inv(env, s) && minI < minJ < env.N() && minI in s.unmerged && minJ in s.unmerged && env.dist[minI][minJ] < 0
    requires Holds(matrix, env, s.unmerged)
    modifies matrix
    ensures var cs := [env.pairs[minI][minJ]] + Others(s.solutions[|s.solutions| - 1].clusters, minI, minJ);
            && Partition(env, cs)
            && t == Append(s, Solve(env, cs), s.unmerged - {minI, minJ})
    ensures Holds(matrix, env, s.unmerged - {minI, minJ})
  {
    hide Partition;
    hide Solve;
    AppendKeeps(env, s, minI, minJ);
    hide Inv;
    hide Entry;
    ClearDistance(matrix, minI, env, s.unmerged);
    ClearDistance(matrix, minJ, env, s.unmerged - {minI});
    assert s.unmerged - {minI} - {minJ} == s.unmerged - {minI, minJ};
    var clusters := BuildNewSolution(s.solutions[|s.solutions| - 1].clusters, env.pairs[minI][minJ], minI, minJ);
    var newSolution, _ := ClusterUcp(env, clusters);
    t := Append(s, newSolution, s.unmerged - {minI, minJ});
  }

  // The body of the loop of pair_clustering_core.
  method VisitApp(env: Env, s: Search, idxc: nat, matrix: array2<int>) returns (t: Search)
    requires Inv(env, s) && idxc < env.N() && Holds(matrix, env, s.unmerged)
    modifies matrix
    ensures t == Visit(env, s, idxc) && Holds(matrix, env, t.unmerged)
  {
    hide Solve;
    hide Partition;
    hide Explored;
    hide Fairest;
    t := s;
    if idxc in s.unmerged {
      var minDistance, idxMin := FindClosest(matrix, env, s.unmerged, idxc);
      ClosestIsUnmerged(env, s.unmerged, idxc);
      if minDistance >= 0 {
        ClearDistance(matrix, idxc, env, s.unmerged);
        t := s.(unmerged := s.unmerged - {idxc});
      } else if idxMin > idxc {
        t := MergeApps(env, s, idxc, idxMin, matrix);
      } else {
        t := MergeApps(env, s, idxMin, idxc, matrix);
      }
    }
  }

  lemma VisitNobody(env: Env, s: Search, idxc: nat)
    requires Inv(env, s) && idxc < env.N() && s.unmerged == {}
    ensures Visit(env, s, idxc) == s
  {
  }

  lemma {:induction false} NothingLeftToVisit(env: Env, s: Search, order: seq<nat>, i: nat, k: nat)
    requires Inv(env, s) && i <= k <= |order| && forall a <- order :: a < env.N()
    requires VisitAll(env, s, order, i).unmerged == {}
    ensures VisitAll(env, s, order, k) == VisitAll(env, s, order, i)
  {
    hide Inv;
    hide Visit;
    if i < k {
      NothingLeftToVisit(env, s, order, i, k - 1);
      assert order[k - 1] in order;
      VisitNobody(env, VisitAll(env, s, order, k - 1), order[k - 1]);
    }
  }

  // The main loop of pair_clustering_core.
  method Explore(env: Env, s: Search, order: seq<nat>, matrix: array2<int>) returns (t: Search)
    requires env.Valid() && Inv(env, s) && |order| == env.N() && forall a <- order :: a < env.N()
    requires Holds(matrix, env, s.unmerged)
    modifies matrix
    ensures t == VisitAll(env, s, order, |order|)
  {
    hide Inv;
    hide Visit;
    hide Holds;
    t := s;
    var i := 0;
    while i < env.N() && t.unmerged != {}
      invariant 0 <= i <= env.N()
      invariant t == VisitAll(env, s, order, i) && Holds(matrix, env, t.unmerged)
    {
      assert order[i] in order;
      t := VisitApp(env, t, order[i], matrix);
      i := i + 1;
    }
    if t.unmerged == {} {
      NothingLeftToVisit(env, s, order, i, |order|);
    }
  }

  lemma VisitSettles(env: Env, s: Search, idxc: nat)
    requires Inv(env, s) && idxc < env.N()
    ensures Visit(env, s, idxc).unmerged <= s.unmerged && idxc !in Visit(env, s, idxc).unmerged
    ensures s.solutions <= Visit(env, s, idxc).solutions
  {
    hide Solve;
  }

  /** Visiting in an order that lists everybody leaves nobody to merge, and never revises a solution. */
  lemma {:induction false} EverybodySettled(env: Env, s: Search, order: seq<nat>, k: nat)
    requires Inv(env, s) && k <= |order| && forall a <- order :: a < env.N()
    ensures var t := VisitAll(env, s, order, k);
            && t.unmerged <= s.unmerged && s.solutions <= t.solutions
            && forall i | 0 <= i < k :: order[i] !in t.unmerged
  {
    hide Visit;
    hide Inv;
    if k > 0 {
      EverybodySettled(env, s, order, k - 1);
      assert order[k - 1] in order;
      VisitSettles(env, VisitAll(env, s, order, k - 1), order[k - 1]);
    }
  }

  // ---------------------------------------------------------------------------
  // From the applications to the clusters
  // ---------------------------------------------------------------------------

  ghost predicate Input(apps: seq<CC.App>, nrWays: nat) {
    && 0 < |apps| <= nrWays <= CC.MAX_NR_WAYS
    && (forall i | 0 <= i < |apps| :: Measured(apps[i], nrWays))
    && (forall i: nat, j: nat | i < j < |apps| :: Comparable(apps[i], apps[j], nrWays))
  }

  ghost predicate Measured(a: CC.App, n: nat) {
    && |a.curve| > 0 && n <= a.curve[0] < |a.curve|
    && forall w | 1 <= w <= n :: 0 <= a.curve[w]
  }

  ghost function DistanceOf(apps: seq<CC.App>, n: nat, i: nat, j: nat): int
    requires Input(apps, n) && i < j < |apps|
  {
    assert Comparable(apps[i], apps[j], n);
    Distance(apps[i], apps[j], CC.CombinedOf(apps[i], apps[j], n, n).maxSlowdown, n)
  }

  ghost function PairOf(apps: seq<CC.App>, n: nat, i: nat, j: nat): Cluster
    requires Input(apps, n) && i < j < |apps|
  {
    assert Comparable(apps[i], apps[j], n);
    var c := CC.CombinedOf(apps[i], apps[j], n, n);
    Cluster(i, [i, j], c.perAppSlowdown, c.sumSlowdown)
  }

  /** What the search works on is what the applications' curves determine. */
  ghost predicate Describes(env: Env, apps: seq<CC.App>, n: nat) {
    && env.Valid() && Input(apps, n) && env.nrWays == n && env.N() == |apps|
    && (forall i | 0 <= i < |apps| :: env.curves[i] == apps[i].curve)
    && (forall i: nat, j: nat | i < j < |apps| ::
          env.dist[i][j] == DistanceOf(apps, n, i, j) && env.pairs[i][j] == PairOf(apps, n, i, j))
  }

  ghost predicate RowDone(apps: seq<CC.App>, n: nat, i: nat, dist: seq<int>, pairs: seq<Cluster>, upTo: nat) {
    && Input(apps, n) && i < upTo <= |apps| && |dist| == |pairs| == upTo
    && forall j: nat | i < j < upTo :: dist[j] == DistanceOf(apps, n, i, j) && pairs[j] == PairOf(apps, n, i, j)
  }

  /** The matrix while row i is being filled in up to column m: infinite until both applications are compared. */
  ghost predicate Filled(matrix: array2<int>, apps: seq<CC.App>, n: nat, i: nat, m: nat)
    requires Input(apps, n)
    reads matrix
  {
    && matrix.Length0 == matrix.Length1 == MAX_APPS
    && forall k: nat, l: nat | k < |apps| && l < |apps| ::
         matrix[k, l] ==
           if k < l && (k < i || (k == i && l < m)) then DistanceOf(apps, n, k, l)
           else if l < k && (l < i || (l == i && k < m)) then DistanceOf(apps, n, l, k)
           else INT_MAX
  }

  method ComparePair(apps: seq<CC.App>, nrWays: nat, i: nat, j: nat, matrix: array2<int>)
    returns (distance: int, pair: Cluster)
    requires Input(apps, nrWays) && i < j < |apps| && Filled(matrix, apps, nrWays, i, j)
    modifies matrix
    ensures distance == DistanceOf(apps, nrWays, i, j) && pair == PairOf(apps, nrWays, i, j)
    ensures Filled(matrix, apps, nrWays, i, j + 1)
  {
    assert Comparable(apps[i], apps[j], nrWays);
    var info;
    distance, info := CalculateSlowdownDistance(apps[i], apps[j], nrWays);
    pair := Cluster(i, [i, j], info.perAppSlowdown, info.sumSlowdown);
    assert pair == PairOf(apps, nrWays, i, j);
    StoreDistance(apps, nrWays, i, j, matrix, distance);
  }

  method StoreDistance(apps: seq<CC.App>, nrWays: nat, i: nat, j: nat, matrix: array2<int>, distance: int)
    requires Input(apps, nrWays) && i < j < |apps| && Filled(matrix, apps, nrWays, i, j)
    requires distance == DistanceOf(apps, nrWays, i, j)
    modifies matrix
    ensures Filled(matrix, apps, nrWays, i, j + 1)
  {
    hide DistanceOf;
    hide Comparable;
    hide Measured;
    matrix[i, j] := distance;
    matrix[j, i] := distance;
  }

  method CompareWithRest(apps: seq<CC.App>, nrWays: nat, i: nat, matrix: array2<int>)
    returns (dist: seq<int>, pairs: seq<Cluster>)
    requires Input(apps, nrWays) && i < |apps| && Filled(matrix, apps, nrWays, i, i + 1)
    modifies matrix
    ensures RowDone(apps, nrWays, i, dist, pairs, |apps|)
    ensures Filled(matrix, apps, nrWays, i, |apps|)
  {
    hide DistanceOf;
    hide PairOf;
    hide Filled;
    hide Comparable;
    hide Measured;
    dist, pairs := seq(i + 1, _ => 0), seq(i + 1, _ => Single(i));
    for j := i + 1 to |apps|
      invariant RowDone(apps, nrWays, i, dist, pairs, j)
      invariant Filled(matrix, apps, nrWays, i, j)
    {
      var distance, pair := ComparePair(apps, nrWays, i, j, matrix);
      dist := dist + [distance];
      pairs := pairs + [pair];
    }
  }

  lemma NextRow(matrix: array2<int>, apps: seq<CC.App>, n: nat, i: nat)
    requires Input(apps, n) && i < |apps| && Filled(matrix, apps, n, i, |apps|)
    ensures Filled(matrix, apps, n, i + 1, i + 2)
  {
    hide DistanceOf;
    hide Comparable;
    hide Measured;
  }

  // The matrix starts out all infinite.
  method InitMatrix(n: nat, matrix: array2<int>)
    requires matrix.Length0 == matrix.Length1 == MAX_APPS && n <= MAX_APPS
    modifies matrix
    ensures forall k: nat, l: nat | k < n && l < n :: matrix[k, l] == INT_MAX
  {
    for i := 0 to n
      invariant forall k: nat, l: nat | k < n && l < n && (k < i || l < i) :: matrix[k, l] == INT_MAX
    {
      matrix[i, i] := INT_MAX;
      for j := i + 1 to n
        invariant forall k: nat, l: nat | k < n && l < n && (k < i || l < i) :: matrix[k, l] == INT_MAX
        invariant forall l | i <= l < j :: matrix[i, l] == matrix[l, i] == INT_MAX
      {
        matrix[i, j] := INT_MAX;
        matrix[j, i] := INT_MAX;
      }
    }
  }

  method CompareAll(apps: seq<CC.App>, nrWays: nat, matrix: array2<int>) returns (env: Env)
    requires Input(apps, nrWays) && matrix.Length0 == matrix.Length1 == MAX_APPS
    modifies matrix
    ensures Describes(env, apps, nrWays) && Holds(matrix, env, Below(env.N()))
  {
    InitMatrix(|apps|, matrix);
    var dist, pairs := CompareRows(apps, nrWays, matrix);
    env := Env(seq(|apps|, i requires 0 <= i < |apps| => apps[i].curve), nrWays, dist, pairs);
    EnvValid(env, apps);
    FilledHolds(matrix, apps, env);
  }

  method CompareRows(apps: seq<CC.App>, nrWays: nat, matrix: array2<int>)
    returns (dist: seq<seq<int>>, pairs: seq<seq<Cluster>>)
    requires Input(apps, nrWays) && Filled(matrix, apps, nrWays, 0, 1)
    modifies matrix
    ensures |dist| == |pairs| == |apps|
    ensures forall k: nat | k < |apps| :: RowDone(apps, nrWays, k, dist[k], pairs[k], |apps|)
    ensures Filled(matrix, apps, nrWays, |apps|, |apps| + 1)
  {
    hide RowDone;
    hide Filled;
    hide Input;
    dist, pairs := [], [];
    for i := 0 to |apps|
      invariant |dist| == |pairs| == i
      invariant forall k: nat | k < i :: RowDone(apps, nrWays, k, dist[k], pairs[k], |apps|)
      invariant Filled(matrix, apps, nrWays, i, i + 1)
    {
      var drow, prow := CompareWithRest(apps, nrWays, i, matrix);
      NextRow(matrix, apps, nrWays, i);
      dist, pairs := dist + [drow], pairs + [prow];
    }
  }

  lemma FilledHolds(matrix: array2<int>, apps: seq<CC.App>, env: Env)
    requires Describes(env, apps, env.nrWays) && Filled(matrix, apps, env.nrWays, |apps|, |apps| + 1)
    ensures Holds(matrix, env, Below(env.N()))
  {
    hide DistanceOf;
    hide PairOf;
    hide Comparable;
    hide Measured;
  }

  lemma PairIsWhole(apps: seq<CC.App>, n: nat, i: nat, j: nat)
    requires Input(apps, n) && i < j < |apps|
    ensures var c := PairOf(apps, n, i, j);
            && c.idx == i && c.members == [i, j] && |c.perApp| == n
            && |c.sumSlowdown| == n + 1 && c.sumSlowdown[0] == n
  {
    hide CC.Combinable;
    hide CC.EntryIs;
    assert Comparable(apps[i], apps[j], n);
    CC.CombinedIsCombination(apps[i], apps[j], n, n);
  }

  lemma EnvValid(env: Env, apps: seq<CC.App>)
    requires Input(apps, env.nrWays) && env.N() == |apps| == |env.dist| == |env.pairs|
    requires forall i | 0 <= i < |apps| :: env.curves[i] == apps[i].curve
    requires forall k: nat | k < |apps| :: RowDone(apps, env.nrWays, k, env.dist[k], env.pairs[k], |apps|)
    ensures Describes(env, apps, env.nrWays)
  {
    hide DistanceOf;
    hide PairOf;
    hide Comparable;
    forall i: nat | i < |apps| ensures |env.dist[i]| == |env.pairs[i]| == |apps| {
      assert RowDone(apps, env.nrWays, i, env.dist[i], env.pairs[i], |apps|);
    }
    forall i: nat, j: nat | i < j < |apps|
      ensures env.PairOk(i, j)
      ensures env.dist[i][j] == DistanceOf(apps, env.nrWays, i, j) && env.pairs[i][j] == PairOf(apps, env.nrWays, i, j)
    {
      assert RowDone(apps, env.nrWays, i, env.dist[i], env.pairs[i], |apps|);
      PairIsWhole(apps, env.nrWays, i, j);
    }
    forall i | 0 <= i < |apps| ensures env.nrWays <= env.curves[i][0] < |env.curves[i]| {
      assert Measured(apps[i], env.nrWays);
    }
  }

  /** A cluster as handed to the rest of LFOC. */
  datatype ClusterInfo = ClusterInfo(nrWays: int, nrApps: int, apps: seq<nat>)

  /**
   * The clusters as pair_clustering_core leaves them.  It sets the member count before adding the
   * members one by one, and adding a member counts it again, so the count is twice the number of members.
   */
  method HandOver(s: Solution) returns (clusters: seq<ClusterInfo>)
    requires |s.clusters| == |s.ways|
    ensures |clusters| == |s.clusters|
    ensures forall k | 0 <= k < |clusters| ::
              clusters[k] == ClusterInfo(s.ways[k], 2 * |s.clusters[k].members|, s.clusters[k].members)
  {
    clusters := [];
    for i := 0 to |s.clusters|
      invariant |clusters| == i
      invariant forall k | 0 <= k < i :: clusters[k] == ClusterInfo(s.ways[k], 2 * |s.clusters[k].members|, s.clusters[k].members)
    {
      var members := s.clusters[i].members;
      var nrApps, apps: seq<nat> := |members|, [];
      for j := 0 to |members|
        invariant nrApps == |members| + j && apps == members[..j]
      {
        apps := apps + [members[j]];
        nrApps := nrApps + 1;
      }
      clusters := clusters + [ClusterInfo(s.ways[i], nrApps, apps)];
    }
  }

  /** The slowdowns of the initial solution, in a table that starts out zeroed. */
  function PerAppSlowdowns(n: nat, slowdownPerApp: map<nat, int>): (r: seq<int>)
    ensures |r| == n
  {
    seq(n, a requires 0 <= a < n => if a in slowdownPerApp then slowdownPerApp[a] else 0)
  }

  function InitialSlowdowns(env: Env): (r: seq<int>)
    requires env.Valid()
    ensures |r| == env.N()
  {
    SinglesPartition(env);
    var cs := Singles(env.N());
    WaysDivideCache(env, cs);
    PerAppSlowdowns(env.N(), Summarize(Readings(env, cs, Ways(env, cs), |cs|)).perApp)
  }

  lemma {:induction false} SingleReadings(env: Env, ways: seq<int>, k: nat)
    requires env.Valid() && Divided(env, Singles(env.N()), ways) && k <= env.N()
    ensures var rs := Readings(env, Singles(env.N()), ways, k);
            |rs| == k && forall a: nat | a < k :: rs[a] == Reading(a, env.curves[a][ways[a]])
  {
    hide Divided;
    hide ClusterReadings;
    hide Env.Valid;
    hide Env.IsCluster;
    if k > 0 {
      SingleReadings(env, ways, k - 1);
      ReadingsStep(env, Singles(env.N()), ways, k);
      SingleReading(env, k - 1, ways[k - 1]);
    }
  }

  lemma SingleReading(env: Env, a: nat, w: int)
    requires env.Valid() && a < env.N() && 1 <= w <= env.nrWays
    ensures env.IsCluster(Single(a))
    ensures ClusterReadings(env, Single(a), w) == [Reading(a, env.curves[a][w])]
  {
  }

  // Readings in the order of the applications fill the table in that order.
  lemma {:induction false} OrderedSummary(rs: seq<Reading>)
    requires forall a: nat | a < |rs| :: rs[a].app == a
    ensures var m := Summarize(rs).perApp;
            forall a: nat | a < |rs| :: a in m && m[a] == rs[a].slowdown
  {
    if rs != [] {
      OrderedSummary(rs[..|rs| - 1]);
    }
  }

  /** The search visits applications by the slowdown the lookahead allocation leaves each of them with. */
  lemma InitialSlowdownsMeaning(env: Env)
    requires env.Valid()
    ensures var cs := Singles(env.N());
            && Partition(env, cs)
            && var w := Ways(env, cs);
               && Divided(env, cs, w)
               && forall a: nat | a < env.N() :: InitialSlowdowns(env)[a] == env.curves[a][w[a]]
  {
    hide Ways;
    hide Partition;
    hide Readings;
    hide Summarize;
    SinglesPartition(env);
    var cs := Singles(env.N());
    WaysDivideCache(env, cs);
    SinglesAreClusters(env);
    SingleReadings(env, Ways(env, cs), env.N());
    OrderedSummary(Readings(env, cs, Ways(env, cs), env.N()));
  }

  lemma SinglesAreClusters(env: Env)
    requires env.Valid()
    ensures forall c <- Singles(env.N()) :: env.IsCluster(c)
  {
  }

  /** pair_clustering_core */
  method PairClusteringCore(apps: seq<CC.App>, nrWays: nat) returns (best: Solution, clusters: seq<ClusterInfo>, ghost env: Env, ghost t: Search)
    requires Input(apps, nrWays)
    ensures Describes(env, apps, nrWays)
    ensures t == VisitAll(env, Begin(env), Order(InitialSlowdowns(env), env.N()), env.N())
    ensures best == t.solutions[t.best]
    ensures |clusters| == |best.clusters| == |best.ways|
    ensures forall k | 0 <= k < |clusters| ::
              clusters[k] == ClusterInfo(best.ways[k], 2 * |best.clusters[k].members|, best.clusters[k].members)
  {
    hide Describes;
    hide Partition;
    hide Solve;
    hide Order;
    hide VisitAll;
    hide Input;
    hide Inv;
    hide Holds;
    hide InitialSlowdowns;
    var matrix := new int[MAX_APPS, MAX_APPS];
    var e := CompareAll(apps, nrWays, matrix);
    env := e;
    DescribesValid(e, apps, nrWays);
    SinglesPartition(e);
    var initial, slowdownPerApp := ClusterUcp(e, Singles(e.N()));
    var slow := PerAppSlowdowns(e.N(), slowdownPerApp);
    SlowdownsAsSolved(e);
    InitialNonNegative(e, apps);
    var order := GetSortedSlowdowns(slow);
    assert Search([initial], Below(e.N()), 0) == Begin(e);
    var s := Explore(e, Search([initial], Below(e.N()), 0), order, matrix);
    t := s;
    BestSolved(e, s);
    best := s.solutions[s.best];
    clusters := HandOver(best);
  }

  lemma SlowdownsAsSolved(env: Env)
    requires env.Valid() && Partition(env, Singles(env.N()))
    ensures var cs := Singles(env.N());
            var ways := Solve(env, cs).ways;
            && Divided(env, cs, ways)
            && InitialSlowdowns(env) == PerAppSlowdowns(env.N(), Summarize(Readings(env, cs, ways, |cs|)).perApp)
  {
    WaysDivideCache(env, Singles(env.N()));
    SolveWays(env, Singles(env.N()));
  }

  lemma BestSolved(env: Env, s: Search)
    requires Inv(env, s)
    ensures s.best < |s.solutions| && |s.solutions[s.best].ways| == |s.solutions[s.best].clusters|
  {
    assert Solved(env, s.solutions[s.best]);
    SolveWays(env, s.solutions[s.best].clusters);
  }

  lemma SolveWays(env: Env, cs: seq<Cluster>)
    requires env.Valid() && Partition(env, cs)
    ensures Solve(env, cs).ways == Ways(env, cs)
  {
  }

  lemma DescribesValid(env: Env, apps: seq<CC.App>, n: nat)
    requires Describes(env, apps, n)
    ensures env.Valid() && env.nrWays == n
  {
  }

  lemma InitialNonNegative(env: Env, apps: seq<CC.App>)
    requires Describes(env, apps, env.nrWays)
    ensures forall i | 0 <= i < env.N() :: 0 <= InitialSlowdowns(env)[i]
  {
    InitialSlowdownsMeaning(env);
    forall i: nat | i < env.N() ensures 0 <= InitialSlowdowns(env)[i] {
      assert Measured(apps[i], env.nrWays);
    }
  }

  /**
   * What the search guarantees: every explored solution partitions the applications into clusters of one
   * or two and divides the whole cache among them, consecutive solutions differ by one profitable merge of
   * two applications that were alone, everybody has been considered, and the solution returned is a fairest one.
   */
  lemma SearchGuarantees(env: Env) returns (t: Search)
    requires env.Valid()
    ensures t == VisitAll(env, Begin(env), Order(InitialSlowdowns(env), env.N()), env.N())
    ensures Explored(env, t.solutions) && Fairest(t.solutions, t.best)
    ensures Begin(env).solutions <= t.solutions && t.unmerged == {}
    ensures 1 <= |t.solutions| <= 1 + env.N() / 2
    ensures forall s <- t.solutions :: Partition(env, s.clusters)
              && Sum(s.ways) == env.nrWays && forall k | 0 <= k < |s.ways| :: 1 <= s.ways[k]
  {
    hide Explored;
    hide VisitAll;
    hide Order;
    hide Partition;
    t := VisitAll(env, Begin(env), Order(InitialSlowdowns(env), env.N()), env.N());
    AllSettled(env, InitialSlowdowns(env));
    SolutionsDivide(env, t.solutions);
  }

  lemma AllSettled(env: Env, slow: seq<int>)
    requires env.Valid() && |slow| == env.N()
    ensures var t := VisitAll(env, Begin(env), Order(slow, env.N()), env.N());
            Begin(env).solutions <= t.solutions && t.unmerged == {}
  {
    hide Begin;
    hide Visit;
    hide VisitAll;
    hide Order;
    hide Inv;
    var order := Order(slow, env.N());
    Pigeonhole(order, env.N());
    EverybodySettled(env, Begin(env), order, env.N());
    var t := VisitAll(env, Begin(env), order, env.N());
    BeginUnmerged(env);
    forall a: nat | a < env.N() ensures a !in t.unmerged {
      assert a in order;
    }
    assert t.unmerged == {};
  }

  lemma BeginUnmerged(env: Env)
    requires env.Valid()
    ensures Begin(env).unmerged == Below(env.N())
  {
  }

  lemma SolutionsDivide(env: Env, solutions: seq<Solution>)
    requires env.Valid() && Explored(env, solutions)
    ensures forall s <- solutions :: Partition(env, s.clusters)
              && Sum(s.ways) == env.nrWays && forall k | 0 <= k < |s.ways| :: 1 <= s.ways[k]
  {
    hide Partition;
    forall s <- solutions
      ensures Partition(env, s.clusters)
      ensures Sum(s.ways) == env.nrWays && forall k | 0 <= k < |s.ways| :: 1 <= s.ways[k]
    {
      assert Solved(env, s);
      SolveWays(env, s.clusters);
      WaysDivideCache(env, s.clusters);
    }
  }
}

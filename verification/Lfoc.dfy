/**
 * lfoc_gen in its modes LFOC_LEGACY_MD, LFOC_EVEN_SENSITIVE_MD and LFOC_NOPART_SENSITIVE_MD,
 * without isolated streaming applications or colliding streaming partitions, and with a
 * partition of all ways for the light applications.
 */
module Lfoc {
  import opened Arithmetic
  import opened ClusterSets
  import opened Sequences
  import opened Ucp
  import opened UcpTheorems

  const MAX_WAYS_STREAMING: nat := 4
  const EINVAL: int := 22

  datatype Class = Sensitive | Light | Streaming | Unknown
  datatype App = App(cls: Class, curve: Curve)
  datatype Mode = Legacy | EvenSensitive | NoPartSensitive

  // ---------------------------------------------------------------------------
  // Classes of applications
  // ---------------------------------------------------------------------------

  /** The first n applications of a class, by position. */
  function Of(apps: seq<App>, cls: Class, n: nat): (r: seq<nat>)
    requires n <= |apps|
    ensures NoDuplicates(r) && forall i | 0 <= i < |r| :: r[i] < n
    ensures forall a: nat :: a in r <==> a < n && apps[a].cls == cls
  {
    if n == 0 then []
    else if apps[n - 1].cls == cls then
      NoDuplicatesConcat(Of(apps, cls, n - 1), [n - 1]);
      Of(apps, cls, n - 1) + [n - 1]
    else
      Of(apps, cls, n - 1)
  }

  function All(apps: seq<App>, cls: Class): seq<nat> {
    Of(apps, cls, |apps|)
  }

  /** They are listed in their order. */
  lemma {:induction false} OfInOrder(apps: seq<App>, cls: Class, n: nat)
    requires n <= |apps|
    ensures forall i, j | 0 <= i < j < |Of(apps, cls, n)| :: Of(apps, cls, n)[i] < Of(apps, cls, n)[j]
  {
    if n > 0 {
      OfInOrder(apps, cls, n - 1);
    }
  }

  function Curves(apps: seq<App>, ids: seq<nat>): (r: seq<Curve>)
    requires forall i | 0 <= i < |ids| :: ids[i] < |apps|
    ensures |r| == |ids| && forall i | 0 <= i < |r| :: r[i] == apps[ids[i]].curve
  {
    seq(|ids|, i requires 0 <= i < |ids| => apps[ids[i]].curve)
  }

  /** Without unknown applications, the other three classes have each of them once. */
  lemma ClassesPartition(apps: seq<App>)
    requires All(apps, Unknown) == []
    ensures var r := All(apps, Sensitive) + All(apps, Streaming) + All(apps, Light);
            NoDuplicates(r) && forall a: nat :: a in r <==> a < |apps|
  {
    hide Of;
    NoDuplicatesConcat(All(apps, Sensitive), All(apps, Streaming));
    NoDuplicatesConcat(All(apps, Sensitive) + All(apps, Streaming), All(apps, Light));
    forall a: nat | a < |apps| ensures a in All(apps, Sensitive) + All(apps, Streaming) + All(apps, Light) {
      assert a !in All(apps, Unknown);
    }
  }

  // ---------------------------------------------------------------------------
  // Streaming applications
  // ---------------------------------------------------------------------------

  /** The ways reserved for n streaming applications: rounded up, and capped. */
  function Reserved(n: nat, maxStreaming: nat, size: nat): (r: nat)
    requires maxStreaming > 0
  {
    if n == 0 then 0
    else
      MulNonNegative(n + maxStreaming - 1, size);
      DivNonNegative((n + maxStreaming - 1) * size, maxStreaming);
      var r := ((n + maxStreaming - 1) * size) / maxStreaming;
      if r > MAX_WAYS_STREAMING then MAX_WAYS_STREAMING else r
  }

  /** The reservation is the share of all partitions, rounded down, up to the cap, which it meets exactly when that share does. */
  lemma ReservedExact(n: nat, maxStreaming: nat, size: nat)
    requires maxStreaming > 0
    ensures var r, share := Reserved(n, maxStreaming, size), (n + maxStreaming - 1) * size;
            && (n == 0 ==> r == 0)
            && (n > 0 ==> r <= MAX_WAYS_STREAMING)
            && (n > 0 && r < MAX_WAYS_STREAMING ==> r * maxStreaming <= share < (r + 1) * maxStreaming)
            && (n > 0 ==> (r == MAX_WAYS_STREAMING <==> MAX_WAYS_STREAMING * maxStreaming <= share))
  {
    if n > 0 {
      var share := (n + maxStreaming - 1) * size;
      QuotientBounds(share, maxStreaming);
      hide Reserved;
      ReservedIs(n, maxStreaming, size, share / maxStreaming);
      CapMet(share, maxStreaming, share / maxStreaming);
    }
  }

  lemma ReservedIs(n: nat, maxStreaming: nat, size: nat, q: int)
    requires n > 0 && maxStreaming > 0 && q == ((n + maxStreaming - 1) * size) / maxStreaming
    ensures Reserved(n, maxStreaming, size) == if q > MAX_WAYS_STREAMING then MAX_WAYS_STREAMING else q
  {
  }

  lemma CapMet(share: int, k: nat, q: int)
    requires k > 0 && q * k <= share < (q + 1) * k
    ensures MAX_WAYS_STREAMING <= q <==> MAX_WAYS_STREAMING * k <= share
  {
    if MAX_WAYS_STREAMING <= q {
      MulMonotone(MAX_WAYS_STREAMING, q, k);
    } else {
      MulMonotone(q + 1, MAX_WAYS_STREAMING, k);
    }
  }

  lemma ReservedBounds(n: nat, maxStreaming: nat, size: nat)
    requires n > 0 && maxStreaming > 0 && 1 <= size <= MAX_WAYS_STREAMING
    ensures size <= Reserved(n, maxStreaming, size) <= MAX_WAYS_STREAMING
    ensures Reserved(n, maxStreaming, size) / size >= 1
  {
    MulMonotone(maxStreaming, n + maxStreaming - 1, size);
    MulNonNegative(n + maxStreaming - 1, size);
    QuotientAtLeast((n + maxStreaming - 1) * size, maxStreaming, size);
    QuotientAtLeast(Reserved(n, maxStreaming, size), size, 1);
  }

  /** A streaming partition fits what is reserved for it, so that there are partitions to divide by, exactly up to four ways. */
  lemma PartsExist(n: nat, maxStreaming: nat, size: nat)
    requires n > 0 && maxStreaming > 0 && size > 0
    ensures Reserved(n, maxStreaming, size) / size >= 1 <==> size <= MAX_WAYS_STREAMING
  {
    if size <= MAX_WAYS_STREAMING {
      ReservedBounds(n, maxStreaming, size);
    } else {
      assert 0 <= Reserved(n, maxStreaming, size) < size;
      QuotientUnique(Reserved(n, maxStreaming, size), size, 0);
    }
  }

  /** n divided by k, rounded up. */
  function CeilDiv(n: nat, k: nat): (r: nat)
    requires k > 0
    ensures n <= r * k < n + k
  {
    QuotientBounds(n + k - 1, k);
    DivNonNegative(n + k - 1, k);
    MulSub((n + k - 1) / k + 1, (n + k - 1) / k, k);
    (n + k - 1) / k
  }

  lemma CeilDivLeast(n: nat, k: nat, m: nat)
    requires k > 0
    ensures CeilDiv(n, k) <= m <==> n <= m * k
  {
    var r := CeilDiv(n, k);
    if r <= m {
      MulMonotone(r, m, k);
    } else {
      MulMonotone(m, r - 1, k);
      MulSub(r, 1, k);
    }
  }

  /** Clusters of p applications, as long as there are any. */
  function Chunks(ids: seq<nat>, p: nat, ways: int): (r: seq<Cluster>)
    requires p > 0
    ensures forall c | 0 <= c < |r| :: r[c].nrWays == ways && 0 < |r[c].apps| <= p
  {
    if ids == [] then []
    else
      var k := if |ids| < p then |ids| else p;
      [Cluster(ways, ids[..k])] + Chunks(ids[k..], p, ways)
  }

  lemma {:induction false} ChunksMembers(ids: seq<nat>, p: nat, ways: int)
    requires p > 0
    ensures Members(Chunks(ids, p, ways)) == ids
  {
    if ids != [] {
      var k := if |ids| < p then |ids| else p;
      ChunksMembers(ids[k..], p, ways);
      var rest := Chunks(ids[k..], p, ways);
      assert ([Cluster(ways, ids[..k])] + rest)[1..] == rest;
      assert ids == ids[..k] + ids[k..];
    }
  }

  lemma {:induction false} ChunksCount(ids: seq<nat>, p: nat, ways: int)
    requires p > 0
    ensures |Chunks(ids, p, ways)| == CeilDiv(|ids|, p)
  {
    if ids == [] {
      CeilDivLeast(0, p, 0);
    } else {
      var k := if |ids| < p then |ids| else p;
      ChunksCount(ids[k..], p, ways);
      var r := CeilDiv(|ids[k..]|, p);
      CeilDivLeast(|ids|, p, r + 1);
      CeilDivLeast(|ids|, p, r);
      CeilDivLeast(|ids| - k, p, r);
      MulSub(r + 1, r, p);
      if r > 0 {
        CeilDivLeast(|ids| - k, p, r - 1);
        MulSub(r, 1, p);
      }
    }
  }

  /** How many streaming applications share a cluster. */
  function PerCluster(n: nat, reserved: nat, size: nat): (p: nat)
    requires n > 0 && size > 0 && reserved / size >= 1
    ensures p > 0
  {
    CeilDivLeast(n, reserved / size, 0);
    CeilDiv(n, reserved / size)
  }

  function StreamingClusters(ids: seq<nat>, reserved: nat, size: nat): seq<Cluster>
    requires size > 0 && (ids != [] ==> reserved / size >= 1)
  {
    if ids == [] then [] else Chunks(ids, PerCluster(|ids|, reserved, size), size)
  }

  lemma {:induction false} ChunksFull(ids: seq<nat>, p: nat, ways: int)
    requires p > 0
    ensures forall c | 0 <= c < |Chunks(ids, p, ways)| - 1 :: |Chunks(ids, p, ways)[c].apps| == p
  {
    if ids != [] {
      ChunksFull(ids[if |ids| < p then |ids| else p..], p, ways);
    }
  }

  /**
   * The streaming applications are dealt out in order: as many to a cluster as it takes for the
   * partitions to hold them all, and what is left to the last one.
   */
  lemma StreamingShape(ids: seq<nat>, reserved: nat, size: nat) returns (p: nat)
    requires ids != [] && size > 0 && reserved / size >= 1
    ensures var cs, parts := StreamingClusters(ids, reserved, size), reserved / size;
            && |ids| <= p * parts < |ids| + parts
            && Members(cs) == ids && cs != []
            && (forall c | 0 <= c < |cs| :: cs[c].nrWays == size)
            && (forall c | 0 <= c < |cs| - 1 :: |cs[c].apps| == p)
            && 0 < |cs[|cs| - 1].apps| <= p
  {
    hide Chunks;
    p := PerCluster(|ids|, reserved, size);
    ChunksFull(ids, p, size);
    StreamingFits(ids, reserved, size);
  }

  /** The clusters for streaming applications take no more ways than were reserved for them. */
  lemma StreamingFits(ids: seq<nat>, reserved: nat, size: nat)
    requires size > 0 && (ids != [] ==> reserved / size >= 1)
    ensures var cs := StreamingClusters(ids, reserved, size);
            && Members(cs) == ids && (ids != [] ==> 0 < |cs| <= reserved / size)
            && Sum(Ways(cs)) == |cs| * size <= reserved && |cs| <= reserved
  {
    var cs := StreamingClusters(ids, reserved, size);
    SumConstant(Ways(cs), size);
    if ids == [] {
      MulNonNegative(0, size);
    } else {
      var parts, p := reserved / size, PerCluster(|ids|, reserved, size);
      ChunksMembers(ids, p, size);
      ChunksCount(ids, p, size);
      CeilDivLeast(|ids|, p, parts);
      QuotientBounds(reserved, size);
      MulMonotone(|cs|, parts, size);
      MulMonotone(1, size, |cs|);
    }
  }

  /**
   * lfoc_gen goes on as if it had recorded the position of a streaming cluster for each of
   * its partitions.  It has done so just when rounding up does not leave a partition without
   * applications; otherwise the last entries are never set.
   */
  lemma PositionsSet(ids: seq<nat>, reserved: nat, size: nat)
    requires ids != [] && size > 0 && reserved / size >= 1
    ensures var parts := reserved / size;
            |StreamingClusters(ids, reserved, size)| == parts <==> (parts - 1) * PerCluster(|ids|, reserved, size) < |ids|
  {
    var parts, p := reserved / size, PerCluster(|ids|, reserved, size);
    StreamingFits(ids, reserved, size);
    ChunksCount(ids, p, size);
    CeilDivLeast(|ids|, p, parts - 1);
  }

  /** Five applications, one per way, fill three of the four partitions. */
  lemma PositionsNotSet(ids: seq<nat>)
    requires |ids| == 5
    ensures Reserved(5, 1, 1) == 4
    ensures |StreamingClusters(ids, 4, 1)| == 3
  {
    CeilDivLeast(5, 4, 2);
    CeilDivLeast(5, 4, 1);
    assert PerCluster(5, 4, 1) == 2;
    ChunksCount(ids, 2, 1);
    CeilDivLeast(5, 2, 3);
    CeilDivLeast(5, 2, 2);
  }

  // ---------------------------------------------------------------------------
  // Sensitive applications
  // ---------------------------------------------------------------------------

  /** Whether all sensitive applications share one cluster: by choice, or because there are too many. */
  predicate OneForAll(mode: Mode, nrSensitive: nat, nrWays: int) {
    mode == NoPartSensitive || (mode == Legacy && nrSensitive > nrWays)
  }

  function Shares(mode: Mode, curves: seq<Curve>, ways: int): (r: seq<int>)
    requires |curves| > 0 && (mode == Legacy ==> AllWellFormed(curves))
    ensures |r| == |curves|
  {
    if mode == EvenSensitive then EqualShares(ways, |curves|)
    else if |curves| == 1 || mode == NoPartSensitive then seq(|curves|, _ => ways)
    else Lookahead(curves, ways)
  }

  function SensitiveClusters(mode: Mode, ids: seq<nat>, curves: seq<Curve>, nrWays: int, reserved: nat): seq<Cluster>
    requires |curves| == |ids| > 0 && (mode == Legacy ==> AllWellFormed(curves))
  {
    if OneForAll(mode, |ids|, nrWays) then [Cluster(nrWays - reserved, ids)]
    else Singles(ids, Shares(mode, curves, nrWays - reserved))
  }

  // What the shares of the sensitive clusters add up to.
  lemma SharesSum(mode: Mode, curves: seq<Curve>, rest: int)
    requires |curves| > 0 && mode != NoPartSensitive && (mode == Legacy ==> AllWellFormed(curves))
    ensures mode == EvenSensitive && rest >= 0 ==> Sum(Shares(mode, curves, rest)) == rest
    ensures mode == Legacy ==>
              Sum(Shares(mode, curves, rest)) == if |curves| == 1 || |curves| <= rest then rest else |curves|
  {
    hide Sum;
    hide Lookahead;
    hide EqualShares;
    if mode == EvenSensitive {
      if rest >= 0 {
        SharesAreFair(rest, |curves|);
      }
    } else if |curves| == 1 {
      OneWay(Shares(mode, curves, rest), rest);
    } else {
      LookaheadConserves(curves, rest);
      SumConstant(Ones(|curves|), 1);
    }
  }

  /**
   * The sensitive clusters divide the ways that are not reserved.  With lookahead they do so
   * just when there are no more of them than such ways, although the code only compares
   * their number with all ways; a single application is an exception.
   */
  lemma SensitiveTakeRest(mode: Mode, ids: seq<nat>, curves: seq<Curve>, nrWays: int, reserved: nat)
    requires |curves| == |ids| > 0 && (mode == Legacy ==> AllWellFormed(curves))
    ensures var cs := SensitiveClusters(mode, ids, curves, nrWays, reserved);
            && Members(cs) == ids
            && (mode == NoPartSensitive || (mode == EvenSensitive && nrWays >= reserved) ==> Sum(Ways(cs)) == nrWays - reserved)
            && (mode == Legacy ==>
                  if OneForAll(mode, |ids|, nrWays) || |ids| == 1 || |ids| <= nrWays - reserved
                  then Sum(Ways(cs)) == nrWays - reserved
                  else Sum(Ways(cs)) == |ids| > nrWays - reserved)
  {
    hide Sum;
    hide Shares;
    hide Singles;
    var cs, rest := SensitiveClusters(mode, ids, curves, nrWays, reserved), nrWays - reserved;
    if OneForAll(mode, |ids|, nrWays) {
      OneMembers(rest, ids);
      OneWay(Ways(cs), rest);
    } else {
      SinglesMembers(ids, Shares(mode, curves, rest));
      SharesSum(mode, curves, rest);
    }
  }

  /**
   * One cluster with all unreserved ways when that is the mode, or when lookahead would have
   * more applications than ways; otherwise a cluster for each application: with lookahead's
   * shares, or with even ones of which the larger come first.
   */
  lemma SensitiveShape(mode: Mode, ids: seq<nat>, curves: seq<Curve>, nrWays: int, reserved: nat)
    requires |curves| == |ids| > 0 && (mode == Legacy ==> AllWellFormed(curves))
    ensures var cs, rest := SensitiveClusters(mode, ids, curves, nrWays, reserved), nrWays - reserved;
            if mode == NoPartSensitive || (mode == Legacy && |ids| > nrWays) then
              cs == [Cluster(rest, ids)]
            else
              && |cs| == |ids| && (forall i | 0 <= i < |ids| :: cs[i].apps == [ids[i]])
              && (mode == Legacy && |ids| == 1 ==> cs[0].nrWays == rest)
              && (mode == Legacy && |ids| >= 2 ==> Ways(cs) == Lookahead(curves, rest))
              && (mode == EvenSensitive && rest >= 0 ==>
                    forall i, j | 0 <= i < j < |cs| :: cs[j].nrWays <= cs[i].nrWays <= cs[j].nrWays + 1)
  {
    hide Lookahead;
    hide EqualShares;
    hide Singles;
    if !OneForAll(mode, |ids|, nrWays) {
      SinglesMembers(ids, Shares(mode, curves, nrWays - reserved));
      if mode == EvenSensitive && nrWays >= reserved {
        SharesAreFair(nrWays - reserved, |curves|);
      }
    }
  }

  /** Eleven ways, of which four are reserved, and eight sensitive applications: they get eight ways, not seven. */
  lemma TooManyWays(ids: seq<nat>, curves: seq<Curve>)
    requires |curves| == |ids| == 8 && AllWellFormed(curves)
    ensures Sum(Ways(SensitiveClusters(Legacy, ids, curves, 11, 4))) == 8
  {
    SensitiveTakeRest(Legacy, ids, curves, 11, 4);
  }

  lemma OneWay(ways: seq<int>, w: int)
    requires ways == [w]
    ensures Sum(ways) == w
  {
    SumConstant(ways, w);
  }

  // ---------------------------------------------------------------------------
  // The whole clustering
  // ---------------------------------------------------------------------------

  function LightClusters(ids: seq<nat>, nrWays: int): seq<Cluster> {
    if ids == [] then [] else [Cluster(nrWays, ids)]
  }

  /** What lfoc_gen is asked to do. */
  datatype Request = Request(apps: seq<App>, nrWays: int, maxStreaming: nat, mode: Mode, size: nat)
  {
    function Sens(): seq<nat> { All(apps, Sensitive) }
    function Strm(): seq<nat> { All(apps, Streaming) }

    function SensCurves(): (r: seq<Curve>)
      ensures |r| == |Sens()|
    {
      Curves(apps, Sens())
    }

    ghost predicate Valid() {
      && maxStreaming > 0 && 1 <= size <= MAX_WAYS_STREAMING
      && (mode == Legacy ==> AllWellFormed(SensCurves()))
    }

    function ReservedWays(): nat
      requires maxStreaming > 0
    {
      Reserved(|Strm()|, maxStreaming, size)
    }

    /** The clusters when there are sensitive applications. */
    function Sensitives(): seq<Cluster>
      requires Valid() && Sens() != []
    {
      SensitiveClusters(mode, Sens(), SensCurves(), nrWays, ReservedWays())
    }

    function Streamings(): seq<Cluster>
      requires Valid()
    {
      if Strm() == [] then []
      else
        ReservedBounds(|Strm()|, maxStreaming, size);
        StreamingClusters(Strm(), ReservedWays(), size)
    }

    function Clusters(): seq<Cluster>
      requires Valid()
    {
      if Sens() == [] then [Cluster(nrWays, Upto(|apps|))]
      else Sensitives() + Streamings() + LightClusters(All(apps, Light), nrWays)
    }
  }

  /** The clusters come in this order, and the light applications share one that has the whole cache. */
  lemma ClustersInOrder(q: Request)
    requires q.Valid() && q.Sens() != []
    ensures var cs, n := q.Clusters(), |q.Sensitives()| + |q.Streamings()|;
            && |cs| == n + (if All(q.apps, Light) == [] then 0 else 1)
            && cs[..n] == q.Sensitives() + q.Streamings()
            && (|cs| > n ==> cs[n] == Cluster(q.nrWays, All(q.apps, Light)))
            && (q.Streamings() == [] <==> q.Strm() == [])
  {
    hide Of;
    hide SensitiveClusters;
    hide StreamingClusters;
    if q.Strm() != [] {
      ReservedBounds(|q.Strm()|, q.maxStreaming, q.size);
      StreamingFits(q.Strm(), q.ReservedWays(), q.size);
    }
  }

  lemma LightMembers(ids: seq<nat>, nrWays: int)
    ensures Members(LightClusters(ids, nrWays)) == ids
  {
    OneMembers(nrWays, ids);
  }

  lemma OneMembers(ways: int, ids: seq<nat>)
    ensures Members([Cluster(ways, ids)]) == ids
  {
    var cs := [Cluster(ways, ids)];
    assert cs[1..] == [] && ids + [] == ids;
  }

  lemma StreamingMembers(q: Request)
    requires q.Valid()
    ensures Members(q.Streamings()) == q.Strm()
  {
    hide StreamingClusters;
    if q.Strm() != [] {
      ReservedBounds(|q.Strm()|, q.maxStreaming, q.size);
      StreamingFits(q.Strm(), q.ReservedWays(), q.size);
    }
  }

  /** Every application is in exactly one cluster. */
  lemma LfocPartitions(q: Request)
    requires q.Valid() && All(q.apps, Unknown) == []
    ensures Partitions(q.Clusters(), |q.apps|)
  {
    hide Of;
    hide SensitiveClusters;
    hide StreamingClusters;
    hide LightClusters;
    hide Members;
    if q.Sens() == [] {
      OneMembers(q.nrWays, Upto(|q.apps|));
      UptoPartitions(q.Clusters(), |q.apps|);
    } else {
      SensitiveTakeRest(q.mode, q.Sens(), q.SensCurves(), q.nrWays, q.ReservedWays());
      StreamingMembers(q);
      LightMembers(All(q.apps, Light), q.nrWays);
      MembersConcat(q.Sensitives() + q.Streamings(), LightClusters(All(q.apps, Light), q.nrWays));
      MembersConcat(q.Sensitives(), q.Streamings());
      ClassesPartition(q.apps);
    }
  }

  /** The streaming clusters stay within the reserved ways, and the sensitive ones divide the others. */
  lemma LfocWays(q: Request)
    requires q.Valid() && q.Sens() != []
    ensures Sum(Ways(q.Streamings())) <= q.ReservedWays() <= MAX_WAYS_STREAMING
    ensures |q.Sens()| <= q.nrWays - q.ReservedWays() ==> Sum(Ways(q.Sensitives())) == q.nrWays - q.ReservedWays()
  {
    hide Of;
    hide SensitiveClusters;
    SensitiveTakeRest(q.mode, q.Sens(), q.SensCurves(), q.nrWays, q.ReservedWays());
    if q.Strm() != [] {
      ReservedBounds(|q.Strm()|, q.maxStreaming, q.size);
      StreamingFits(q.Strm(), q.ReservedWays(), q.size);
    }
  }

  // ---------------------------------------------------------------------------
  // The algorithm
  // ---------------------------------------------------------------------------

  /** The first of the least of the first n values, among those below the bound. */
  function FirstLeast(s: seq<int>, n: nat, bound: int): (int, int)
    requires n <= |s|
  {
    if n == 0 then (bound, -1)
    else
      var r := FirstLeast(s, n - 1, bound);
      if r.0 > s[n - 1] then (s[n - 1], n - 1) else r
  }

  lemma {:induction false} FirstLeastIsFirst(s: seq<int>, n: nat, bound: int)
    requires n <= |s|
    ensures var r := FirstLeast(s, n, bound);
            && -1 <= r.1 < n && r.0 <= bound && (forall i | 0 <= i < n :: r.0 <= s[i])
            && (r.1 == -1 ==> r.0 == bound)
            && (r.1 >= 0 ==> r.0 == s[r.1] < bound && forall i | 0 <= i < r.1 :: s[i] > r.0)
  {
    if n > 0 {
      FirstLeastIsFirst(s, n - 1, bound);
    }
  }

  /** Where the sensitive applications leave the default cluster; -1 is none. */
  function SensitiveDefault(mode: Mode, curves: seq<Curve>, nrWays: int, reserved: nat): int
    requires |curves| > 0 && (mode == Legacy ==> AllWellFormed(curves))
  {
    var n := |curves|;
    if OneForAll(mode, n, nrWays) then 0
    else if mode == EvenSensitive then n - 1
    else FirstLeast(Shares(mode, curves, nrWays - reserved), n, 1000 * nrWays).1
  }

  /** The default cluster exists: under lookahead the first with the fewest ways, with even shares the last one. */
  lemma SensitiveDefaultExists(mode: Mode, ids: seq<nat>, curves: seq<Curve>, nrWays: int, reserved: nat)
    requires |curves| == |ids| > 0 && (mode == Legacy ==> AllWellFormed(curves)) && nrWays > reserved
    ensures var cs, d := SensitiveClusters(mode, ids, curves, nrWays, reserved), SensitiveDefault(mode, curves, nrWays, reserved);
            && 0 <= d < |cs|
            && (mode == Legacy ==> forall c | 0 <= c < |cs| :: cs[d].nrWays <= cs[c].nrWays)
            && (mode == Legacy ==> forall c | 0 <= c < d :: cs[d].nrWays < cs[c].nrWays)
            && (mode != Legacy ==> d == |cs| - 1)
  {
    hide Shares;
    hide Singles;
    if !OneForAll(mode, |ids|, nrWays) && mode == Legacy {
      var shares := Shares(mode, curves, nrWays - reserved);
      FirstShareInRange(curves, nrWays, nrWays - reserved);
      FirstLeastIsFirst(shares, |curves|, 1000 * nrWays);
    }
  }

  lemma FirstShareInRange(curves: seq<Curve>, nrWays: int, rest: int)
    requires 0 < |curves| <= nrWays && 0 < rest <= nrWays && AllWellFormed(curves)
    ensures Shares(Legacy, curves, rest)[0] < 1000 * nrWays
  {
    hide Sum;
    hide Lookahead;
    if |curves| > 1 {
      LookaheadConserves(curves, rest);
      if |curves| <= rest {
        SumBoundsEntry(Lookahead(curves, rest), 1, 0);
      }
    }
  }

  /** The pool has room for all clusters, and lookahead's can be looked up by number. */
  ghost predicate Fits(q: Request)
    requires q.Valid()
  {
    && |q.Clusters()| <= MAX_CLUSTERS
    && (q.mode == Legacy ==> |q.Sens()| < MAX_CLUSTERS)
  }

  method Classify(apps: seq<App>, cls: Class) returns (ids: seq<nat>)
    ensures ids == All(apps, cls)
  {
    ids := [];
    for i := 0 to |apps|
      invariant ids == Of(apps, cls, i)
    {
      if apps[i].cls == cls {
        ids := ids + [i];
      }
    }
  }

  // The clusters of the modes that use lookahead, and the choice of the default cluster among them.
  method LookaheadClusters(set_: ClusterSet, ids: seq<nat>, curves: seq<Curve>, ways: int, bound: int)
    returns (fewerWaysCluster: int)
    requires set_.clusters == [] && |curves| == |ids| && 0 < |ids| < MAX_CLUSTERS && AllWellFormed(curves)
    modifies set_
    ensures set_.clusters == Singles(ids, Shares(Legacy, curves, ways))
    ensures fewerWaysCluster == FirstLeast(Shares(Legacy, curves, ways), |ids|, bound).1
  {
    hide Lookahead;
    var zeros := seq(|ids|, _ => 0);
    assert Singles(ids[..0], zeros[..0]) == [];
    for i := 0 to |ids|
      invariant set_.clusters == Singles(ids[..i], zeros[..i])
    {
      var cur := set_.AllocateNewCluster();
      set_.AddApp(cur, ids[i]);
      assert [] + [ids[i]] == [ids[i]];
      assert Singles(ids[..i + 1], zeros[..i + 1]) == Singles(ids[..i], zeros[..i]) + [Cluster(0, [ids[i]])];
    }
    assert ids[..|ids|] == ids && zeros[..|ids|] == zeros;
    var ucpSolution := new int[MAX_CLUSTERS];
    var nodes := seq(|ids|, i requires 0 <= i < |ids| => AppNode(curves[i]));
    assert NodeCurves(nodes) == curves;
    LookaheadList(nodes, ways, ucpSolution);
    ghost var shares := Shares(Legacy, curves, ways);
    assert ucpSolution[..|ids|] == shares;
    fewerWaysCluster := CopyShares(set_, ids, ucpSolution, shares, bound);
  }

  method CopyShares(set_: ClusterSet, ids: seq<nat>, ucpSolution: array<int>, ghost shares: seq<int>, bound: int)
    returns (fewerWaysCluster: int)
    requires |shares| == |ids| <= ucpSolution.Length && ucpSolution[..|ids|] == shares
    requires set_.clusters == Singles(ids, seq(|ids|, _ => 0))
    modifies set_
    ensures set_.clusters == Singles(ids, shares)
    ensures fewerWaysCluster == FirstLeast(shares, |ids|, bound).1
  {
    hide Singles;
    fewerWaysCluster := -1;
    var minWaysUcp := bound;
    for i := 0 to |ids|
      invariant |set_.clusters| == |ids|
      invariant forall k | 0 <= k < |ids| :: set_.clusters[k].apps == [ids[k]]
      invariant forall k | 0 <= k < i :: set_.clusters[k].nrWays == shares[k]
      invariant (minWaysUcp, fewerWaysCluster) == FirstLeast(shares, i, bound)
    {
      assert ucpSolution[i] == ucpSolution[..|ids|][i];
      set_.SetWays(i, ucpSolution[i]);
      if minWaysUcp > set_.clusters[i].nrWays {
        minWaysUcp := set_.clusters[i].nrWays;
        fewerWaysCluster := i;
      }
    }
    assert set_.clusters == Singles(ids, shares);
  }

  lemma ShareKinds(mode: Mode, curves: seq<Curve>, ways: int)
    requires |curves| > 0 && (mode == Legacy ==> AllWellFormed(curves))
    ensures mode == EvenSensitive ==> Shares(mode, curves, ways) == EqualShares(ways, |curves|)
  {
  }

  method SensitiveStage(set_: ClusterSet, mode: Mode, ids: seq<nat>, curves: seq<Curve>, nrWays: int, reserved: nat)
    returns (fewerWaysCluster: int)
    requires |curves| == |ids| > 0 && (mode == Legacy ==> AllWellFormed(curves)) && set_.clusters == []
    requires |SensitiveClusters(mode, ids, curves, nrWays, reserved)| <= MAX_CLUSTERS && (mode == Legacy ==> |ids| < MAX_CLUSTERS)
    modifies set_
    ensures set_.clusters == SensitiveClusters(mode, ids, curves, nrWays, reserved)
    ensures fewerWaysCluster == SensitiveDefault(mode, curves, nrWays, reserved)
  {
    hide FirstLeast;
    hide AllWellFormed;
    hide Shares;
    hide EqualShares;
    ShareKinds(mode, curves, nrWays - reserved);
    if OneForAll(mode, |ids|, nrWays) {
      AddCluster(set_, nrWays - reserved, ids);
      fewerWaysCluster := 0;
    } else if mode == EvenSensitive {
      set_.ShareEqually(ids, nrWays - reserved);
      fewerWaysCluster := |ids| - 1;
    } else {
      fewerWaysCluster := LookaheadClusters(set_, ids, curves, nrWays - reserved, 1000 * nrWays);
    }
  }

  // A new cluster with these applications in it.
  method AddCluster(set_: ClusterSet, ways: int, ids: seq<nat>)
    requires |set_.clusters| < MAX_CLUSTERS
    modifies set_`clusters
    ensures set_.clusters == old(set_.clusters) + [Cluster(ways, ids)]
  {
    var cur := set_.AllocateNewCluster();
    set_.SetWays(cur, ways);
    set_.AddAll(ids);
    assert [] + ids == ids;
  }

  lemma ChunksStep(ids: seq<nat>, next: nat, p: nat, size: int)
    requires p > 0 && next < |ids|
    ensures var k := if p < |ids| - next then p else |ids| - next;
            Chunks(ids[next..], p, size) == [Cluster(size, ids[next..next + k])] + Chunks(ids[next + k..], p, size)
  {
    var k := if p < |ids| - next then p else |ids| - next;
    assert ids[next..][..k] == ids[next..next + k] && ids[next..][k..] == ids[next + k..];
  }

  // The clusters for the streaming applications, and the default cluster they leave: the last of them.
  method StreamingStage(set_: ClusterSet, ids: seq<nat>, reserved: nat, size: nat)
    requires ids != [] && size > 0 && reserved / size >= 1
    requires |set_.clusters| + |StreamingClusters(ids, reserved, size)| <= MAX_CLUSTERS
    modifies set_
    ensures set_.clusters == old(set_.clusters) + StreamingClusters(ids, reserved, size)
    ensures set_.defaultCluster == |set_.clusters| - 1
  {
    StreamingFits(ids, reserved, size);
    FillClusters(set_, ids, PerCluster(|ids|, reserved, size), reserved, size);
  }

  method FillClusters(set_: ClusterSet, ids: seq<nat>, proportionalStreaming: nat, reserved: nat, size: int)
    requires ids != [] && proportionalStreaming > 0 && |Chunks(ids, proportionalStreaming, size)| <= reserved
    requires |set_.clusters| + |Chunks(ids, proportionalStreaming, size)| <= MAX_CLUSTERS
    modifies set_
    ensures set_.clusters == old(set_.clusters) + Chunks(ids, proportionalStreaming, size)
    ensures set_.defaultCluster == |set_.clusters| - 1
  {
    hide *;
    ghost var all := Chunks(ids, proportionalStreaming, size);
    var nrClusters := |set_.clusters|;
    var i, next := 0, 0;
    ghost var done: seq<Cluster> := [];
    assert ids[0..] == ids && [] + all == all && set_.clusters + [] == set_.clusters;
    while i < reserved && |ids| - next > 0
      invariant i == |done| && 0 <= next <= |ids|
      invariant done + Chunks(ids[next..], proportionalStreaming, size) == all
      invariant set_.clusters == old(set_.clusters) + done
      invariant if i == 0 then next == 0 else set_.defaultCluster == nrClusters + i - 1
    {
      ChunksStep(ids, next, proportionalStreaming, size);
      var streamToAssign := if proportionalStreaming < |ids| - next then proportionalStreaming else |ids| - next;
      var cluster := Cluster(size, ids[next..next + streamToAssign]);
      ghost var rest := Chunks(ids[next + streamToAssign..], proportionalStreaming, size);
      assert done + ([cluster] + rest) == (done + [cluster]) + rest;
      assert (old(set_.clusters) + done) + [cluster] == old(set_.clusters) + (done + [cluster]);
      AddCluster(set_, cluster.nrWays, cluster.apps);
      done := done + [cluster];
      next := next + streamToAssign;
      set_.defaultCluster := nrClusters + i;
      i := i + 1;
    }
    ChunksNone(ids[next..], proportionalStreaming, size);
    assert done == all;
  }

  lemma ChunksNone(ids: seq<nat>, p: nat, size: int)
    requires p > 0
    ensures Chunks(ids, p, size) == [] <==> ids == []
  {
  }

  /** lfoc_gen */
  method LfocGen(set_: ClusterSet, q: Request) returns (ret: int)
    requires q.Valid() && Fits(q)
    modifies set_
    ensures ret == if All(q.apps, Unknown) != [] then -EINVAL else 0
    ensures ret != 0 ==> set_.clusters == []
    ensures ret == 0 ==> set_.clusters == q.Clusters() && Partitions(set_.clusters, |q.apps|)
    ensures ret == 0 && q.Sens() == [] ==> set_.clusters == [Cluster(q.nrWays, Upto(|q.apps|))] && set_.defaultCluster == 0
    ensures ret == 0 && q.Sens() != [] ==>
              set_.defaultCluster == if q.Strm() == [] then SensitiveDefault(q.mode, q.SensCurves(), q.nrWays, q.ReservedWays()) else |q.Sensitives()| + |q.Streamings()| - 1
  {
    hide Of;
    hide StreamingClusters;
    hide SensitiveClusters;
    hide Reserved;
    hide SensitiveDefault;
    hide Partitions;
    set_.Init();
    var sensitive := Classify(q.apps, Sensitive);
    var light := Classify(q.apps, Light);
    var streaming := Classify(q.apps, Streaming);
    var unknown := Classify(q.apps, Unknown);
    if unknown != [] {
      return -EINVAL;
    }
    LfocPartitions(q);
    ret := 0;
    if sensitive == [] {
      set_.TrivialPart(|q.apps|, q.nrWays);
      return;
    }
    var reserved := Reserved(|streaming|, q.maxStreaming, q.size);
    set_.defaultCluster := SensitiveStage(set_, q.mode, sensitive, q.SensCurves(), q.nrWays, reserved);
    if streaming != [] {
      ReservedBounds(|streaming|, q.maxStreaming, q.size);
      StreamingStage(set_, streaming, reserved, q.size);
    }
    if light != [] {
      AddCluster(set_, q.nrWays, light);
    }
  }
}

/**
 * Cluster sets, and the two simplest ways to fill one: trivial_part and equal_part.
 * Applications are known by their position in the list handed to the algorithms.
 */
module ClusterSets {
  import opened Arithmetic
  import opened Sequences
  import opened Ucp

  const MAX_CLUSTERS: nat := 16

  datatype Cluster = Cluster(nrWays: int, apps: seq<nat>)

  /** The members of all clusters, cluster by cluster. */
  function Members(cs: seq<Cluster>): seq<nat> {
    if cs == [] then [] else cs[0].apps + Members(cs[1..])
  }

  function Ways(cs: seq<Cluster>): (r: seq<int>)
    ensures |r| == |cs| && forall i | 0 <= i < |r| :: r[i] == cs[i].nrWays
  {
    seq(|cs|, i requires 0 <= i < |cs| => cs[i].nrWays)
  }

  lemma MembersConcat(cs: seq<Cluster>, ds: seq<Cluster>)
    ensures Members(cs + ds) == Members(cs) + Members(ds)
  {
    if cs == [] {
      assert cs + ds == ds;
    } else {
      assert (cs + ds)[0] == cs[0] && (cs + ds)[1..] == cs[1..] + ds;
      MembersConcat(cs[1..], ds);
    }
  }

  /** Every application below n is in exactly one cluster, once. */
  ghost predicate Partitions(cs: seq<Cluster>, n: nat) {
    NoDuplicates(Members(cs)) && forall a: nat :: a in Members(cs) <==> a < n
  }

  predicate InCluster(cs: seq<Cluster>, c: nat, a: nat) {
    c < |cs| && a in cs[c].apps
  }

  ghost predicate Covered(cs: seq<Cluster>, a: nat) {
    exists c: nat :: InCluster(cs, c, a)
  }

  lemma {:induction false} MemberOfOne(cs: seq<Cluster>, a: nat)
    ensures a in Members(cs) <==> Covered(cs, a)
  {
    if cs != [] {
      MemberOfOne(cs[1..], a);
      if a in cs[0].apps {
        assert InCluster(cs, 0, a);
      }
      if a in Members(cs[1..]) {
        var c: nat :| InCluster(cs[1..], c, a);
        assert InCluster(cs, c + 1, a);
      }
      if c: nat :| InCluster(cs, c, a) {
        assert c > 0 ==> InCluster(cs[1..], c - 1, a);
      }
    }
  }

  /** What Partitions means for the clusters one by one. */
  lemma OneClusterEach(cs: seq<Cluster>, n: nat)
    requires Partitions(cs, n)
    ensures forall a: nat :: a < n <==> Covered(cs, a)
    ensures forall c: nat, d: nat, a: nat | InCluster(cs, c, a) && InCluster(cs, d, a) :: c == d
    ensures forall c | 0 <= c < |cs| :: NoDuplicates(cs[c].apps)
  {
    forall a: nat ensures a < n <==> Covered(cs, a) {
      MemberOfOne(cs, a);
    }
    DistinctClusters(cs);
  }

  lemma {:induction false} DistinctClusters(cs: seq<Cluster>)
    requires NoDuplicates(Members(cs))
    ensures forall c, d, a | 0 <= c < d < |cs| && a in cs[c].apps :: a !in cs[d].apps
    ensures forall c | 0 <= c < |cs| :: NoDuplicates(cs[c].apps)
  {
    if cs != [] {
      NoDuplicatesConcat(cs[0].apps, Members(cs[1..]));
      DistinctClusters(cs[1..]);
      forall c, d, a | 0 <= c < d < |cs| && a in cs[c].apps ensures a !in cs[d].apps {
        if c == 0 {
          if a in cs[d].apps {
            assert InCluster(cs[1..], d - 1, a);
            MemberOfOne(cs[1..], a);
          }
        } else {
          assert a in cs[1..][c - 1].apps && cs[d] == cs[1..][d - 1];
        }
      }
      forall c | 0 <= c < |cs| ensures NoDuplicates(cs[c].apps) {
        assert c > 0 ==> cs[c] == cs[1..][c - 1];
      }
    }
  }

  /** A cluster for each of these applications. */
  function Singles(ids: seq<nat>, shares: seq<int>): (r: seq<Cluster>)
    requires |shares| == |ids|
    ensures |r| == |ids| && forall i | 0 <= i < |r| :: r[i] == Cluster(shares[i], [ids[i]])
  {
    seq(|ids|, i requires 0 <= i < |ids| => Cluster(shares[i], [ids[i]]))
  }

  lemma {:induction false} SinglesMembers(ids: seq<nat>, shares: seq<int>)
    requires |shares| == |ids|
    ensures Members(Singles(ids, shares)) == ids && Ways(Singles(ids, shares)) == shares
  {
    var cs := Singles(ids, shares);
    if ids == [] {
      assert cs == [];
    } else {
      SinglesMembers(ids[1..], shares[1..]);
      assert cs[1..] == Singles(ids[1..], shares[1..]);
      assert ids == [ids[0]] + ids[1..];
    }
  }

  /** What each of n applications gets when each in turn takes its share of what is left, rounded up. */
  function EqualShares(ways: int, n: nat): (r: seq<int>)
    ensures |r| == n
    decreases n
  {
    if n == 0 then []
    else
      var fair := TruncDiv(ways + (n - 1), n);
      [fair] + EqualShares(ways - fair, n - 1)
  }

  /** Rounding up in turn gives the first applications one way more, until the remainder is used up. */
  lemma {:induction false} SharesAreFair(ways: nat, n: nat)
    requires n > 0
    ensures forall i | 0 <= i < n :: EqualShares(ways, n)[i] == ways / n + if i < ways % n then 1 else 0
    ensures Sum(EqualShares(ways, n)) == ways
    decreases n
  {
    DivMod(ways, n);
    DivNonNegative(ways, n);
    SharesFrom(ways / n, ways % n, n);
  }

  lemma {:induction false} SharesFrom(q: nat, r: nat, n: nat)
    requires r < n
    ensures var s := EqualShares(q * n + r, n);
            Sum(s) == q * n + r && forall i | 0 <= i < n :: s[i] == q + if i < r then 1 else 0
    decreases n
  {
    hide Sum;
    var fair, ways := q + (if r == 0 then 0 else 1), q * n + r;
    FirstShare(q, r, n);
    var rest := EqualShares(ways - fair, n - 1);
    var s := EqualShares(ways, n);
    assert s == [fair] + rest;
    SumAppend([fair], rest);
    SumConstant([fair], fair);
    if n == 1 {
      SumConstant(rest, 0);
    } else {
      MulNonNegative(q, n - 1);
      SharesFrom(q, if r == 0 then 0 else r - 1, n - 1);
    }
  }

  lemma FirstShare(q: nat, r: nat, n: nat)
    requires r < n
    ensures var fair := q + if r == 0 then 0 else 1;
            && q * n + r >= fair - 1 + r && TruncDiv(q * n + r + (n - 1), n) == fair
            && q * n + r - fair == q * (n - 1) + if r == 0 then 0 else r - 1
  {
    hide TruncDiv;
    MulNonNegative(q, n);
    MulSub(n, 1, q);
    RoundedUp(q, r, n, q * n);
  }

  lemma RoundedUp(q: nat, r: nat, n: nat, x: nat)
    requires r < n && x == q * n
    ensures TruncDiv(x + r + (n - 1), n) == q + if r == 0 then 0 else 1
  {
    hide TruncDiv;
    var a := x + r + (n - 1);
    DividedAsIs(a, n);
    MulSub(q + 1, q, n);
    if r == 0 {
      QuotientUnique(a, n, q);
    } else {
      MulSub(q + 2, q + 1, n);
      QuotientUnique(a, n, q + 1);
    }
  }

  lemma DividedAsIs(a: nat, n: nat)
    requires n > 0
    ensures TruncDiv(a, n) == a / n
  {
  }

  function Upto(n: nat): (r: seq<nat>)
    ensures |r| == n && forall i | 0 <= i < n :: r[i] == i
  {
    seq(n, i => i)
  }

  lemma {:induction false} UptoPartitions(cs: seq<Cluster>, n: nat)
    requires Members(cs) == Upto(n)
    ensures Partitions(cs, n)
  {
    forall a: nat ensures a in Members(cs) <==> a < n {
      if a < n {
        assert Upto(n)[a] == a;
      }
    }
  }

  /** cluster_set_t, with the clusters in the order in which they were taken from the pool. */
  class ClusterSet {
    var clusters: seq<Cluster>
    var defaultCluster: int

    constructor ()
      ensures clusters == [] && defaultCluster == 0
    {
      clusters, defaultCluster := [], 0;
    }

    // init_cluster_set
    method Init()
      modifies this
      ensures clusters == [] && defaultCluster == 0
    {
      clusters, defaultCluster := [], 0;
    }

    /** allocate_new_cluster, where -1 stands for a null pointer. */
    method AllocateNewCluster() returns (idx: int)
      modifies this`clusters
      ensures |old(clusters)| >= MAX_CLUSTERS ==> idx == -1 && clusters == old(clusters)
      ensures |old(clusters)| < MAX_CLUSTERS ==> idx == |old(clusters)| && clusters == old(clusters) + [Cluster(0, [])]
    {
      if |clusters| >= MAX_CLUSTERS {
        return -1;
      }
      idx := |clusters|;
      clusters := clusters + [Cluster(0, [])];
    }

    method SetWays(idx: nat, nrWays: int)
      requires idx < |clusters|
      modifies this`clusters
      ensures clusters == old(clusters)[idx := old(clusters[idx]).(nrWays := nrWays)]
    {
      clusters := clusters[idx := clusters[idx].(nrWays := nrWays)];
    }

    // add_app_to_cluster
    method AddApp(idx: nat, app: nat)
      requires idx < |clusters|
      modifies this`clusters
      ensures clusters == old(clusters)[idx := old(clusters[idx]).(apps := old(clusters[idx]).apps + [app])]
    {
      clusters := clusters[idx := clusters[idx].(apps := clusters[idx].apps + [app])];
    }

    // The loops that put a list of applications into the cluster allocated last.
    method AddAll(apps: seq<nat>)
      requires clusters != []
      modifies this`clusters
      ensures var last := old(clusters[|clusters| - 1]);
              clusters == old(clusters)[|old(clusters)| - 1 := last.(apps := last.apps + apps)]
    {
      ghost var before, last := clusters, clusters[|clusters| - 1];
      assert last.apps + apps[..0] == last.apps;
      for i := 0 to |apps|
        invariant clusters == before[|before| - 1 := last.(apps := last.apps + apps[..i])]
      {
        assert last.apps + apps[..i + 1] == last.apps + apps[..i] + [apps[i]];
        AddApp(|clusters| - 1, apps[i]);
      }
      assert apps[..|apps|] == apps;
    }

    /** trivial_part */
    method TrivialPart(nrApps: nat, nrWays: int)
      modifies this
      ensures clusters == [Cluster(nrWays, Upto(nrApps))] && defaultCluster == 0 && Partitions(clusters, nrApps)
    {
      Init();
      var cur := AllocateNewCluster();
      SetWays(cur, nrWays);
      AddAll(Upto(nrApps));
      assert [] + Upto(nrApps) == Upto(nrApps);
      assert clusters == [Cluster(nrWays, Upto(nrApps))];
      assert clusters[1..] == [] && Upto(nrApps) + [] == Upto(nrApps);
      UptoPartitions(clusters, nrApps);
    }

    /** The loop of equal_part, which also shares out the ways of lfoc_gen's mode for even shares. */
    method ShareEqually(ids: seq<nat>, ways: int)
      requires |clusters| + |ids| <= MAX_CLUSTERS
      modifies this`clusters
      ensures clusters == old(clusters) + Singles(ids, EqualShares(ways, |ids|))
    {
      var remainingWays, nrRemainingApps := ways, |ids|;
      ghost var before, shares := clusters, EqualShares(ways, |ids|);
      assert before + Singles(ids[..0], shares[..0]) == before;
      for i := 0 to |ids|
        invariant nrRemainingApps == |ids| - i && shares[i..] == EqualShares(remainingWays, nrRemainingApps)
        invariant clusters == before + Singles(ids[..i], shares[..i])
      {
        var nrFairWays := TruncDiv(remainingWays + (nrRemainingApps - 1), nrRemainingApps);
        assert shares[i] == nrFairWays && shares[i + 1..] == shares[i..][1..];
        var cur := AllocateNewCluster();
        SetWays(cur, nrFairWays);
        AddApp(cur, ids[i]);
        assert [] + [ids[i]] == [ids[i]];
        assert Singles(ids[..i + 1], shares[..i + 1]) == Singles(ids[..i], shares[..i]) + [Cluster(nrFairWays, [ids[i]])];
        remainingWays := remainingWays - nrFairWays;
        nrRemainingApps := nrRemainingApps - 1;
      }
      assert ids[..|ids|] == ids && shares[..|ids|] == shares;
    }

    /**
     * equal_part: one cluster per application when the ways can be split, with all ways
     * handed out in shares that differ by at most one and never grow along the list.
     */
    method EqualPart(nrApps: nat, nrWays: int)
      requires nrApps <= nrWays ==> nrApps <= MAX_CLUSTERS
      modifies this
      ensures Partitions(clusters, nrApps) && defaultCluster == 0
      ensures nrApps > nrWays ==> |clusters| == 1 && clusters[0].nrWays == nrWays
      ensures nrApps <= nrWays ==> |clusters| == nrApps && forall i: nat | i < nrApps :: clusters[i].apps == [i]
      ensures 0 < nrApps <= nrWays ==> Sum(Ways(clusters)) == nrWays
      ensures 0 < nrApps <= nrWays ==> forall i | 0 <= i < nrApps ::
                clusters[i].nrWays == nrWays / nrApps + if i < nrWays % nrApps then 1 else 0
    {
      if nrApps > nrWays {
        TrivialPart(nrApps, nrWays);
        return;
      }
      Init();
      ShareEqually(Upto(nrApps), nrWays);
      ghost var shares := EqualShares(nrWays, nrApps);
      assert clusters == Singles(Upto(nrApps), shares);
      SinglesMembers(Upto(nrApps), shares);
      UptoPartitions(clusters, nrApps);
      if nrApps > 0 {
        SharesAreFair(nrWays, nrApps);
        forall i | 0 <= i < nrApps ensures clusters[i].nrWays == nrWays / nrApps + if i < nrWays % nrApps then 1 else 0 {
          assert clusters[i].nrWays == shares[i];
        }
      }
    }
  }
}

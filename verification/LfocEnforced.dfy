/**
 * From clustering to registers: the clusters that lfoc_gen and equal_part produce are such
 * that enforce_cluster_partitioning can place them, without running below the first way.
 */
module LfocEnforced {
  import opened ClusterSets
  import opened Enforce
  import opened Lfoc
  import opened Sequences
  import opened Ucp
  import opened UcpTheorems

  lemma {:induction false} TakenConcat(cs: seq<Cluster>, ds: seq<Cluster>, length: nat)
    ensures Taken(cs + ds, length) == Taken(cs, length) + Taken(ds, length)
  {
    if ds == [] {
      assert cs + ds == cs;
    } else {
      var n := |ds| - 1;
      assert (cs + ds)[..|cs + ds| - 1] == cs + ds[..n];
      TakenConcat(cs, ds[..n], length);
    }
  }

  lemma {:induction false} TakenBounded(cs: seq<Cluster>, length: nat)
    requires forall i | 0 <= i < |cs| :: cs[i].nrWays >= 0
    ensures Taken(cs, length) <= Sum(Ways(cs))
  {
    if cs != [] {
      var n := |cs| - 1;
      TakenBounded(cs[..n], length);
      assert Ways(cs) == Ways(cs[..n]) + [cs[n].nrWays];
      SumAppend(Ways(cs[..n]), [cs[n].nrWays]);
      OneWay([cs[n].nrWays], cs[n].nrWays);
    }
  }

  /** Each cluster has ways and applications. */
  ghost predicate Proper(cs: seq<Cluster>) {
    forall i | 0 <= i < |cs| :: cs[i].nrWays >= 1 && cs[i].apps != []
  }

  /** With enough ways for them, no cluster of a sensitive application is without ways. */
  lemma SensitivesProper(mode: Mode, ids: seq<nat>, curves: seq<Curve>, nrWays: int, reserved: nat)
    requires |curves| == |ids| > 0 && (mode == Legacy ==> AllWellFormed(curves)) && |ids| <= nrWays - reserved
    ensures Proper(SensitiveClusters(mode, ids, curves, nrWays, reserved))
  {
    hide Lookahead;
    hide EqualShares;
    var ways := nrWays - reserved;
    if mode == EvenSensitive {
      EvenPositive(ways, |curves|);
    } else if |curves| > 1 && mode == Legacy {
      LookaheadConserves(curves, ways);
    }
  }

  lemma EvenPositive(ways: nat, n: nat)
    requires 0 < n <= ways
    ensures forall i | 0 <= i < n :: EqualShares(ways, n)[i] >= 1
  {
    SharesAreFair(ways, n);
    assert ways / n >= 1;
  }

  /** The clusters of lfoc_gen fit the cache, each has ways and applications, and every application is in one of them. */
  lemma LfocIsPlaceable(q: Request)
    requires q.Valid() && All(q.apps, Unknown) == [] && q.Sens() != [] && |q.Sens()| <= q.nrWays - q.ReservedWays()
    ensures Placeable(q.Clusters(), q.nrWays) && Proper(q.Clusters()) && Partitions(q.Clusters(), |q.apps|)
  {
    hide *;
    LfocPartitions(q);
    LfocWays(q);
    var light := LightClusters(All(q.apps, Light), q.nrWays);
    Assembled(q, light);
    StreamingsProper(q);
    LightTakesNone(All(q.apps, Light), q.nrWays);
    Combined(q.Sensitives(), q.Streamings(), light, q.nrWays);
  }

  lemma Combined(a: seq<Cluster>, b: seq<Cluster>, c: seq<Cluster>, length: nat)
    requires Proper(a) && Proper(b) && Proper(c)
    requires Sum(Ways(a)) + Sum(Ways(b)) <= length && Taken(c, length) == 0
    ensures Proper(a + b + c) && Placeable(a + b + c, length)
  {
    hide Sum;
    hide Taken;
    TakenConcat(a + b, c, length);
    TakenConcat(a, b, length);
    TakenBounded(a, length);
    TakenBounded(b, length);
  }

  lemma Assembled(q: Request, light: seq<Cluster>)
    requires q.Valid() && q.Sens() != [] && light == LightClusters(All(q.apps, Light), q.nrWays)
    requires |q.Sens()| <= q.nrWays - q.ReservedWays()
    ensures q.Clusters() == q.Sensitives() + q.Streamings() + light && Proper(q.Sensitives()) && |q.Sens()| > 0
  {
    hide Proper;
    hide SensitiveClusters;
    SensitivesProper(q.mode, q.Sens(), q.SensCurves(), q.nrWays, q.ReservedWays());
  }

  lemma StreamingsProper(q: Request)
    requires q.Valid()
    ensures Proper(q.Streamings())
  {
    hide Of;
    if q.Strm() != [] {
      ReservedBounds(|q.Strm()|, q.maxStreaming, q.size);
    }
  }

  lemma LightTakesNone(ids: seq<nat>, nrWays: nat)
    requires nrWays >= 1
    ensures Taken(LightClusters(ids, nrWays), nrWays) == 0 && Proper(LightClusters(ids, nrWays))
  {
  }

  /**
   * With lookahead for several sensitive applications, the clusters fit the cache exactly when
   * the ways not reserved suffice for them, or the streaming clusters leave enough of what was.
   */
  lemma LookaheadPlaceableExactly(q: Request)
    requires q.Valid() && q.mode == Legacy && 2 <= |q.Sens()| <= q.nrWays && q.size < q.nrWays
    ensures Placeable(q.Clusters(), q.nrWays)
            <==> |q.Sens()| <= q.nrWays - q.ReservedWays() || |q.Sens()| + |q.Streamings()| * q.size <= q.nrWays
  {
    var light, rest := LightClusters(All(q.apps, Light), q.nrWays), q.nrWays - q.ReservedWays();
    LfocWays(q);
    LightTakesNone(All(q.apps, Light), q.nrWays);
    StreamingsTake(q);
    StreamingsProper(q);
    AllTogether(q, light);
    hide *;
    if |q.Sens()| <= rest {
      SensitivesProperOf(q);
      Combined(q.Sensitives(), q.Streamings(), light, q.nrWays);
    } else {
      OneWayEach(q);
      TakenConcat(q.Sensitives() + q.Streamings(), light, q.nrWays);
      TakenConcat(q.Sensitives(), q.Streamings(), q.nrWays);
      ProperConcat(q.Sensitives(), q.Streamings(), light);
      ProperPlaceable(q.Clusters(), q.nrWays);
    }
  }

  lemma AllTogether(q: Request, light: seq<Cluster>)
    requires q.Valid() && q.Sens() != [] && light == LightClusters(All(q.apps, Light), q.nrWays)
    ensures q.Clusters() == q.Sensitives() + q.Streamings() + light
  {
  }

  lemma SensitivesProperOf(q: Request)
    requires q.Valid() && q.Sens() != [] && |q.Sens()| <= q.nrWays - q.ReservedWays()
    ensures Proper(q.Sensitives())
  {
    SensitivesProper(q.mode, q.Sens(), q.SensCurves(), q.nrWays, q.ReservedWays());
  }

  lemma {:induction false} TakenConstant(cs: seq<Cluster>, ways: int, length: nat)
    requires ways != length && forall i | 0 <= i < |cs| :: cs[i].nrWays == ways
    ensures Taken(cs, length) == |cs| * ways
  {
    if cs != [] {
      var n := |cs| - 1;
      TakenConstant(cs[..n], ways, length);
      assert |cs| * ways == n * ways + ways;
    }
  }

  lemma StreamingsTake(q: Request)
    requires q.Valid() && q.size < q.nrWays
    ensures Taken(q.Streamings(), q.nrWays) == |q.Streamings()| * q.size
  {
    if q.Strm() != [] {
      ReservedBounds(|q.Strm()|, q.maxStreaming, q.size);
    }
    TakenConstant(q.Streamings(), q.size, q.nrWays);
  }

  lemma OnesWhenShort(ids: seq<nat>, curves: seq<Curve>, nrWays: int, reserved: nat)
    requires 2 <= |curves| == |ids| <= nrWays && nrWays - reserved < |ids| && AllWellFormed(curves)
    ensures SensitiveClusters(Legacy, ids, curves, nrWays, reserved) == Singles(ids, Ones(|ids|))
  {
    hide Lookahead;
    LookaheadConserves(curves, nrWays - reserved);
  }

  lemma OneWayEach(q: Request)
    requires q.Valid() && q.mode == Legacy && 2 <= |q.Sens()| <= q.nrWays && |q.Sens()| > q.nrWays - q.ReservedWays()
    ensures Proper(q.Sensitives()) && Taken(q.Sensitives(), q.nrWays) == |q.Sens()|
  {
    hide SensitiveClusters;
    hide Taken;
    hide AllWellFormed;
    OnesWhenShort(q.Sens(), q.SensCurves(), q.nrWays, q.ReservedWays());
    TakenConstant(q.Sensitives(), 1, q.nrWays);
  }

  lemma ProperConcat(a: seq<Cluster>, b: seq<Cluster>, c: seq<Cluster>)
    requires Proper(a) && Proper(b) && Proper(c)
    ensures Proper(a + b + c)
  {
  }

  lemma ProperPlaceable(cs: seq<Cluster>, length: nat)
    requires Proper(cs)
    ensures Placeable(cs, length) <==> Taken(cs, length) <= length
  {
  }

  /** Eleven ways, eight sensitive applications and five streaming ones at a way each: three streaming clusters leave room. */
  lemma RoomForEight(q: Request)
    requires q.Valid() && q.mode == Legacy && q.nrWays == 11 && q.maxStreaming == q.size == 1
    requires |q.Sens()| == 8 && |q.Strm()| == 5
    ensures q.ReservedWays() == 4 && Placeable(q.Clusters(), 11)
  {
    PositionsNotSet(q.Strm());
    LookaheadPlaceableExactly(q);
  }

  /** So do the clusters of equal_part, when the ways can be split. */
  lemma EqualPartIsPlaceable(nrApps: nat, nrWays: nat)
    requires 0 < nrApps <= nrWays
    ensures var cs := Singles(Upto(nrApps), EqualShares(nrWays, nrApps));
            Placeable(cs, nrWays) && Proper(cs) && Partitions(cs, nrApps)
  {
    var cs := Singles(Upto(nrApps), EqualShares(nrWays, nrApps));
    EvenPositive(nrWays, nrApps);
    SharesAreFair(nrWays, nrApps);
    SinglesMembers(Upto(nrApps), EqualShares(nrWays, nrApps));
    UptoPartitions(cs, nrApps);
    TakenBounded(cs, nrWays);
  }
}

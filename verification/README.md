# PMCTrack: cache partitioning, counter accounting and kernel tables

A Dafny model of the self-contained parts of the PMCTrack kernel module: the algorithms
that divide the ways of the last-level cache among applications, the partitions they are
enforced with, and the small stateful structures around performance counters, energy
readings, monitoring ids and scheduling groups.

`dafny verify dfyconfig.toml` checks the whole project.

## How the model is laid out

| module | models |
|---|---|
| `Ucp`, `UcpTheorems` | the lookahead algorithm, for arrays and for lists: what a round does, conservation, savings, and optimality on convex curves |
| `UcpFairness` | `ucp_unfairness`: way stealing after lookahead |
| `CombinedCurve`, `PairDistance`, `PairClustering`, `PairSearch` | combining two applications in one partition, the distance between two applications, the search over clusterings, and what the search does without the functions that compute it |
| `ClusterSets`, `Lfoc` | cluster sets, `trivial_part`, `equal_part`, and `lfoc_gen` |
| `PartitionSet` | the set of partitions that tile the cache, with insertion and removal |
| `Enforce`, `LfocEnforced` | `enforce_cluster_partitioning` with the operations that do not resize, down to the capacity registers, and its composition with `lfoc_gen` and `equal_part` |
| `CBuffer` | the circular byte buffer and its chunk iterator |
| `CounterRuns`, `CoreExperiment` | runs of events, overflow interrupts and reads of the performance counters; setting the counters up, reading them, and the overflow handler, each of whose methods does one step of those runs |
| `Rapl`, `Bandwidth` | energy and bandwidth accounting across register wraps |
| `RmidPool` | the reference-counted pool of monitoring ids |
| `PhaseTable` | the bounded table of program phases |
| `GroupPlugin` | active threads and applications of each scheduling group |
| `Arithmetic`, `Sequences`, `Masks`, `Constants` | facts about quotients, sequences, and the bits of masks; limits that several parts share |

Code that changes objects or arrays in place is modelled by classes and methods. Each method
is proved against a function of its inputs or of the old state, and the theorems are about
those functions, or are invariants that every method keeps, so that they hold over every run.
The main algorithms are also characterised without these functions: lookahead, way stealing and
the search over clusterings each end where the only run does whose steps are the ones a relation
on states allows, and the walk of a combined curve and the sharing of extra ways among partitions
are the only ones that satisfy theirs.
The parts of the list structures that matter are sequences of entries. Capacity masks are
numbers whose bits `Masks.Bit` reads, and the capacity registers are a map from classes of
service to masks. Random numbers, the contents of hardware registers, the identity of the
current group, and the state of the current task are parameters. A locked section is one step.

Truncating division of C is `Ucp.TruncDiv`; 32-bit and 64-bit accumulations, the counter
width, and the `short` fields of combined curves are reduced explicitly.

## What the proofs found

- `pair_clustering_core` returns clusters whose `nr_apps` is twice their number of
  applications: the count is copied, and every insertion adds to it again
  (`src/modules/pmcs/cache_partitioning.c:960-963`; `PairClustering.HandOver`).
- `lfoc_gen` records a position for each streaming cluster it creates, but goes on as if
  there were one for each streaming partition. Rounding up can leave fewer clusters, and then
  the last positions are never set. `Lfoc.PositionsSet` says exactly when, and
  `Lfoc.PositionsNotSet` gives an input.
- `lfoc_gen` only falls back to one cluster when the sensitive applications outnumber all
  ways. When they outnumber only the ways that are not reserved, lookahead hands out one way
  each, which is more than those (`Lfoc.SensitiveTakeRest`; `Lfoc.TooManyWays` gives an input).
  The clusters can still be placed exactly when the streaming clusters leave enough
  (`LfocEnforced.LookaheadPlaceableExactly`, `LfocEnforced.RoomForEight`).
- The number of streaming partitions that `lfoc_gen` divides by is positive exactly for
  partitions of at most four ways (`Lfoc.PartsExist`).
- The slowdowns kept for a pair are those of its members exactly when both fit a `short`
  (`CombinedCurve.StoredSlowdownsExact`).
- A batch removal can leave the head of a circular buffer at `max_size`, which the header
  excludes (`CBuffer.HeadMayReachEnd`). The single-byte operations and the iterator rely on it.
- The samples of a counter add up to its events exactly when every wrap is delivered before
  the next wrap and before the next read (`CounterRuns.SamplesAddUp`). The threshold of
  event-based sampling is recovered from the reset value exactly when it fits the counter
  (`CounterRuns.ThresholdRecovered`), and a reset value of zero loses a whole period whenever
  the counter fires (`CounterRuns.SamplesAreExact`).
- `on_migrate_thread_group` makes a thread active that is not runnable, if it is called for
  one (`GroupPlugin.Scheduler.OnMigrateThread` says exactly when, and
  `GroupPlugin.IdleThreadActivated` does it).
- `create_phase_table` accepts up to 64 phases, but shifts an `int`. With the shift count
  taken modulo 32, the bitmap is right exactly for fewer than 32 phases and for 64
  (`PhaseTable.BitmapIsRight`); a table of 32 starts with no free node (`PhaseTable.NoFreeNodeOf32`).
  The other operations reach the bit of a node exactly for the first 31 nodes (`PhaseTable.NodeMask`).

## Model

| member | source | states |
|---|---|---|
| Ucp.MarginalUtilityMeaning | src/modules/pmcs/cache_partitioning.c:178-181 | a utility is positive exactly when at least one miss is saved per extra way, and is then the floor of the saving per way |
| Ucp.GetMaxMu | src/modules/pmcs/cache_partitioning.c:185-220 | the first step of the greatest positive utility among those that can be afforded, with the misses it leads to, also past the end of a partial curve |
| Ucp.BestStepStaysMeasured | src/modules/pmcs/cache_partitioning.c:185-220 | a useful step never goes past the measured part of a curve |
| Ucp.SelectApp | src/modules/pmcs/cache_partitioning.c:332-352 | the first application whose best step is the most useful of all |
| Ucp.LookaheadArray | src/modules/pmcs/cache_partitioning.c:316-384 | the array version fills in exactly the lookahead allocation and nothing beyond it |
| Ucp.LookaheadList | src/modules/pmcs/cache_partitioning.c:222-313 | so does the list version, for applications and for clusters, except that a single node gets all ways at once |
| UcpTheorems.ListAgreesWithArray | src/modules/pmcs/cache_partitioning.c:230-234 | the shortcut of the list version changes the result only for one application and no way to give |
| UcpTheorems.LookaheadConserves | src/modules/pmcs/cache_partitioning.c:316-384 | for arbitrary curves everybody gets a way, and the shares add up to all ways if and only if there is a way for each |
| UcpTheorems.RoundIsGreedy | src/modules/pmcs/cache_partitioning.c:330-362 | a round applies the feasible step of the greatest utility over all applications, the first one in scan order, or changes nothing because no feasible step is useful |
| UcpTheorems.RunEndsGreedy | src/modules/pmcs/cache_partitioning.c:330-362 | for arbitrary curves every run of first best steps that ends when no affordable step is useful ends in the same allocation, that of the greedy phase |
| UcpTheorems.RoundsAreGreedy | src/modules/pmcs/cache_partitioning.c:330-362 | the rounds of the greedy phase are such a run |
| UcpTheorems.FairSpreadUnique | src/modules/pmcs/cache_partitioning.c:364-383 | there is one way to hand out what is left so that gains differ by one at most and earlier applications gain more |
| UcpTheorems.LookaheadIsGreedy | src/modules/pmcs/cache_partitioning.c:316-384 | for arbitrary curves an allocation is lookahead's if and only if it is a fair spread of what a greedy run from one way each leaves |
| UcpTheorems.GreedySaves | src/modules/pmcs/cache_partitioning.c:330-362 | for arbitrary curves each way handed out by the greedy phase saves at least one miss in total |
| UcpTheorems.SpreadConserves | src/modules/pmcs/cache_partitioning.c:364-383 | the closing loop hands out all ways that are left |
| UcpTheorems.ConvexRound | src/modules/pmcs/cache_partitioning.c:330-362 | on convex curves a round gives one way, to an application with the greatest next drop, unless no curve drops any more |
| UcpTheorems.PricedIsOptimal | src/modules/pmcs/cache_partitioning.c:316-384 | an allocation whose last drops are all worth a price that no next drop exceeds is optimal at that price |
| UcpTheorems.LookaheadOptimal | src/modules/pmcs/cache_partitioning.c:316-384 | on convex non-increasing curves no allocation of the same ways with at least one each costs less than lookahead's |
| UcpFairness.CostWayStealing | src/modules/pmcs/cache_partitioning.c:386-437 | in terms of curves and ways: the first of the donors that make the two slowdowns grow least, among all others that have not received, have two ways and would not end up worse off; and none only if every donation costs the greatest integer or more |
| UcpFairness.DonorMeaning | src/modules/pmcs/cache_partitioning.c:415-431 | who may give a way, and what it costs, in terms of curves and ways |
| UcpFairness.UcpUnfairness | src/modules/pmcs/cache_partitioning.c:439-487 | the result is the lookahead allocation after at most one round of stealing per application |
| UcpFairness.StealingConserves | src/modules/pmcs/cache_partitioning.c:439-487 | stealing keeps the sum of the ways and leaves nobody without one |
| UcpFairness.StealingKeepsBound | src/modules/pmcs/cache_partitioning.c:439-487 | on non-increasing curves every bound on the slowdowns before is one after |
| UcpFairness.StealingCostsLittle | src/modules/pmcs/cache_partitioning.c:439-487 | the total slowdown grows by at most 70 per round |
| UcpFairness.StealingIsOrderly | src/modules/pmcs/cache_partitioning.c:439-487 | the final ways are explained by a log of transfers in which nobody receives twice or gives after receiving |
| UcpFairness.ReceivedAtMostOnce | src/modules/pmcs/cache_partitioning.c:439-487 | in such a log an application receives one way if it is a receiver at all, and none otherwise |
| UcpFairness.FairnessPhase | src/modules/pmcs/cache_partitioning.c:439-487 | the phase as a whole, from the lookahead result: a run of such rounds in which everybody may receive, ways conserved and at most one gained each, orderly transfers, at most 70 per application more in total, and on non-increasing curves no greater maximum |
| UcpFairness.StopsOnlyWhenOver | src/modules/pmcs/cache_partitioning.c:451-486 | fewer transfers than rounds means that the worst-off application has received already, or that every donation to it, in terms of curves and ways, costs more than the threshold |
| UcpFairness.StealMeaning | src/modules/pmcs/cache_partitioning.c:451-486 | a round moves a way from the best donor to the first of the worst-off applications, or changes nothing because the search is over |
| UcpFairness.StealingIsRun | src/modules/pmcs/cache_partitioning.c:439-487 | a state is the result of the phase if and only if a run of such rounds, which ends early only when the search is over, leads to it |
| CombinedCurve.InterpolateBetween | src/modules/pmcs/cache_partitioning.c:495-532 | reading a falling curve between two entries gives a value between them |
| CombinedCurve.DemandRead | src/modules/pmcs/cache_partitioning.c:495-506 | a demand is the measured entry at a whole way, and between two ways their weighted mean, rounded down |
| CombinedCurve.SlowdownRead | src/modules/pmcs/cache_partitioning.c:509-532 | so is a slowdown, which is the last entry from all ways on, and below one way rises as the first two entries say |
| CombinedCurve.CeilingBounds | src/modules/pmcs/cache_partitioning.c:553-559 | the share of a way, rounded up, is at most a whole way and less than one hundredth too large |
| CombinedCurve.ReachedInBounds | src/modules/pmcs/cache_partitioning.c:495-532 | every position reached while splitting reads the curves within their bounds |
| CombinedCurve.Walk | src/modules/pmcs/cache_partitioning.c:537-576 | after k ways each application has at most 100k hundredths, and together they have between 100k and 101k |
| CombinedCurve.SpotProportional | src/modules/pmcs/cache_partitioning.c:553-559 | of each way an application gets the share of its demand at the place reached in both demands, rounded up to the next hundredth |
| CombinedCurve.WalkDetermined | src/modules/pmcs/cache_partitioning.c:553-559 | no other walk does so |
| CombinedCurve.PositiveDemandIsWalkable | src/modules/pmcs/cache_partitioning.c:553-559 | the division by the sum of the demands is defined if one application's demand is positive everywhere |
| CombinedCurve.BuildCombinedCurve | src/modules/pmcs/cache_partitioning.c:537-576 | entry k holds the worse and the sum of the two slowdowns, each read on the application's own curve at its own place after k ways, and the buckets hold both places |
| CombinedCurve.StoredSlowdownsExact | src/modules/pmcs/cache_partitioning.c:537-576 | the slowdowns stored for the members of a pair are the ones computed if and only if both are in the range of `short` |
| CombinedCurve.BucketsExact | src/modules/pmcs/cache_partitioning.c:537-576 | up to eleven ways the splits fit the `short` fields unchanged and add up to the ways within one percent |
| CombinedCurve.CombinedMonotone | src/modules/pmcs/cache_partitioning.c:537-576 | if both slowdown curves never rise, neither do the combined ones |
| PairDistance.SplitInRange | src/modules/pmcs/cache_partitioning.c:601-610 | lookahead between two applications leaves both at least one way, so the curves are read within their bounds |
| PairDistance.CalculateSlowdownDistance | src/modules/pmcs/cache_partitioning.c:583-628 | the distance is what sharing costs over partitioning, accumulated over the ways, and the combined curves are left behind |
| PairDistance.PartitionedMeaning | src/modules/pmcs/cache_partitioning.c:601-610 | from two ways on the partitioned slowdown is the greater of both at their lookahead shares |
| PairDistance.DistanceIsDifference | src/modules/pmcs/cache_partitioning.c:583-628 | the distance is the sum of the combined slowdowns less that of the partitioned ones, so negative if and only if sharing is better in total |
| PairClustering.ClearDistance | src/modules/pmcs/cache_partitioning.c:631-642 | the matrix then holds the distances of the unmerged applications without this one, and infinity elsewhere |
| PairClustering.FindClosest | src/modules/pmcs/cache_partitioning.c:883-895 | the least finite distance of an application and the first partner at that distance |
| PairClustering.ClosestIsUnmerged | src/modules/pmcs/cache_partitioning.c:883-924 | a finite distance names two distinct applications neither of which has been merged |
| PairClustering.BuildNewSolution | src/modules/pmcs/cache_partitioning.c:644-666 | the merged pair comes first, then in order the clusters of nobody in the pair |
| PairClustering.MergePartition | src/modules/pmcs/cache_partitioning.c:644-666 | merging two applications that are alone keeps the clusters a partition into clusters of one or two, and leaves everybody else who is alone alone |
| PairClustering.ClusterUcp | src/modules/pmcs/cache_partitioning.c:669-718 | ways by lookahead over the clusters, every application's slowdown, and the unfairness of the solution |
| PairClustering.SlowdownsOnRecord | src/modules/pmcs/cache_partitioning.c:684-718 | the table of slowdowns has every member of every cluster: for one that is alone the value of its curve at the cluster's ways, for a pair the two stored values |
| PairClustering.WaysDivideCache | src/modules/pmcs/cache_partitioning.c:669-683 | every cluster gets at least one way and together they get them all |
| PairClustering.SummaryExtremes | src/modules/pmcs/cache_partitioning.c:684-718 | the recorded extremes bound all slowdowns and are attained |
| PairClustering.GetSortedSlowdowns | src/modules/pmcs/cache_partitioning.c:721-754 | the order in which applications are visited, by repeated selection |
| PairClustering.OrderSorts | src/modules/pmcs/cache_partitioning.c:721-754 | that order lists every application once, by decreasing slowdown and then by position |
| PairClustering.InitialSlowdownsMeaning | src/modules/pmcs/cache_partitioning.c:791-824 | the slowdowns that decide the order are those of the lookahead allocation with everybody alone |
| PairClustering.CompareAll | src/modules/pmcs/cache_partitioning.c:832-857 | the matrix starts with the distance of every pair of applications, in both orders, and infinity elsewhere |
| PairClustering.Explore | src/modules/pmcs/cache_partitioning.c:875-945 | the search loop does what visiting the applications one after the other does, keeping the matrix in step |
| PairClustering.EverybodySettled | src/modules/pmcs/cache_partitioning.c:875-945 | whoever has been visited stays out of the matrix, and explored solutions are never revised |
| PairClustering.HandOver | src/modules/pmcs/cache_partitioning.c:948-966 | the clusters handed over have the ways and applications of the best solution, and a doubled count |
| PairClustering.PairClusteringCore | src/modules/pmcs/cache_partitioning.c:757-968 | the result is the best of the solutions that visiting everybody in order explores |
| PairClustering.SearchGuarantees | src/modules/pmcs/cache_partitioning.c:757-968 | every explored solution partitions the applications and divides the whole cache with a way for each; the result has the least unfairness, the last one on ties; nobody is merged twice; at most one solution per pair is added |
| PairSearch.ComparedMeaning | src/modules/pmcs/cache_partitioning.c:832-857 | a pair keeps the stored slowdowns and the summed curve of its combination, and its distance is the difference of the two sums |
| PairSearch.WaysMeaning | src/modules/pmcs/cache_partitioning.c:669-683 | the ways of a clustering are lookahead's for the summed curves of its pairs and the own curves of the others |
| PairSearch.UnfairnessMeaning | src/modules/pmcs/cache_partitioning.c:684-718 | the unfairness is the ratio, in thousandths and rounded down, of the greatest and the least slowdown of all members |
| PairSearch.OthersInOrder | src/modules/pmcs/cache_partitioning.c:644-666 | the clusters that a merge does not replace keep their order |
| PairSearch.VisitMeaning | src/modules/pmcs/cache_partitioning.c:875-945 | an application that has not been merged joins the first of its closest partners if their distance is negative, and stays alone if no distance is |
| PairSearch.VisitDetermined | src/modules/pmcs/cache_partitioning.c:875-945 | a visit can lead to nothing else |
| PairSearch.SearchIsRun | src/modules/pmcs/cache_partitioning.c:875-945 | a state is the result of the search if and only if such visits of everybody in order lead to it from everybody alone |
| PairSearch.RunSettles | src/modules/pmcs/cache_partitioning.c:875-945 | whoever has been visited and is alone has no negative distance to anybody who is alone |
| PairSearch.SearchMeaning | src/modules/pmcs/cache_partitioning.c:757-968 | the whole search is a run of visits by decreasing slowdown, in whose last clustering no two applications that are alone have a negative distance |
| ClusterSets.OneClusterEach | src/modules/pmcs/cache_partitioning.c:155-159 | what it means to be a partition, cluster by cluster: everybody is in one cluster and in no other, once |
| ClusterSets.SharesAreFair | src/modules/pmcs/cache_partitioning.c:2028-2038 | handing out the rest divided by the number remaining, rounded up, gives floor or floor plus one, the larger shares first, and everything |
| ClusterSets.ClusterSet.AllocateNewCluster | src/modules/pmcs/cache_partitioning.c:143-153 | a new empty cluster at the end, or nothing when the pool is used up |
| ClusterSets.ClusterSet.TrivialPart | src/modules/pmcs/cache_partitioning.c:1991-2004 | one cluster of everybody with all ways |
| ClusterSets.ClusterSet.EqualPart | src/modules/pmcs/cache_partitioning.c:2006-2039 | one cluster per application with floor or ceiling of the average, never growing along the list, adding up to all ways; or one cluster of all when there are too many applications |
| Lfoc.ClassesPartition | src/modules/pmcs/cache_partitioning.c:1578-1605 | without unknown applications the three class lists have each application once |
| Lfoc.OfInOrder | src/modules/pmcs/cache_partitioning.c:1578-1605 | the class lists keep the order of the applications |
| Lfoc.ReservedBounds | src/modules/pmcs/cache_partitioning.c:1626-1640 | between one partition and four ways are reserved for streaming applications |
| Lfoc.ReservedExact | src/modules/pmcs/cache_partitioning.c:1626-1640 | the reservation is the rounded-down share when that is below four, and four if and only if the share reaches it |
| Lfoc.PartsExist | src/modules/pmcs/cache_partitioning.c:1626-1640 | the reserved ways hold at least one streaming partition if and only if a partition has at most four ways |
| Lfoc.StreamingFits | src/modules/pmcs/cache_partitioning.c:1829-1856 | the streaming clusters hold the streaming applications in order and never use more ways than reserved |
| Lfoc.StreamingShape | src/modules/pmcs/cache_partitioning.c:1829-1856 | each streaming cluster but the last has the number of applications that it takes for the partitions to hold all of them, in order, and the last has the rest |
| Lfoc.PositionsSet | src/modules/pmcs/cache_partitioning.c:1829-1856 | there is a streaming cluster for each partition if and only if all but one partition do not suffice for the applications |
| Lfoc.PositionsNotSet | src/modules/pmcs/cache_partitioning.c:1829-1856 | five streaming applications, one per way, leave a position unset |
| Lfoc.SensitiveTakeRest | src/modules/pmcs/cache_partitioning.c:1669-1733 | the sensitive clusters hold the sensitive applications in order; they use exactly the ways not reserved, except that under lookahead two or more that outnumber those ways, but not all ways, get one each, and so more in total |
| Lfoc.TooManyWays | src/modules/pmcs/cache_partitioning.c:1669-1697 | eight sensitive applications, with eleven ways of which four are reserved, get eight ways |
| Lfoc.SensitiveShape | src/modules/pmcs/cache_partitioning.c:1669-1733 | one cluster of all sensitive applications, if that is the mode or they outnumber all ways under lookahead; otherwise one for each, with lookahead's ways or with even ones, the larger first |
| Lfoc.SensitiveDefaultExists | src/modules/pmcs/cache_partitioning.c:1689-1732 | the default cluster exists: the first with the fewest ways under lookahead, the last one in the other modes |
| Lfoc.LfocPartitions | src/modules/pmcs/cache_partitioning.c:1531-1919 | every application is in exactly one cluster |
| Lfoc.LfocWays | src/modules/pmcs/cache_partitioning.c:1626-1856 | the streaming clusters stay within the reserved ways, of which there are at most four, and the sensitive ones divide the others |
| Lfoc.ClustersInOrder | src/modules/pmcs/cache_partitioning.c:1669-1893 | sensitive clusters, then streaming ones, then one with the whole cache for the light applications if there are any |
| Lfoc.LookaheadClusters | src/modules/pmcs/cache_partitioning.c:1677-1697 | a cluster per sensitive application with its lookahead share, and the first with the fewest ways |
| Lfoc.StreamingStage | src/modules/pmcs/cache_partitioning.c:1829-1856 | the streaming clusters are appended, and the last is the default |
| Lfoc.LfocGen | src/modules/pmcs/cache_partitioning.c:1531-1919 | an error exactly for unknown applications; otherwise the sensitive, streaming and light clusters, in this order, and the default cluster |
| Enforce.MasksDisjoint | src/modules/pmcs/cache_partitioning.c:2197-2206 | masks are contiguous and inside the cache, and those of clusters without the whole cache have no way in common |
| Enforce.StackedFromTop | src/modules/pmcs/cache_partitioning.c:2197-2206 | a cluster without the whole cache has its ways right below the last such cluster before it, or at the top, and one with the whole cache starts at way zero |
| Enforce.LastOne | src/modules/pmcs/cache_partitioning.c:2229-2248 | a partition looked at last is kept in its place or goes to the front of the pool |
| Enforce.FirstAvailable | src/modules/pmcs/cache_partitioning.c:2177-2184 | there always is an index in use and not reserved, and the chosen ones are the lowest in use |
| Enforce.Manager.constructor | src/modules/pmcs/cache_part_set.c:88-140 | a pool of one partition per class of service but one, all spare |
| Enforce.Manager.AddApp | src/modules/pmcs/cache_part_set.c:648-665 | the application joins the partition and only that, and its register is brought up to date |
| Enforce.Manager.RemoveApp | src/modules/pmcs/cache_part_set.c:667-677 | the application leaves its partition, and the counts follow |
| Enforce.Manager.ReconfigurePartition | src/modules/pmcs/cache_part_set.c:194-203 | the ways and the mask of a partition, and of its register if asked for |
| Enforce.Manager.RefreshHwPartitionApp | src/modules/pmcs/cache_part_set.c:210-228 | the application's register has its partition's mask, also when the write is skipped; other registers keep theirs |
| Enforce.Manager.Settle | src/modules/pmcs/cache_part_set.c:679-712 | the application is in the partition and runs with its mask; everybody else stays |
| Enforce.Manager.AllocateEmptyPartition | src/modules/pmcs/cache_part_set.c:245-264 | the first spare partition comes into use, last in the list, and its applications are kept |
| Enforce.Manager.DeallocatePartitionNoResize | src/modules/pmcs/cache_part_set.c:409-414 | a partition without applications goes to the front of the pool |
| Enforce.Manager.OnlyMembers | src/modules/pmcs/cache_partitioning.c:2208-2245 | the applications of a chosen partition are those of its cluster, with the right count, and no other partition has any |
| Enforce.Manager.EnforceClusterPartitioning | src/modules/pmcs/cache_partitioning.c:2119-2252 | distinct partitions of the lowest indices, each with its cluster's ways, mask and applications, which run with that mask; the default partition; and the others released to the front of the pool, the last one first, so that as many remain as there are clusters when one of them is the default |
| LfocEnforced.LfocIsPlaceable | src/modules/pmcs/cache_partitioning.c:2197-2206 | when the sensitive applications do not outnumber the ways not reserved, the clusters of lfoc_gen that do not have the whole cache fit below its top, none lacks ways or applications, and every application is in exactly one |
| LfocEnforced.LookaheadPlaceableExactly | src/modules/pmcs/cache_partitioning.c:2197-2206 | under lookahead, with two or more sensitive applications that do not outnumber all ways and streaming partitions smaller than the cache, the clusters fit if and only if there are enough ways not reserved or the streaming clusters leave a way for each |
| LfocEnforced.RoomForEight | src/modules/pmcs/cache_partitioning.c:2197-2206 | eight sensitive and five streaming applications fit eleven ways, although only seven are not reserved |
| LfocEnforced.EqualPartIsPlaceable | src/modules/pmcs/cache_partitioning.c:2197-2206 | the clusters of equal_part fit the cache, none lacks ways or applications, and every application is in exactly one |
| PartitionSet.AllHandedOut | src/modules/pmcs/cache_part_set.c:328-398 | scanning hands out the whole remainder, whatever the neighbours are promised first |
| PartitionSet.NeighboursServed | src/modules/pmcs/cache_part_set.c:487-533 | with at least two extra ways, both neighbours of the change get one |
| PartitionSet.PlanShares | src/modules/pmcs/cache_part_set.c:487-586 | a scan with the right number of ways set aside for the neighbours gives the extra ways to those who should have them |
| PartitionSet.SharingDetermined | src/modules/pmcs/cache_part_set.c:487-586 | these rules leave no choice: two tilings that follow them are the same |
| PartitionSet.SlotsTile | src/modules/pmcs/cache_part_set.c:515-586 | in both directions the scan lays the partitions out as an exact tiling of the cache by fair shares, some with one way more, numbered by position |
| PartitionSet.BouncingWays | src/modules/pmcs/cache_part_set.c:455-459 | as many partitions have an extra way as the remainder of the division |
| PartitionSet.MasksPartitionCache | src/modules/pmcs/cache_part_set.c:515-586 | each way of the cache is in the mask of exactly one partition, and no mask goes beyond the cache |
| PartitionSet.MasksAddUp | src/modules/pmcs/cache_part_set.c:515-586 | the masks of a tiling add up to the full mask |
| PartitionSet.PartSet.constructor | src/modules/pmcs/cache_part_set.c:88-140 | a pool of partitions numbered from class of service 1 on, none assigned |
| PartitionSet.PartSet.SuitablePlace | src/modules/pmcs/cache_part_set.c:153-190 | the first gap between the widest pair of neighbours, or a random inner gap when all are equally wide |
| PartitionSet.PartSet.InsertPartition | src/modules/pmcs/cache_part_set.c:443-596 | the new partition is at the chosen gap without an extra way; at an inner gap both neighbours have one when there are two, and with one the neighbour that the scan meets first has it and nobody else; the rest goes to the others in scan order; and the tiling, the ids, the masks and their registers hold again |
| PartitionSet.PartSet.AllocateNewPartition | src/modules/pmcs/cache_part_set.c:598-614 | the head of the pool is inserted in this way at the hinted gap, or at a suitable one, and everything is kept |
| PartitionSet.PartSet.DeallocatePartition | src/modules/pmcs/cache_part_set.c:277-406 | exactly this partition is gone, the extra ways go to those that were next to it and then in scan order, from the side it was on, and the tiling, the ids, the masks and their registers hold again |
| PartitionSet.PartSet.ReleasePartition | src/modules/pmcs/cache_part_set.c:426-436 | the partition is at the front of the pool |
| PartitionSet.PartSet.RemoveEmptyPartitions | src/modules/pmcs/cache_part_set.c:416-440 | the partitions with applications stay, in order, all others are at the front of the pool, the last one first, and the tiling holds |
| CBuffer.PushChunks | src/modules/pmcs/cbuffer.c:112-148 | with a capacity of whole chunks, pushing whole chunks onto the byte queue pushes them onto the queue of chunks |
| CBuffer.PushMeaning | src/modules/pmcs/cbuffer.c:112-148 | pushing drops only the oldest bytes, and only as many as do not fit |
| CBuffer.WrittenIsPushed | src/modules/pmcs/cbuffer.c:112-148 | writing at the end, going round, and moving the head past what was overwritten keeps the newest bytes in order |
| CBuffer.RemovedView | src/modules/pmcs/cbuffer.c:151-178 | moving the head drops exactly a prefix |
| CBuffer.FirstStretch | src/modules/pmcs/cbuffer.c:151-178 | the oldest bytes are one stretch of the array, or two when they go round its end |
| CBuffer.HeadMayReachEnd | src/modules/pmcs/cbuffer.c:151-178 | the head is left at the end of the array exactly when the removed bytes end there |
| CBuffer.Buffer.InsertItems | src/modules/pmcs/cbuffer.c:112-148 | up to the capacity, the newest bytes of the old contents and the items; more, or a negative count, does nothing; chunk alignment is kept |
| CBuffer.Buffer.RemoveItems | src/modules/pmcs/cbuffer.c:151-178 | exactly the oldest bytes are returned and dropped; more than is stored does nothing; chunk alignment is kept |
| CBuffer.Buffer.RemoveBatch | src/modules/pmcs/cbuffer.c:181-191 | as many of the oldest bytes as there are, up to the limit |
| CBuffer.Buffer.Insert | src/modules/pmcs/cbuffer.c:93-109 | one byte is pushed, dropping the oldest when full; also with the head at the end of the array as long as there is room, which is when the write is inside the array |
| CBuffer.Buffer.Remove | src/modules/pmcs/cbuffer.c:195-206 | the oldest byte, or zero when there is none |
| CBuffer.Buffer.Clear | src/modules/pmcs/cbuffer.c:209-213 | nothing is left |
| CBuffer.Iterator.Next | src/modules/pmcs/cbuffer.c:239-255 | the place of the next chunk as long as there is one |
| CBuffer.CollectChunks | src/modules/pmcs/cbuffer.c:226-255 | iterating delivers exactly the stored chunks, oldest first |
| CounterRuns.ThresholdRecovered | src/modules/pmcs/mchw_core.c:3568-3571 | negating and masking twice gives the threshold back if and only if it is below the counter's modulus |
| CounterRuns.StepConserves | src/modules/pmcs/mchw_core.c:235-317 | an event, an interrupt or a read reports and leaves behind what the counter showed before, plus the event, up to an amount given case by case: a wrap that meets a set status bit, a wrap pending at a read, a reset value |
| CounterRuns.RunConserves | src/modules/pmcs/mchw_core.c:3513-3610 | so over any run, with the amounts added up |
| CounterRuns.CountsAreExact | src/modules/pmcs/mchw_core.c:284-317 | for a counter that restarts from zero, the samples of any run and what the counter still shows never exceed the events, and equal them if and only if no wrap meets a set status bit and no read meets a pending wrap |
| CounterRuns.SamplesAddUp | src/modules/pmcs/mchw_core.c:284-317 | from a restart to a read the samples add up to the events under exactly that condition |
| CounterRuns.SamplesAreExact | src/modules/pmcs/mchw_core.c:3560-3571 | while only its own interrupts read it, the samples of the sampling counter and the events since add up to the events if and only if it never wraps twice before an interrupt and, with a reset value of zero, never fires |
| CounterRuns.SamplesSumToEvents | src/modules/pmcs/mchw_core.c:3560-3571 | between two restarts the samples of the sampling counter are all its events, under exactly that condition |
| CounterRuns.IsInterrupt | src/modules/pmcs/mchw_core.c:3513-3610 | noting the wraps of all counters but the sampling one and then, if that one fired, reading them and adding its threshold back is the interrupt step of a run |
| CoreExperiment.CoreExperiment.constructor | src/modules/pmcs/pmu_config_arm.c:527-608 | both counter maps are inverse to each other between the used bits in increasing order and their ranks, -1 elsewhere, with a descriptor for each and the sampling counter's logical index |
| CoreExperiment.CoreExperiment.LogicalIndex | src/modules/pmcs/pmu_config_arm.c:601-604 | a used counter's logical index is the number of used counters below it, and no other counter has it |
| CoreExperiment.CoreExperiment.ResetValues | src/modules/pmcs/pmu_config_arm.c:578-585 | a sampling counter starts as far below a wrap as its threshold, modulo the counter's range, and any other counter starts at zero |
| CoreExperiment.CoreExperiment.SamplingThreshold | src/modules/pmcs/pmu_config_arm.c:578-585 | the configured threshold comes back from the descriptor if and only if it fits the counter |
| CoreExperiment.Counter.Event | src/modules/pmcs/mchw_core.c:3366-3405 | the counter goes up by one, or wraps to zero and sets its status bit; the overflows noted stay |
| CoreExperiment.CoreExperiment.Event | src/modules/pmcs/mchw_core.c:3366-3405 | an event changes this counter and no other, as the event step of a run does |
| CoreExperiment.CoreExperiment.RestartAll | src/modules/pmcs/mc_experiments.c:65-84 | all counters run from their reset values with their status bits clear; the overflows noted stay |
| CoreExperiment.CoreExperiment.CountBuffer | src/modules/pmcs/mchw_core.c:284-317 | after the first call, which only starts the counters, the samples and the new state of every counter are those of the read step of a run: value plus the wraps noted, and back to the reset value with nothing noted or pending |
| CoreExperiment.CoreExperiment.Count | src/modules/pmcs/mchw_core.c:235-275 | the same, and what the counters showed is added to what the thread has accumulated, entry by entry, if asked for |
| CoreExperiment.CoreExperiment.UpdateOverflowStatusNonEbs | src/modules/pmcs/mchw_core.c:3366-3405 | each wrap in the mask is noted for its counter and for no other, except the sampling counter's, which is reported to the caller |
| CoreExperiment.CoreExperiment.OnOverflow | src/modules/pmcs/mchw_core.c:3513-3610 | with the mask of the wraps, the samples and the new state of every counter are those of the interrupt step of a run, and a sample is taken exactly when the sampling counter wrapped |
| Arithmetic.DeltaIsInterval | src/modules/pmcs/intel_rapl_core.c:307-315 | the difference taken from two readings is the gain modulo the register's range, so exact if and only if the gain is smaller |
| Rapl.MeasuredBalanced | src/modules/pmcs/intel_rapl_core.c:299-319 | a reading that accumulates keeps the ledger: all energy is accumulated, handed out, skipped or lost, and a loss happens only to an interval of 2^32 or more or past 64 bits |
| Rapl.HandedOutBalanced | src/modules/pmcs/intel_rapl_core.c:344-366 | a cleared sample moves the accumulated energy to what was handed out, short by less than one microjoule |
| Rapl.Shortfall | src/modules/pmcs/intel_rapl_core.c:344-366 | over any run the samples add up to the conversion of the energy they cover, short of it by less than one microjoule for each |
| Rapl.Control.constructor | src/modules/pmcs/intel_rapl_core.c:383-391 | nothing accumulated, and a reference of zero |
| Rapl.Control.ReadEnergyMsrs | src/modules/pmcs/intel_rapl_core.c:283-322 | each available domain is measured, or only its reference set; the others are left alone |
| Rapl.Control.GetEnergySample | src/modules/pmcs/intel_rapl_core.c:344-366 | each available domain is converted with its own units, and everything is cleared if asked for |
| Bandwidth.Monitor.UpdateLocalBandwidth | src/modules/pmcs/intel_rdt_core.c:46-64 | what was transferred since the last good reading, exact if and only if the counter did not go all the way round; an error changes nothing |
| RmidPool.Pool.constructor | src/modules/pmcs/intel_rdt_core.c:71-123 | all ids are free, each once, in circular order from a random one on |
| RmidPool.Rotation | src/modules/pmcs/intel_rdt_core.c:104-121 | the two filling loops list every id exactly once |
| RmidPool.Pool.GetRmid | src/modules/pmcs/intel_rdt_core.c:133-183 | the oldest, the newest or any free id by policy moves to the ids in use with one reference; under first-in first-out ids are handed out in the order they were offered |
| RmidPool.Pool.UseRmid | src/modules/pmcs/intel_rdt_core.c:242-255 | one more reference, for an id in use only |
| RmidPool.Pool.PutRmid | src/modules/pmcs/intel_rdt_core.c:201-240 | one reference less; the last one closes the gap among the ids in use and puts the id last among the free ones |
| PhaseTable.EarlyExitIsExact | src/modules/pmcs/mc_experiments.c:680-711 | stopping at an exact match finds the first minimum of the full scan if and only if no negative distance follows |
| PhaseTable.EarlyExitForDistances | src/modules/pmcs/mc_experiments.c:680-711 | so it does for every comparator without negative distances |
| PhaseTable.BitmapIsRight | src/modules/pmcs/mc_experiments.c:646-650 | the bitmap made for up to 64 phases marks exactly the nodes of the table if and only if there are fewer than 32 or 64 |
| PhaseTable.NoFreeNodeOf32 | src/modules/pmcs/mc_experiments.c:646-650 | for 32 phases the bitmap is empty |
| PhaseTable.NodeMask | src/modules/pmcs/mc_experiments.c:714-773 | the mask for a node is its bit if and only if it is among the first 31 |
| PhaseTable.CreatePhaseTable | src/modules/pmcs/mc_experiments.c:617-660 | no table for more than 64 phases, otherwise an empty one; it satisfies what the operations rely on if and only if it is for 1 to 31 phases |
| PhaseTable.Table.constructor | src/modules/pmcs/mc_experiments.c:634-660 | an empty table with the created bitmap |
| PhaseTable.Table.GetPhase | src/modules/pmcs/mc_experiments.c:680-711 | the first nearest phase of the part scanned, or none when no distance is below the greatest integer |
| PhaseTable.Table.Promote | src/modules/pmcs/mc_experiments.c:714-733 | a phase in the table comes first and the others keep their order; other indices are an error |
| PhaseTable.Table.Insert | src/modules/pmcs/mc_experiments.c:753-773 | the free node of least index comes first with the new data; a full table only overwrites its last phase; nothing else changes |
| GroupPlugin.OfAppWithout | src/modules/pmcs/group_plugin.c:190-192 | removing a thread from the list of the group and of its application keeps them in step |
| Sequences.WithoutAppend | src/modules/pmcs/group_plugin.c:181-206 | taking an element off a list leaves the others in order |
| GroupPlugin.DisjointUnion | src/modules/pmcs/group_plugin.c:162-164 | the lists of the applications have the group's threads between them, each on one list |
| GroupPlugin.Group.Insert | src/modules/pmcs/group_plugin.c:150-177 | the thread is last on both lists, and its application is active from its first thread on |
| GroupPlugin.Group.Remove | src/modules/pmcs/group_plugin.c:181-206 | the thread is off both lists, and its application is inactive after its last thread |
| GroupPlugin.Scheduler.OnMigrateThread | src/modules/pmcs/group_plugin.c:222-247 | the thread moves between the lists of the two groups; active threads are still the runnable ones if and only if it was runnable or has no previous processor |
| GroupPlugin.IdleThreadActivated | src/modules/pmcs/group_plugin.c:222-247 | a migration of a thread that is not runnable makes it active |
| GroupPlugin.Scheduler.OnSwitchIn | src/modules/pmcs/pmcsched.c:2812-2872 | exactly a controlled thread that runs, was not runnable, and meets no profiling becomes runnable and active, here |
| GroupPlugin.Scheduler.OnSwitchOut | src/modules/pmcs/pmcsched.c:2889-2933 | exactly a controlled runnable thread that stopped running, and was not killed, is neither runnable nor active any more |
| GroupPlugin.Scheduler.RunnableIsActive | src/modules/pmcs/pmcsched.c:2855-2872 | a thread is runnable if and only if it is on a group's active list, which is that of its current group and no other, with its application active there |

## Left out

- `pair_clustering_core2` and LFOC_PLUS_MD for more than one sensitive application: distances of an application that has just gained a way stay listed, so the totals are not an invariant of that loop.
- LFOC_S_MD, isolated streaming applications, colliding streaming partitions, and spreading light applications over streaming and sensitive clusters, and `equal_part_intensive`.
- Lfoc.LfocGen: streaming partitions of more than four ways, where the code divides by a partition count of zero (`Lfoc.PartsExist`); and pools that are used up, because the code then follows a null pointer.
- Overflow of the `int` arithmetic on curve values: for curve values from 0 to the greatest integer no intermediate value of lookahead leaves the range of `int`; the weighted sums of the distance and of combined curves are unbounded in the model.
- PartitionSet.PartSet.InsertPartition: does not model the variant that leaves the registers alone; the only caller asks for the registers to be written.
- Mixing operations that resize partitions with those that do not; `Enforce` models the latter on partitions that are values in a pool indexed as the pool of the source, without sharing of objects.
- Enforce.Manager.Settle: does not model the list of deferred updates of running threads, nor the index of the last partition kept as a hint; the flag of applications that bring their own class of service is taken to agree with the parameter of `enforce_cluster_partitioning`.
- Enforce.Manager.AddApp: covers an application whose register has not been written yet; for applications with their own class of service the classes are taken to be distinct.
- The scan in `enforce_cluster_partitioning` that looks for a partition among the cluster's own applications has no effect, and a comment in the source says so.
- The backends for AMD, Phi and perf of the overflow handler, event multiplexing, and ending a process after a number of samples.
- The reset value is that of the ARM configuration; the event fields that are only written to registers are not modelled.
- Rapl.Control.GetEnergySample: a product beyond 64 bits is modelled and booked as spilled, not excluded.
- The node and id arrays of the RMID pool are taken to have one entry per id, as the loops that fill them assume; the allocation in the source is one entry short. PartitionSet and RmidPool have no failing allocation.
- PairClustering.ClusterUcp: does not model the table of each application's cluster, which the same loop fills in and nothing reads.
- Enforce.Manager.AllocateEmptyPartition: does not model the position number that the source writes into the partition; nothing modelled in `Enforce` reads it.
- PartitionSet.PartSet.RemoveEmptyPartitions: the branch that resizes; the other one releases partitions as `Enforce.Manager.DeallocatePartitionNoResize` does.
- RmidPool.Pool.constructor: takes the arrays one entry longer than the source allocates them.
- RmidPool.Pool.GetRmid: does not model the bandwidth reading taken when an id is assigned.
- PhaseTable.Table.constructor: the operations are modelled for tables of 1 to 31 phases, where the shifts of an `int` in the source reach every node.
- CBuffer.Buffer.Insert: excludes a full buffer whose head is at the end of the array, where the source writes outside it; CBuffer.Buffer.Remove likewise excludes reading there.
- CBuffer.Iterator.Next: needs a head inside the array and a buffer of whole chunks; past the end the source reads outside the array.
- CBuffer.CollectChunks: the same, as it uses the iterator.
- GroupPlugin.Scheduler.OnMigrateThread: does not model the migration list and the migration state of a thread.
- A comment says that a value is divided by two where the code compares with `>0x1` to choose the direction of a scan (`src/modules/pmcs/cache_part_set.c:485`); the model follows the code, and the tiling holds for both directions.
- The migration list and the periodic functions of the group plugin, coscheduling plugins, profiling, and threads that die while they are active.
- Lock and interrupt interleavings inside a locked section, /proc handlers, hardware detection, tracing, string parsing, the command-line tools and the graphical front end.

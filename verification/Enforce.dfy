/**
 * enforce_cluster_partitioning, and the operations on a partition set that it uses:
 * allocating and releasing partitions without resizing the others, reconfiguring one,
 * and moving applications between them.
 *
 * Partitions are known by their index in the pool, and applications by number.  The
 * class of service of the partition at index j is j + 1.
 */
module Enforce {
  import opened ClusterSets
  import opened Masks
  import opened Sequences

  // ---------------------------------------------------------------------------
  // Where the clusters go
  // ---------------------------------------------------------------------------

  predicate Full(c: Cluster, length: nat) {
    c.nrWays == length
  }

  /** The ways taken by the clusters that do not have the whole cache. */
  function Taken(cs: seq<Cluster>, length: nat): int {
    if cs == [] then 0
    else Taken(cs[..|cs| - 1], length) + if Full(cs[|cs| - 1], length) then 0 else cs[|cs| - 1].nrWays
  }

  /** The lowest way of cluster i: they are placed from the top of the cache. */
  function LowWay(cs: seq<Cluster>, i: nat, length: nat): int
    requires i < |cs|
  {
    if Full(cs[i], length) then 0 else length - Taken(cs[..i], length) - cs[i].nrWays
  }

  ghost predicate Placeable(cs: seq<Cluster>, length: nat) {
    && (forall i | 0 <= i < |cs| :: cs[i].nrWays >= 0)
    && Taken(cs, length) <= length
  }

  lemma {:induction false} TakenMonotone(cs: seq<Cluster>, i: nat, length: nat)
    requires i <= |cs| && forall k | 0 <= k < |cs| :: cs[k].nrWays >= 0
    ensures 0 <= Taken(cs[..i], length) <= Taken(cs, length)
  {
    if i == |cs| {
      assert cs[..i] == cs;
      if cs != [] {
        TakenMonotone(cs[..|cs| - 1], 0, length);
      }
    } else {
      TakenMonotone(cs[..|cs| - 1], i, length);
      assert cs[..|cs| - 1][..i] == cs[..i];
    }
  }

  lemma TakenNext(cs: seq<Cluster>, i: nat, length: nat)
    requires i < |cs|
    ensures Taken(cs[..i + 1], length) == Taken(cs[..i], length) + if Full(cs[i], length) then 0 else cs[i].nrWays
  {
    assert cs[..i + 1][..i] == cs[..i];
  }

  lemma InCache(cs: seq<Cluster>, i: nat, length: nat)
    requires Placeable(cs, length) && i < |cs|
    ensures 0 <= LowWay(cs, i, length) && LowWay(cs, i, length) + cs[i].nrWays <= length
  {
    TakenNext(cs, i, length);
    TakenMonotone(cs, i, length);
    TakenMonotone(cs, i + 1, length);
  }

  /** The mask that cluster i gets: a contiguous one, inside the cache. */
  function MaskFor(cs: seq<Cluster>, i: nat, length: nat): nat
    requires Placeable(cs, length) && i < |cs|
  {
    InCache(cs, i, length);
    MaskOf(cs[i].nrWays, LowWay(cs, i, length))
  }

  /** The masks are contiguous, and those of clusters without the whole cache have no way in common. */
  lemma MasksDisjoint(cs: seq<Cluster>, i: nat, j: nat, length: nat, w: nat)
    requires Placeable(cs, length) && i < j < |cs|
    ensures Bit(MaskFor(cs, i, length), w) <==> LowWay(cs, i, length) <= w < LowWay(cs, i, length) + cs[i].nrWays
    ensures Bit(MaskFor(cs, i, length), w) ==> w < length
    ensures !Full(cs[i], length) && !Full(cs[j], length) ==>
              !(Bit(MaskFor(cs, i, length), w) && Bit(MaskFor(cs, j, length), w))
  {
    InCache(cs, i, length);
    InCache(cs, j, length);
    MaskBits(cs[i].nrWays, LowWay(cs, i, length), w);
    MaskBits(cs[j].nrWays, LowWay(cs, j, length), w);
    TakenNext(cs, i, length);
    TakenMonotone(cs[..j], i + 1, length);
    assert cs[..j][..i + 1] == cs[..i + 1];
  }

  /** Clusters are stacked from the top of the cache down, each below the last one that does not have the whole cache. */
  lemma StackedFromTop(cs: seq<Cluster>, i: nat, length: nat)
    requires Placeable(cs, length) && i < |cs|
    ensures Full(cs[i], length) ==> LowWay(cs, i, length) == 0
    ensures !Full(cs[i], length) && (forall k | 0 <= k < i :: Full(cs[k], length)) ==> LowWay(cs, i, length) + cs[i].nrWays == length
    ensures forall j: nat | j < i && !Full(cs[i], length) && !Full(cs[j], length) && (forall k | j < k < i :: Full(cs[k], length)) ::
              LowWay(cs, i, length) + cs[i].nrWays == LowWay(cs, j, length)
  {
    if forall k | 0 <= k < i :: Full(cs[k], length) {
      FullTakeNothing(cs, 0, i, length);
      assert cs[..0] == [];
    }
    forall j: nat | j < i && !Full(cs[j], length) && (forall k | j < k < i :: Full(cs[k], length))
      ensures Taken(cs[..i], length) == Taken(cs[..j], length) + cs[j].nrWays
    {
      TakenNext(cs, j, length);
      FullTakeNothing(cs, j + 1, i, length);
    }
  }

  lemma {:induction false} FullTakeNothing(cs: seq<Cluster>, j: nat, i: nat, length: nat)
    requires j <= i <= |cs| && forall k | j <= k < i :: Full(cs[k], length)
    ensures Taken(cs[..i], length) == Taken(cs[..j], length)
  {
    if j < i {
      FullTakeNothing(cs, j, i - 1, length);
      TakenNext(cs, i - 1, length);
    }
  }

  // ---------------------------------------------------------------------------
  // The partitions
  // ---------------------------------------------------------------------------

  /** cat_cache_part_t, without its place on the lists. */
  datatype Part = Part(lowWay: nat, highWay: int, nrWays: nat, partMask: nat, apps: seq<nat>, nrApps: int)

  /** Each application is on the list of its partition and on no other, and the counts agree. */
  ghost predicate Membership(pool: seq<Part>, cat: map<nat, nat>) {
    && (forall a <- cat :: cat[a] < |pool|)
    && (forall j: nat, a: nat | j < |pool| :: a in pool[j].apps <==> a in cat && cat[a] == j)
    && (forall j: nat | j < |pool| :: NoDuplicates(pool[j].apps) && pool[j].nrApps == |pool[j].apps|)
  }

  function Leave(pool: seq<Part>, i: nat, a: nat): (r: seq<Part>)
    requires i < |pool|
    ensures |r| == |pool|
  {
    pool[i := pool[i].(apps := Without(pool[i].apps, a), nrApps := pool[i].nrApps - 1)]
  }

  function Join(pool: seq<Part>, j: nat, a: nat): (r: seq<Part>)
    requires j < |pool|
    ensures |r| == |pool|
  {
    pool[j := pool[j].(apps := pool[j].apps + [a], nrApps := pool[j].nrApps + 1)]
  }

  /** The configuration of a partition, without its applications. */
  function Shape(p: Part): Part {
    p.(apps := [], nrApps := 0)
  }

  lemma Moved(pool: seq<Part>, cat: map<nat, nat>, a: nat, j: nat)
    requires Membership(pool, cat) && a in cat && j < |pool| && cat[a] != j
    ensures var after := Join(Leave(pool, cat[a], a), j, a);
            && Membership(after, cat[a := j]) && |after| == |pool|
            && forall k: nat | k < |pool| :: Shape(after[k]) == Shape(pool[k])
  {
    hide Without;
    WithoutKeeps(pool[cat[a]].apps, a);
    NoDuplicatesConcat(pool[j].apps, [a]);
  }

  lemma Joined(pool: seq<Part>, cat: map<nat, nat>, a: nat, j: nat)
    requires Membership(pool, cat) && a !in cat && j < |pool|
    ensures Membership(Join(pool, j, a), cat[a := j])
  {
    NoDuplicatesConcat(pool[j].apps, [a]);
  }

  lemma LeftBehind(pool: seq<Part>, cat: map<nat, nat>, a: nat)
    requires Membership(pool, cat) && a in cat
    ensures Membership(Leave(pool, cat[a], a), cat - {a})
  {
    hide Without;
    WithoutKeeps(pool[cat[a]].apps, a);
  }

  /** The partitions in use and the spare ones are those of a pool of n, each once. */
  ghost predicate ListsOf(n: nat, assigned_: seq<nat>, spare: seq<nat>) {
    && NoDuplicates(assigned_ + spare) && |assigned_| + |spare| == n <= MAX_CLUSTERS
    && (forall j <- assigned_ :: j < n) && (forall j <- spare :: j < n)
  }

  /** Which register governs each application, and what is known about it. */
  ghost predicate ClassesOf(external: bool, cat: map<nat, nat>, cosId: map<nat, nat>, lastCbm: map<nat, nat>, capacity: map<nat, nat>) {
    && cat.Keys <= cosId.Keys && cat.Keys <= lastCbm.Keys
    && (!external ==> forall a <- cat :: cosId[a] == cat[a] + 1)
    && (external ==> forall a <- cat, b <- cat :: cosId[a] == cosId[b] ==> a == b)
    && (external ==> forall a <- cat :: lastCbm[a] != 0 ==> cosId[a] in capacity && capacity[cosId[a]] == lastCbm[a])
  }

  ghost predicate InUse(cat: map<nat, nat>, assigned_: seq<nat>) {
    forall a <- cat :: cat[a] in assigned_
  }

  lemma ClassesMoved(external: bool, cat: map<nat, nat>, cosId: map<nat, nat>, lastCbm: map<nat, nat>, capacity: map<nat, nat>, a: nat, j: nat)
    requires ClassesOf(external, cat, cosId, lastCbm, capacity) && a in cat
    ensures ClassesOf(external, cat[a := j], if external then cosId else cosId[a := j + 1], lastCbm, capacity)
  {
  }

  lemma ClassesWritten(cat: map<nat, nat>, cosId: map<nat, nat>, lastCbm: map<nat, nat>, capacity: map<nat, nat>, c: nat, mask: nat)
    requires ClassesOf(false, cat, cosId, lastCbm, capacity)
    ensures ClassesOf(false, cat, cosId, lastCbm, capacity[c := mask])
  {
  }

  lemma InUseMoved(cat: map<nat, nat>, assigned_: seq<nat>, a: nat, j: nat)
    requires InUse(cat, assigned_) && j in assigned_
    ensures InUse(cat[a := j], assigned_)
  {
  }

  lemma Reshaped(pool: seq<Part>, cat: map<nat, nat>, j: nat, part: Part)
    requires Membership(pool, cat) && j < |pool| && part.apps == pool[j].apps && part.nrApps == pool[j].nrApps
    ensures Membership(pool[j := part], cat)
  {
  }

  /** Moving an element from one list to the other. */
  lemma MovedOver(s: seq<nat>, t: seq<nat>, i: nat)
    requires NoDuplicates(s + t) && i < |s|
    ensures NoDuplicates(RemoveAt(s, i) + ([s[i]] + t))
    ensures forall x :: x in RemoveAt(s, i) <==> x in s && x != s[i]
  {
    NoDuplicatesConcat(s, t);
    NoDuplicatesConcat([s[i]], t);
    Removed(s, i);
    assert s[i] in s;
    NoDuplicatesConcat(RemoveAt(s, i), [s[i]] + t);
  }

  /** How many partitions have to be allocated. */
  function Missing(nrClusters: nat, nrAssigned: nat): nat {
    if nrClusters > nrAssigned then nrClusters - nrAssigned else 0
  }

  ghost predicate HasBits(mask: nat, s: seq<nat>) {
    forall j: nat :: Bit(mask, j) <==> j in s
  }

  method SetBit(mask: nat, ghost s: seq<nat>, x: nat) returns (r: nat)
    requires HasBits(mask, s)
    ensures HasBits(r, s + [x])
  {
    r := WithBit(mask, x);
    forall j: nat ensures Bit(r, j) <==> j in s + [x] {
      WithBitBits(mask, x, j);
    }
  }

  // ---------------------------------------------------------------------------
  // Choosing partitions
  // ---------------------------------------------------------------------------

  /** The least elements of s, in increasing order. */
  ghost predicate LeastOf(chosen: seq<nat>, s: seq<nat>) {
    && (forall k | 0 <= k < |chosen| :: chosen[k] in s)
    && (forall a, b | 0 <= a < b < |chosen| :: chosen[a] < chosen[b])
    && (forall j, k | j in s && 0 <= k < |chosen| && j <= chosen[k] :: j in chosen)
  }

  lemma SomeLeft(chosen: seq<nat>, s: seq<nat>) returns (j: nat)
    requires LeastOf(chosen, s) && NoDuplicates(s) && |chosen| < |s|
    ensures j in s && j !in chosen
  {
    DistinctCount(s);
    DistinctCount(chosen);
    if forall x <- s :: x in chosen {
      SubsetSize(Elements(s), Elements(chosen));
    }
    j :| j in s && j !in chosen;
  }

  /** The first available index: in use, and not reserved yet. */
  method FirstAvailable(used: nat, reserved: nat, ghost chosen: seq<nat>, ghost s: seq<nat>) returns (j: nat)
    requires HasBits(used, s) && HasBits(reserved, chosen)
    requires LeastOf(chosen, s) && NoDuplicates(s) && |chosen| < |s| && forall k <- s :: k < MAX_CLUSTERS
    ensures j in s && j !in chosen && LeastOf(chosen + [j], s)
  {
    hide Bit;
    ghost var left := SomeLeft(chosen, s);
    j := 0;
    while j < MAX_CLUSTERS && !(Bit(used, j) && !Bit(reserved, j))
      invariant 0 <= j <= left && forall k: nat | k < j :: k in s ==> k in chosen
    {
      assert j != left;
      j := j + 1;
    }
    assert j in s && j !in chosen;
    forall k | 0 <= k < |chosen| ensures chosen[k] < j {
      assert j <= chosen[k] ==> j in chosen;
    }
  }

  predicate Stays(j: nat, pool: seq<Part>, defaultPartition: int) {
    j == defaultPartition || j >= |pool| || pool[j].nrApps != 0
  }

  /** The partitions with applications, and the default one. */
  function Kept(s: seq<nat>, pool: seq<Part>, defaultPartition: int): (r: seq<nat>)
    ensures |r| <= |s|
  {
    if s == [] then []
    else if Stays(s[0], pool, defaultPartition) then [s[0]] + Kept(s[1..], pool, defaultPartition)
    else Kept(s[1..], pool, defaultPartition)
  }

  lemma {:induction false} KeptMembers(s: seq<nat>, pool: seq<Part>, defaultPartition: int)
    ensures forall j :: j in Kept(s, pool, defaultPartition) <==> j in s && Stays(j, pool, defaultPartition)
  {
    if s != [] {
      KeptMembers(s[1..], pool, defaultPartition);
    }
  }

  /** The others, the last one first: how they are put on the pool. */
  function Dropped(s: seq<nat>, pool: seq<Part>, defaultPartition: int): (r: seq<nat>)
    ensures |r| + |Kept(s, pool, defaultPartition)| == |s|
  {
    if s == [] then []
    else if Stays(s[0], pool, defaultPartition) then Dropped(s[1..], pool, defaultPartition)
    else Dropped(s[1..], pool, defaultPartition) + [s[0]]
  }

  lemma {:induction false} KeptAll(s: seq<nat>, pool: seq<Part>, defaultPartition: int)
    requires |s| <= |Kept(s, pool, defaultPartition)|
    ensures Kept(s, pool, defaultPartition) == s
  {
    if s != [] {
      KeptAll(s[1..], pool, defaultPartition);
    }
  }

  function Positive(x: int): nat {
    if x > 0 then x else 0
  }

  lemma KeptFirst(s: seq<nat>, pool: seq<Part>, defaultPartition: int)
    requires s != []
    ensures var rest := Kept(s[1..], pool, defaultPartition);
            Kept(s, pool, defaultPartition)
            == if Stays(s[0], pool, defaultPartition) then [s[0]] + rest else rest
    ensures var rest := Dropped(s[1..], pool, defaultPartition);
            Dropped(s, pool, defaultPartition)
            == if Stays(s[0], pool, defaultPartition) then rest else rest + [s[0]]
  {
  }

  lemma KeptCons(x: nat, t: seq<nat>, pool: seq<Part>, defaultPartition: int)
    ensures Kept([x] + t, pool, defaultPartition)
            == (if Stays(x, pool, defaultPartition) then [x] else []) + Kept(t, pool, defaultPartition)
    ensures Dropped([x] + t, pool, defaultPartition)
            == Dropped(t, pool, defaultPartition) + (if Stays(x, pool, defaultPartition) then [] else [x])
  {
    hide Stays;
    assert ([x] + t)[1..] == t;
  }

  lemma Associative<T>(a: seq<T>, b: seq<T>, c: seq<T>)
    ensures (a + b) + c == a + (b + c)
  {
  }

  /** Looking at one more partition at the end of the list: it is kept, last, or goes to the front of the pool. */
  lemma {:induction false} LastOne(s: seq<nat>, j: nat, pool: seq<Part>, defaultPartition: int, keep: seq<nat>, drop: seq<nat>)
    requires if Stays(j, pool, defaultPartition) then keep == [j] && drop == [] else keep == [] && drop == [j]
    ensures Kept(s + [j], pool, defaultPartition) == Kept(s, pool, defaultPartition) + keep
    ensures Dropped(s + [j], pool, defaultPartition) == drop + Dropped(s, pool, defaultPartition)
  {
    if s == [] {
      assert s + [j] == [j] + [];
      KeptCons(j, [], pool, defaultPartition);
    } else {
      hide *;
      var x, t := s[0], s[1..];
      var kx, dx := if Stays(x, pool, defaultPartition) then [x] else [], if Stays(x, pool, defaultPartition) then [] else [x];
      assert s == [x] + t && s + [j] == [x] + (t + [j]);
      KeptCons(x, t, pool, defaultPartition);
      KeptCons(x, t + [j], pool, defaultPartition);
      LastOne(t, j, pool, defaultPartition, keep, drop);
      Associative(kx, Kept(t, pool, defaultPartition), keep);
      Associative(drop, Dropped(t, pool, defaultPartition), dx);
    }
  }

  lemma Scanned(kept: seq<nat>, ahead: seq<nat>)
    requires ahead != []
    ensures RemoveAt(kept + ahead, |kept|) == kept + ahead[1..] && kept + ahead == (kept + [ahead[0]]) + ahead[1..]
  {
  }

  lemma KeptStep(kept: seq<nat>, ahead: seq<nat>, pool: seq<Part>, defaultPartition: int)
    requires ahead != []
    ensures RemoveAt(kept + ahead, |kept|) == kept + ahead[1..] && kept + ahead == (kept + [ahead[0]]) + ahead[1..]
    ensures var rest := Kept(ahead[1..], pool, defaultPartition);
            if Stays(ahead[0], pool, defaultPartition)
            then Kept(ahead, pool, defaultPartition) == [ahead[0]] + rest
                 && kept + Kept(ahead, pool, defaultPartition) == (kept + [ahead[0]]) + rest
            else Kept(ahead, pool, defaultPartition) == rest
    ensures Dropped(ahead, pool, defaultPartition)
            == Dropped(ahead[1..], pool, defaultPartition)
               + if Stays(ahead[0], pool, defaultPartition) then [] else [ahead[0]]
  {
    hide *;
    Scanned(kept, ahead);
    KeptFirst(ahead, pool, defaultPartition);
  }

  lemma TakeNext(s: seq<nat>, t: seq<nat>, k: nat)
    requires k < |t|
    ensures s + t[..k + 1] == (s + t[..k]) + [t[k]] && t[k..][0] == t[k] && t[k..][1..] == t[k + 1..]
  {
  }

  lemma NoneChosen(s: seq<nat>)
    ensures LeastOf([], s)
  {
  }

  /** After the second step, the partitions that are kept are those chosen for a cluster, and the default one. */
  lemma KeptAre(cs: seq<Cluster>, chosen: seq<nat>, inUse: seq<nat>, before: seq<nat>, pool: seq<Part>, defaultPartition: int)
    requires NoDuplicates(inUse) && LeastOf(chosen, inUse) && |chosen| == |cs| && forall j <- inUse :: j < |pool|
    requires before <= inUse && |inUse| == |before| + Missing(|cs|, |before|)
    requires forall j: nat | j < |pool| && j !in chosen :: pool[j].nrApps == 0
    requires forall i: nat | i < |cs| :: chosen[i] < |pool| && pool[chosen[i]].nrApps > 0
    ensures var r := Kept(inUse, pool, defaultPartition);
            && (forall j: nat :: j in r <==> j in chosen || (j == defaultPartition && j in before))
            && |inUse| - |r| <= Positive(|before| - |cs|)
            && (|before| == |cs| ==> r == inUse)
  {
    var r := Kept(inUse, pool, defaultPartition);
    KeptMembers(inUse, pool, defaultPartition);
    DistinctCount(chosen);
    DistinctCount(inUse);
    assert Elements(chosen) <= Elements(inUse);
    if |inUse| == |cs| {
      SubsetSize(Elements(chosen), Elements(inUse));
      assert forall j <- inUse :: j in Elements(inUse);
    } else {
      assert inUse == before;
    }
    KeptCount(inUse, Elements(chosen), pool, defaultPartition);
    if |before| == |cs| {
      KeptAll(inUse, pool, defaultPartition);
    }
  }

  lemma {:induction false} KeptCount(s: seq<nat>, must: set<nat>, pool: seq<Part>, defaultPartition: int)
    requires must <= Elements(s) && forall j <- must :: j < |pool| && pool[j].nrApps != 0
    ensures |Kept(s, pool, defaultPartition)| >= |must|
  {
    if s != [] {
      KeptCount(s[1..], must - {s[0]}, pool, defaultPartition);
    }
  }

  lemma Enough(n: nat, before: nat)
    ensures before + Missing(n, before) >= n
  {
  }

  lemma SameCount(s: seq<nat>, t: seq<nat>)
    requires NoDuplicates(s) && NoDuplicates(t) && forall j :: j in s <==> j in t
    ensures |s| == |t|
  {
    DistinctCount(s);
    DistinctCount(t);
    assert Elements(s) == Elements(t);
  }

  // ---------------------------------------------------------------------------
  // The partition set
  // ---------------------------------------------------------------------------

  /** cache_part_set_t with the applications it serves, and the registers that hold the capacity masks. */
  class Manager {
    const cbmLength: nat
    const external: bool          // classes of service are given to applications, not to partitions
    var pool: seq<Part>
    var assigned_: seq<nat>
    var spare: seq<nat>
    var defaultPartition: int     // -1 when there is none
    var cat: map<nat, nat>        // cat_partition of the applications
    var cosId: map<nat, nat>
    var lastCbm: map<nat, nat>    // last_llc_cbm; 0 before the first write
    var capacity: map<nat, nat>   // the mask in the register of each class of service

    ghost predicate Lists()
      reads this`pool, this`assigned_, this`spare
    {
      ListsOf(|pool|, assigned_, spare)
    }

    ghost predicate Classes()
      reads this`cat, this`cosId, this`lastCbm, this`capacity
    {
      ClassesOf(external, cat, cosId, lastCbm, capacity)
    }

    ghost predicate Valid()
      reads this
    {
      Lists() && Membership(pool, cat) && Classes() && InUse(cat, assigned_)
    }

    /** The application runs with this mask. */
    ghost predicate RunsWith(a: nat, mask: nat)
      reads this`cosId, this`capacity
    {
      a in cosId && cosId[a] in capacity && capacity[cosId[a]] == mask
    }

    /** init_cache_part_set */
    constructor (nrCosAvailable: nat, length: nat, external: bool)
      requires 0 < nrCosAvailable <= MAX_CLUSTERS + 1
      ensures Valid() && cbmLength == length && this.external == external
      ensures cat == map[] && assigned_ == [] && spare == Upto(nrCosAvailable - 1)
    {
      var n := nrCosAvailable - 1;
      cbmLength, this.external := length, external;
      pool := seq(n, _ => Part(0, length - 1, length, MaskOf(length, 0), [], 0));
      assigned_, spare, defaultPartition := [], Upto(n), -1;
      cat, cosId, lastCbm, capacity := map[], map[], map[], map[];
      new;
      assert assigned_ + spare == spare;
    }

    /** __add_app_to_partition, for an application that comes with a class of service if these are given to applications. */
    method AddApp(a: nat, j: nat, cos: nat)
      requires Valid() && a !in cat && j in assigned_ && j < |pool|
      requires external ==> forall b <- cat :: cosId[b] != cos
      modifies this`pool, this`cat, this`cosId, this`lastCbm, this`capacity
      ensures Valid() && cat == old(cat)[a := j] && pool == Join(old(pool), j, a)
      ensures external && pool[j].partMask != 0 ==> RunsWith(a, pool[j].partMask)
      ensures cosId[a] == if external then cos else j + 1
    {
      hide Membership;
      hide ListsOf;
      hide Join;
      Joined(pool, cat, a, j);
      pool := Join(pool, j, a);
      cat := cat[a := j];
      cosId := cosId[a := if external then cos else j + 1];
      lastCbm := lastCbm[a := 0];
      if external {
        RefreshHwPartitionApp(a);
      }
    }

    /** __remove_app_from_partition */
    method RemoveApp(a: nat)
      requires Valid() && a in cat
      modifies this`pool, this`cat
      ensures Valid() && cat == old(cat) - {a} && old(cat[a]) < |old(pool)| && pool == Leave(old(pool), old(cat[a]), a)
    {
      hide Membership;
      InRange(a);
      LeftBehind(pool, cat, a);
      pool := Leave(pool, cat[a], a);
      cat := cat - {a};
    }

    lemma InRange(a: nat)
      requires Valid() && a in cat
      ensures cat[a] < |pool|
    {
    }

    /** reconfigure_partition_gen */
    method ReconfigurePartition(j: nat, ways: nat, lowWay: nat, updateHw: bool)
      requires j < |pool|
      modifies this`pool, this`capacity
      ensures pool == old(pool)[j := Part(lowWay, lowWay + ways - 1, ways, MaskOf(ways, lowWay), old(pool[j]).apps, old(pool[j]).nrApps)]
      ensures capacity == if updateHw then old(capacity)[j + 1 := MaskOf(ways, lowWay)] else old(capacity)
    {
      var part := pool[j];
      pool := pool[j := part.(lowWay := lowWay, highWay := lowWay + ways - 1, nrWays := ways, partMask := MaskOf(ways, lowWay))];
      if updateHw {
        capacity := capacity[j + 1 := pool[j].partMask];
      }
    }

    /** The application is in this partition, and unless the mask is empty runs with it. */
    ghost predicate Home(a: nat, j: nat, mask: nat)
      reads this`cat, this`cosId, this`capacity
    {
      a in cat && cat[a] == j && (mask != 0 ==> RunsWith(a, mask))
    }

    /** What happens to the other applications when one is settled: nothing. */
    twostate predicate OthersStay(apps: set<nat>)
      reads this`cat, this`cosId, this`capacity
    {
      && cat.Keys == old(cat.Keys)
      && forall b: nat, k: nat, mask: nat | b !in apps && old(Home(b, k, mask)) :: Home(b, k, mask)
    }

    /** refresh_hw_partition_app, for an application with a partition. */
    method RefreshHwPartitionApp(a: nat)
      requires a in cat && cat[a] < |pool| && external && Classes()
      modifies this`lastCbm, this`capacity
      ensures Classes()
      ensures pool[cat[a]].partMask != 0 ==> RunsWith(a, pool[cat[a]].partMask)
      ensures forall c: nat | c != cosId[a] && c in old(capacity) :: c in capacity && capacity[c] == old(capacity[c])
      ensures cosId[a] in old(capacity) ==> cosId[a] in capacity
      ensures OthersStay({a})
    {
      var mask := pool[cat[a]].partMask;
      if mask == lastCbm[a] {
        return;
      }
      capacity := capacity[cosId[a] := mask];
      lastCbm := lastCbm[a := mask];
    }

    // __remove_app_from_partition and __add_app_to_partition, but for the refresh of the registers
    method Move(a: nat, j: nat)
      requires Valid() && a in cat && j in assigned_ && cat[a] != j
      modifies this`pool, this`cat, this`cosId
      ensures Valid() && cat == old(cat)[a := j]
      ensures cosId == if external then old(cosId) else old(cosId)[a := j + 1]
      ensures j < |pool| == |old(pool)| && forall k: nat | k < |pool| :: Shape(pool[k]) == Shape(old(pool[k]))
    {
      BothIn(a, j);
      hide Membership;
      hide ListsOf;
      hide ClassesOf;
      hide InUse;
      hide Join;
      hide Leave;
      hide Shape;
      var i := cat[a];
      Moved(pool, cat, a, j);
      ClassesMoved(external, cat, cosId, lastCbm, capacity, a, j);
      InUseMoved(cat, assigned_, a, j);
      pool := Join(Leave(pool, i, a), j, a);
      cat := cat[a := j];
      if !external {
        cosId := cosId[a := j + 1];
      }
    }

    lemma BothIn(a: nat, j: nat)
      requires Valid() && a in cat && j in assigned_
      ensures cat[a] < |pool| && j < |pool|
    {
    }

    twostate predicate SameShapes()
      reads this`pool
    {
      |pool| == |old(pool)| && forall k: nat | k < |pool| :: Shape(pool[k]) == Shape(old(pool[k]))
    }

    // ... and nobody else notices.
    method MoveAlone(a: nat, j: nat)
      requires Valid() && a in cat && j in assigned_ && cat[a] != j
      modifies this`pool, this`cat, this`cosId
      ensures Valid() && cat == old(cat)[a := j] && SameShapes() && j < |pool|
      ensures OthersStay({a})
    {
      hide Valid;
      hide Shape;
      Move(a, j);
    }

    lemma AtHome(a: nat, j: nat, mask: nat)
      requires Valid() && a in cat && cat[a] == j && (!external ==> j + 1 in capacity && capacity[j + 1] == mask)
      requires external && mask != 0 ==> RunsWith(a, mask)
      ensures Home(a, j, mask)
    {
    }

    /** move_app_to_partition, or only the registers when the application is there already. */
    method Settle(a: nat, j: nat)
      requires Valid() && a in cat && j in assigned_ && j < |pool|
      requires !external ==> j + 1 in capacity && capacity[j + 1] == pool[j].partMask
      modifies this`pool, this`cat, this`cosId, this`lastCbm, this`capacity
      ensures Valid() && SameShapes() && (!external ==> capacity == old(capacity))
      ensures Home(a, j, pool[j].partMask) && OthersStay({a})
    {
      hide Membership;
      hide ListsOf;
      hide ClassesOf;
      hide InUse;
      hide Home;
      hide RunsWith;
      if cat[a] != j {
        MoveAlone(a, j);
      }
      if external {
        RefreshHwPartitionApp(a);
      }
      AtHome(a, j, pool[j].partMask);
    }

    // The last loop of enforce_cluster_partitioning's second step.
    method SettleAll(apps: seq<nat>, j: nat)
      requires Valid() && j in assigned_ && j < |pool| && forall a <- apps :: a in cat
      requires !external ==> j + 1 in capacity && capacity[j + 1] == pool[j].partMask
      requires NoDuplicates(apps)
      modifies this`pool, this`cat, this`cosId, this`lastCbm, this`capacity
      ensures Valid() && SameShapes()
      ensures OthersStay(Elements(apps)) && forall a <- apps :: Home(a, j, pool[j].partMask)
    {
      hide Valid;
      hide Home;
      ghost var mask := pool[j].partMask;
      for i := 0 to |apps|
        invariant Valid() && SameShapes() && (!external ==> capacity == old(capacity))
        invariant OthersStay(Elements(apps)) && forall k | 0 <= k < i :: Home(apps[k], j, mask)
      {
        assert apps[i] in cat;
        Settle(apps[i], j);
      }
    }

    /** allocate_empty_partition, when the pool has one. */
    method AllocateEmptyPartition() returns (j: nat)
      requires Valid() && spare != []
      modifies this`pool, this`assigned_, this`spare
      ensures Valid() && j == old(spare)[0] && spare == old(spare)[1..] && assigned_ == old(assigned_) + [j]
      ensures j < |old(pool)| && pool == old(pool)[j := Part(0, 1, 1, 1, old(pool[j]).apps, old(pool[j]).nrApps)]
    {
      j := spare[0];
      assert j in spare && forall k <- spare[1..] :: k in spare;
      assert assigned_ + spare == (assigned_ + [j]) + spare[1..];
      spare := spare[1..];
      pool := pool[j := pool[j].(lowWay := 0, highWay := 1, nrWays := 1, partMask := 1)];
      assigned_ := assigned_ + [j];
    }

    /** deallocate_partition_no_resize, of a partition without applications. */
    method DeallocatePartitionNoResize(i: nat)
      requires Valid() && i < |assigned_| && assigned_[i] < |pool| && pool[assigned_[i]].nrApps == 0
      modifies this`assigned_, this`spare
      ensures Valid() && assigned_ == RemoveAt(old(assigned_), i) && spare == [old(assigned_[i])] + old(spare)
    {
      var j := assigned_[i];
      MovedOver(assigned_, spare, i);
      assert pool[j].apps == [];
      assert forall a <- cat :: cat[a] in RemoveAt(assigned_, i) by {
        assert forall a <- cat :: a in pool[cat[a]].apps;
      }
      hide Membership;
      hide Classes;
      assigned_ := RemoveAt(assigned_, i);
      spare := [j] + spare;
    }

    // -------------------------------------------------------------------------
    // enforce_cluster_partitioning
    // -------------------------------------------------------------------------

    /** The partition at index j is that of cluster k: it has its ways, and its applications run with its mask. */
    ghost predicate Hosted(cs: seq<Cluster>, k: nat, j: nat)
      requires Placeable(cs, cbmLength) && k < |cs|
      reads this`pool, this`cat, this`cosId, this`capacity
    {
      && j < |pool| && Shape(pool[j]) == ShapeFor(cs, k)
      && forall a <- cs[k].apps :: Home(a, j, MaskFor(cs, k, cbmLength))
    }

    /** The first clusters are in the partitions chosen for them. */
    ghost predicate AllHosted(cs: seq<Cluster>, chosen: seq<nat>)
      requires Placeable(cs, cbmLength)
      reads this`pool, this`cat, this`cosId, this`capacity
    {
      |chosen| <= |cs| && forall k: nat | k < |chosen| :: Hosted(cs, k, chosen[k])
    }

    function ShapeFor(cs: seq<Cluster>, k: nat): Part
      requires Placeable(cs, cbmLength) && k < |cs|
    {
      InCache(cs, k, cbmLength);
      var low := LowWay(cs, k, cbmLength);
      Part(low, low + cs[k].nrWays - 1, cs[k].nrWays, MaskFor(cs, k, cbmLength), [], 0)
    }

    method UsedMask() returns (used: nat)
      ensures HasBits(used, assigned_)
    {
      hide Bit;
      used := 0;
      forall j: nat ensures !Bit(used, j) {
        ZeroHasNoBit(j);
      }
      for i := 0 to |assigned_|
        invariant HasBits(used, assigned_[..i])
      {
        used := SetBit(used, assigned_[..i], assigned_[i]);
        assert assigned_[..i + 1] == assigned_[..i] + [assigned_[i]];
      }
      assert assigned_[..|assigned_|] == assigned_;
    }

    lemma EnoughSpare()
      requires Valid()
      ensures |assigned_| + |spare| == |pool|
    {
    }

    // First step: the masks of partitions in use, after allocating as many as needed.
    method AllocateNecessary(nrClusters: nat) returns (used: nat)
      requires Valid() && nrClusters <= |pool|
      modifies this`pool, this`assigned_, this`spare
      ensures Valid() && |pool| == |old(pool)| && Missing(nrClusters, |old(assigned_)|) <= |old(spare)|
      ensures assigned_ == old(assigned_) + old(spare)[..Missing(nrClusters, |old(assigned_)|)]
      ensures spare == old(spare)[Missing(nrClusters, |old(assigned_)|)..]
      ensures HasBits(used, assigned_)
    {
      hide Valid;
      hide HasBits;
      used := UsedMask();
      EnoughSpare();
      var before := |assigned_|;
      if nrClusters > before {
        for i := before to nrClusters
          invariant Valid() && |assigned_| == i && |pool| == |old(pool)| && i - before <= |old(spare)|
          invariant assigned_ == old(assigned_) + old(spare)[..i - before] && spare == old(spare)[i - before..]
          invariant HasBits(used, assigned_)
        {
          ghost var inUse := assigned_;
          EnoughSpare();
          TakeNext(old(assigned_), old(spare), i - before);
          var partition := AllocateEmptyPartition();
          used := SetBit(used, inUse, partition);
          assert i + 1 - before == (i - before) + 1;
        }
      }
    }

    /** The applications that the clusters hold, each once, are among those with a partition. */
    ghost predicate Clustered(cs: seq<Cluster>)
      reads this`cat
    {
      NoDuplicates(Members(cs)) && forall a <- Members(cs) :: a in cat
    }

    lemma ClusterApps(cs: seq<Cluster>, i: nat)
      requires Clustered(cs) && i < |cs|
      ensures NoDuplicates(cs[i].apps) && forall a <- cs[i].apps :: a in cat
      ensures forall k, a | 0 <= k < i && a in cs[k].apps :: a !in cs[i].apps
    {
      DistinctClusters(cs);
      forall a | a in cs[i].apps ensures a in cat {
        assert InCluster(cs, i, a);
        MemberOfOne(cs, a);
      }
    }

    lemma Elsewhere(j: nat, mask: nat)
      requires Valid()
      ensures !external ==> ClassesOf(false, cat, cosId, lastCbm, capacity[j + 1 := mask])
      ensures !external ==> forall a <- cat :: cat[a] != j ==> a in cosId && cosId[a] != j + 1
    {
      if !external {
        ClassesWritten(cat, cosId, lastCbm, capacity, j + 1, mask);
      }
    }

    // The partition at index j gets the ways of cluster i.
    method WriteShape(cs: seq<Cluster>, i: nat, j: nat, lowWay: int) returns (lowWayNow: int)
      requires Placeable(cs, cbmLength) && i < |cs| && j < |pool| && lowWay == Taken(cs[..i], cbmLength)
      modifies this`pool, this`capacity
      ensures lowWayNow == Taken(cs[..i + 1], cbmLength)
      ensures pool == old(pool)[j := ShapeFor(cs, i).(apps := old(pool[j].apps), nrApps := old(pool[j].nrApps))]
      ensures capacity == if external then old(capacity) else old(capacity)[j + 1 := MaskFor(cs, i, cbmLength)]
    {
      InCache(cs, i, cbmLength);
      TakenNext(cs, i, cbmLength);
      hide Taken;
      hide Placeable;
      lowWayNow := lowWay;
      if cs[i].nrWays == cbmLength {
        ReconfigurePartition(j, cs[i].nrWays, 0, !external);
      } else {
        ReconfigurePartition(j, cs[i].nrWays, cbmLength - lowWay - cs[i].nrWays, !external);
        lowWayNow := lowWay + cs[i].nrWays;
      }
    }

    // ... and nobody else notices.
    method ConfigureFor(cs: seq<Cluster>, i: nat, j: nat, lowWay: int) returns (lowWayNow: int)
      requires Valid() && Placeable(cs, cbmLength) && i < |cs| && j < |pool| && lowWay == Taken(cs[..i], cbmLength)
      modifies this`pool, this`capacity
      ensures Valid() && lowWayNow == Taken(cs[..i + 1], cbmLength)
      ensures |pool| == |old(pool)| && Shape(pool[j]) == ShapeFor(cs, i)
      ensures forall k: nat | k < |pool| && k != j :: pool[k] == old(pool[k])
      ensures !external ==> j + 1 in capacity && capacity[j + 1] == pool[j].partMask
      ensures forall a, k, mask | k != j && old(Home(a, k, mask)) :: Home(a, k, mask)
    {
      Reshaped(pool, cat, j, ShapeFor(cs, i).(apps := pool[j].apps, nrApps := pool[j].nrApps));
      Elsewhere(j, MaskFor(cs, i, cbmLength));
      hide Membership;
      hide ListsOf;
      hide ClassesOf;
      hide InUse;
      hide Placeable;
      hide Taken;
      hide LowWay;
      hide MaskFor;
      lowWayNow := WriteShape(cs, i, j, lowWay);
    }

    // Cluster i moves into the partition at index j; the clusters before it stay where they are.
    method Install(cs: seq<Cluster>, i: nat, j: nat, lowWay: int, ghost chosen: seq<nat>) returns (lowWayNow: int)
      requires Valid() && Placeable(cs, cbmLength) && Clustered(cs) && i < |cs|
      requires i == |chosen| && j !in chosen && AllHosted(cs, chosen)
      requires j in assigned_ && j < |pool| && lowWay == Taken(cs[..i], cbmLength)
      modifies this`pool, this`cat, this`cosId, this`lastCbm, this`capacity
      ensures Valid() && cat.Keys == old(cat.Keys) && |pool| == |old(pool)| && lowWayNow == Taken(cs[..i + 1], cbmLength)
      ensures AllHosted(cs, chosen + [j])
    {
      ClusterApps(cs, i);
      hide Valid;
      hide Clustered;
      hide Home;
      hide Taken;
      hide LowWay;
      hide MaskFor;
      hide Placeable;
      lowWayNow := ConfigureFor(cs, i, j, lowWay);
      label Configured:
      SettleAll(cs[i].apps, j);
      assert Hosted(cs, i, j);
      forall k: nat | k < i ensures Hosted(cs, k, chosen[k]) {
        var m := chosen[k];
        assert old(Hosted(cs, k, m)) && m in chosen;
        forall a | a in cs[k].apps ensures Home(a, m, MaskFor(cs, k, cbmLength)) {
          assert old(Home(a, m, MaskFor(cs, k, cbmLength)));
          assert old@Configured(Home(a, m, MaskFor(cs, k, cbmLength)));
        }
      }
    }

    // One iteration of the second step.
    method PlaceCluster(cs: seq<Cluster>, i: nat, defaultCluster: int, used: nat, reserved: nat, lowWay: int, ghost chosen: seq<nat>)
      returns (j: nat, reservedNow: nat, lowWayNow: int)
      requires Valid() && Placeable(cs, cbmLength) && Clustered(cs) && i < |cs| && lowWay == Taken(cs[..i], cbmLength)
      requires i == |chosen| < |assigned_| && LeastOf(chosen, assigned_)
      requires HasBits(used, assigned_) && HasBits(reserved, chosen)
      requires AllHosted(cs, chosen)
      modifies this`pool, this`defaultPartition, this`cat, this`cosId, this`lastCbm, this`capacity
      ensures Valid() && cat.Keys == old(cat.Keys) && |pool| == |old(pool)| && lowWayNow == Taken(cs[..i + 1], cbmLength)
      ensures LeastOf(chosen + [j], assigned_) && HasBits(reservedNow, chosen + [j])
      ensures AllHosted(cs, chosen + [j])
      ensures defaultPartition == if defaultCluster == i then j else old(defaultPartition)
    {
      PoolBounds();
      hide *;
      j := FirstAvailable(used, reserved, chosen, assigned_);
      reservedNow := SetBit(reserved, chosen, j);
      lowWayNow := Install(cs, i, j, lowWay, chosen);
      if defaultCluster == i {
        defaultPartition := j;
      }
    }

    /** Every application is in the partition of its cluster, so no other partition has any. */
    lemma OnlyMembers(cs: seq<Cluster>, chosen: seq<nat>)
      requires Valid() && Placeable(cs, cbmLength) && Clustered(cs) && forall a <- cat :: a in Members(cs)
      requires |chosen| == |cs| && AllHosted(cs, chosen) && NoDuplicates(chosen)
      ensures forall j: nat | j < |pool| && j !in chosen :: pool[j].nrApps == 0
      ensures forall i: nat | i < |cs| :: Elements(pool[chosen[i]].apps) == Elements(cs[i].apps) && pool[chosen[i]].nrApps == |cs[i].apps|
    {
      hide Members;
      forall j: nat, a | j < |pool| && a in pool[j].apps ensures exists c: nat :: c < |cs| && chosen[c] == j && a in cs[c].apps {
        assert a in Members(cs);
        MemberOfOne(cs, a);
        var c: nat :| InCluster(cs, c, a);
        assert Hosted(cs, c, chosen[c]) && Home(a, chosen[c], MaskFor(cs, c, cbmLength));
      }
      forall j: nat | j < |pool| && j !in chosen ensures pool[j].nrApps == 0 {
        assert Elements(pool[j].apps) == {};
        DistinctCount(pool[j].apps);
      }
      DistinctClusters(cs);
      forall i: nat | i < |cs|
        ensures Elements(pool[chosen[i]].apps) == Elements(cs[i].apps) && pool[chosen[i]].nrApps == |cs[i].apps|
      {
        assert Hosted(cs, i, chosen[i]);
        assert forall a <- cs[i].apps :: Home(a, chosen[i], MaskFor(cs, i, cbmLength));
        DistinctCount(pool[chosen[i]].apps);
        DistinctCount(cs[i].apps);
      }
    }

    // Third step: the partitions that lost their applications go back to the pool, but for the default one.
    method RemoveExtra(partitionsToRemove: int)
      requires Valid() && |assigned_| - |Kept(assigned_, pool, defaultPartition)| <= Positive(partitionsToRemove)
      modifies this`assigned_, this`spare
      ensures Valid() && assigned_ == Kept(old(assigned_), pool, defaultPartition)
      ensures spare == Dropped(old(assigned_), pool, defaultPartition) + old(spare)
    {
      hide Valid;
      hide Kept;
      hide Dropped;
      hide RemoveAt;
      hide Shape;
      ghost var kept: seq<nat>, ahead, ps := [], assigned_, pool;
      var i, toRemove := 0, partitionsToRemove;
      assert [] + assigned_ == assigned_ && [] + Kept(assigned_, ps, defaultPartition) == Kept(assigned_, ps, defaultPartition);
      while i < |assigned_| && toRemove > 0
        invariant Valid() && 0 <= i == |kept| && assigned_ == kept + ahead
        invariant kept + Kept(ahead, ps, defaultPartition) == Kept(old(assigned_), ps, defaultPartition)
        invariant |ahead| - |Kept(ahead, ps, defaultPartition)| <= Positive(toRemove)
        invariant Dropped(ahead, ps, defaultPartition) + spare == Dropped(old(assigned_), ps, defaultPartition) + old(spare)
        decreases |ahead|
      {
        ghost var pooled := spare;
        PoolBounds();
        KeptStep(kept, ahead, ps, defaultPartition);
        var cur := assigned_[i];
        assert cur == ahead[0] && cur in assigned_;
        if defaultPartition != cur && pool[cur].nrApps == 0 {
          DeallocatePartitionNoResize(i);
          toRemove := toRemove - 1;
        } else {
          kept := kept + [cur];
          i := i + 1;
        }
        ahead := ahead[1..];
        assert Dropped(ahead, ps, defaultPartition) + [] == Dropped(ahead, ps, defaultPartition);
        assert (Dropped(ahead, ps, defaultPartition) + [cur]) + pooled == Dropped(ahead, ps, defaultPartition) + ([cur] + pooled);
      }
      KeptAll(ahead, ps, defaultPartition);
      assert [] + spare == spare;
    }

    /** What enforce_cluster_partitioning asks for: every application in one cluster, and room for the clusters. */
    ghost predicate Enforceable(cs: seq<Cluster>, nrPartitions: nat)
      reads this`cat
    {
      && 0 < |cs| < MAX_CLUSTERS && |cs| <= nrPartitions && Placeable(cs, cbmLength)
      && Clustered(cs) && (forall a <- cat :: a in Members(cs))
      && forall i | 0 <= i < |cs| :: cs[i].apps != []
    }

    // Second step: a partition for each cluster, lowest index first.
    method PlaceAll(cs: seq<Cluster>, defaultCluster: int, used: nat) returns (ghost chosen: seq<nat>)
      requires Valid() && Enforceable(cs, |pool|) && HasBits(used, assigned_) && |cs| <= |assigned_|
      modifies this`pool, this`defaultPartition, this`cat, this`cosId, this`lastCbm, this`capacity
      ensures Valid() && Enforceable(cs, |pool|) && |pool| == |old(pool)| && |chosen| == |cs| && LeastOf(chosen, assigned_) && AllHosted(cs, chosen)
      ensures defaultPartition == if 0 <= defaultCluster < |cs| then chosen[defaultCluster] else old(defaultPartition)
    {
      chosen := [];
      var reserved, lowWay := 0, 0;
      forall j: nat ensures !Bit(0, j) {
        ZeroHasNoBit(j);
      }
      assert cs[..0] == [];
      hide Valid;
      hide Bit;
      hide LeastOf;
      hide HasBits;
      hide Taken;
      hide Members;
      hide Hosted;
      NoneChosen(assigned_);
      for i := 0 to |cs|
        invariant Valid() && Clustered(cs) && cat.Keys == old(cat.Keys) && |pool| == |old(pool)|
        invariant |chosen| == i && LeastOf(chosen, assigned_) && HasBits(reserved, chosen) && lowWay == Taken(cs[..i], cbmLength)
        invariant AllHosted(cs, chosen)
        invariant defaultPartition == if 0 <= defaultCluster < i then chosen[defaultCluster] else old(defaultPartition)
      {
        var j: nat;
        j, reserved, lowWay := PlaceCluster(cs, i, defaultCluster, used, reserved, lowWay, chosen);
        chosen := chosen + [j];
      }
    }

    /**
     * enforce_cluster_partitioning.  Each cluster gets a partition of its own, the lowest in use;
     * partitions that are neither chosen nor the default one go back to the pool.
     */
    method EnforceClusterPartitioning(cs: seq<Cluster>, defaultCluster: int) returns (ghost chosen: seq<nat>)
      requires Valid() && Enforceable(cs, |pool|)
      modifies this
      ensures Valid() && Placeable(cs, cbmLength) && |chosen| == |cs| && NoDuplicates(chosen)
      ensures Missing(|cs|, |old(assigned_)|) <= |old(spare)|
      ensures LeastOf(chosen, old(assigned_) + old(spare)[..Missing(|cs|, |old(assigned_)|)])
      ensures AllHosted(cs, chosen)
      ensures forall i: nat | i < |cs| ::
                Elements(pool[chosen[i]].apps) == Elements(cs[i].apps) && pool[chosen[i]].nrApps == |cs[i].apps|
      ensures defaultPartition == if 0 <= defaultCluster < |cs| then chosen[defaultCluster] else old(defaultPartition)
      ensures var inUse := old(assigned_) + old(spare)[..Missing(|cs|, |old(assigned_)|)];
              && assigned_ == Kept(inUse, pool, defaultPartition)
              && spare == Dropped(inUse, pool, defaultPartition) + old(spare)[Missing(|cs|, |old(assigned_)|)..]
      ensures forall j: nat :: j in assigned_ <==> j in chosen || (j == defaultPartition && j in old(assigned_))
      ensures 0 <= defaultCluster < |cs| ==> |assigned_| == |cs|
    {
      hide *;
      InPool(cs);
      var oldClusterCount := |assigned_|;
      var used := AllocateNecessary(|cs|);
      Enough(|cs|, oldClusterCount);
      chosen := PlaceAll(cs, defaultCluster, used);
      AfterPlacing(cs, chosen, old(assigned_));
      var partitionsToRemove := oldClusterCount - |cs|;
      if partitionsToRemove != 0 {
        RemoveExtra(partitionsToRemove);
      } else {
        assert [] + spare == spare;
      }
      PoolBounds();
      if 0 <= defaultCluster < |cs| {
        assert defaultPartition in chosen;
        SameCount(assigned_, chosen);
      }
    }

    lemma InPool(cs: seq<Cluster>)
      requires Enforceable(cs, |pool|)
      ensures |cs| <= |pool| && Placeable(cs, cbmLength)
    {
    }

    lemma AfterPlacing(cs: seq<Cluster>, chosen: seq<nat>, before: seq<nat>)
      requires Valid() && Enforceable(cs, |pool|) && |chosen| == |cs| && LeastOf(chosen, assigned_) && AllHosted(cs, chosen)
      requires before <= assigned_ && |assigned_| == |before| + Missing(|cs|, |before|)
      ensures NoDuplicates(chosen)
      ensures forall i: nat | i < |cs| :: chosen[i] < |pool| &&
                Elements(pool[chosen[i]].apps) == Elements(cs[i].apps) && pool[chosen[i]].nrApps == |cs[i].apps|
      ensures var r := Kept(assigned_, pool, defaultPartition);
              && (forall j: nat :: j in r <==> j in chosen || (j == defaultPartition && j in before))
              && |assigned_| - |r| <= Positive(|before| - |cs|)
              && (|before| == |cs| ==> r == assigned_)
    {
      PoolBounds();
      OnlyMembers(cs, chosen);
      hide Valid;
      hide Kept;
      hide Placeable;
      hide Clustered;
      hide Shape;
      hide Home;
      KeptAre(cs, chosen, assigned_, before, pool, defaultPartition);
    }

    lemma PoolBounds()
      requires Valid()
      ensures NoDuplicates(assigned_) && |assigned_| <= |pool| <= MAX_CLUSTERS && forall j <- assigned_ :: j < |pool|
    {
      NoDuplicatesConcat(assigned_, spare);
    }
  }
}

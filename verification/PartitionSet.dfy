/**
 * The set of cache partitions of src/modules/pmcs/cache_part_set.c.
 *
 * Inserting or removing a partition shares the ways out again: every partition gets
 * the fair share, and the remainder goes first to the neighbours of the place where
 * the change happened and then in scan order.  The scan runs left to right or right
 * to left.  A newly inserted partition never gets an extra way.
 */
module PartitionSet {
  import opened Arithmetic
  import opened Masks
  import opened Sequences

  // ---------------------------------------------------------------------------
  // Sharing out the remainder
  // ---------------------------------------------------------------------------

  /** Who may get an extra way among n partitions: give are for the two neighbours, rest for anybody but barred. */
  datatype Plan = Plan(n: nat, first: int, second: int, barred: int, give: nat, rest: nat)
  {
    ghost predicate Valid() {
      && (give > 0 ==> 0 <= first < second < n && barred != first && barred != second)
      && (give == 0 ==> rest < n)
      && (give == 1 ==> rest == 0)
      && (give >= 2 ==> give == 2 && rest + 3 <= n)
    }

    function Mirror(): Plan {
      Plan(n, n - 1 - second, n - 1 - first, n - 1 - barred, give, rest)
    }
  }

  datatype Left = Left(give: nat, rest: nat)
  {
    function Total(): nat { give + rest }
  }

  /** The decision taken for partition i. */
  function Grant(p: Plan, l: Left, i: int): Left {
    if l.give > 0 && (i == p.first || i == p.second) then Left(l.give - 1, l.rest)
    else if l.rest > 0 && i != p.barred then Left(l.give, l.rest - 1)
    else l
  }

  /** What is left after the scan has seen partitions 0..k. */
  function After(p: Plan, k: nat): (l: Left)
    ensures l.Total() <= p.give + p.rest
  {
    if k == 0 then Left(p.give, p.rest) else Grant(p, After(p, k - 1), k - 1)
  }

  // Enough places for the extra ways remain ahead of the scan.
  lemma {:induction false} RoomAhead(p: Plan, k: nat)
    requires p.Valid() && k <= p.n
    ensures var l := After(p, k);
            var f, s, b := if p.first >= k then 1 else 0, if p.second >= k then 1 else 0,
                           if k <= p.barred < p.n then 1 else 0;
            && l.give <= p.give && l.give <= f + s
            && l.rest <= p.n - k - b - if l.give == 0 then 0 else f + s
  {
    if k > 0 {
      RoomAhead(p, k - 1);
      if p.give > 0 {
        DistinctAhead(p, k);
      }
    }
  }

  // The neighbours and the barred partition that are still ahead are different partitions.
  lemma DistinctAhead(p: Plan, k: nat)
    requires p.Valid() && k <= p.n && p.give > 0
    ensures (if p.first >= k then 1 else 0) + (if p.second >= k then 1 else 0)
            + (if k <= p.barred < p.n then 1 else 0) <= p.n - k
  {
  }

  /** The whole remainder is handed out. */
  lemma AllHandedOut(p: Plan)
    requires p.Valid()
    ensures After(p, p.n) == Left(0, 0)
  {
    RoomAhead(p, p.n);
  }

  lemma MirrorValid(p: Plan)
    requires p.Valid()
    ensures p.Mirror().Valid()
  {
  }

  /** How many extra ways partitions 0..i get together. */
  function ExtrasBefore(p: Plan, ascending: bool, i: nat): int
    requires i <= p.n
  {
    if ascending then p.give + p.rest - After(p, i).Total() else After(p.Mirror(), p.n - i).Total()
  }

  lemma ExtraIsOneOrNone(p: Plan, ascending: bool, i: nat)
    requires i < p.n
    ensures 0 <= ExtrasBefore(p, ascending, i + 1) - ExtrasBefore(p, ascending, i) <= 1
    ensures i == p.barred && p.barred != p.first && p.barred != p.second ==>
              ExtrasBefore(p, ascending, i + 1) == ExtrasBefore(p, ascending, i)
  {
    if !ascending {
      assert p.n - i == (p.n - (i + 1)) + 1;
    }
  }

  lemma ExtrasEnds(p: Plan, ascending: bool)
    requires p.Valid()
    ensures ExtrasBefore(p, ascending, 0) == 0 && ExtrasBefore(p, ascending, p.n) == p.give + p.rest
  {
    hide After;
    var q := if ascending then p else p.Mirror();
    MirrorValid(p);
    AllHandedOut(q);
    ScanBegins(q);
  }

  lemma ScanBegins(p: Plan)
    ensures After(p, 0) == Left(p.give, p.rest)
  {
  }

  /** The place of one partition in the range of ways. */
  datatype Slot = Slot(low: int, high: int, nrWays: int, id: int, extra: bool)

  function LowOf(p: Plan, ascending: bool, fair: int, i: nat): int
    requires i <= p.n
  {
    i * fair + ExtrasBefore(p, ascending, i)
  }

  function SlotOf(p: Plan, ascending: bool, fair: int, i: nat): Slot
    requires i < p.n
  {
    var low, next := LowOf(p, ascending, fair, i), LowOf(p, ascending, fair, i + 1);
    Slot(low, next - 1, next - low, i, ExtrasBefore(p, ascending, i + 1) > ExtrasBefore(p, ascending, i))
  }

  lemma ScanStart(p: Plan, fair: int)
    ensures After(p, 0) == Left(p.give, p.rest) && LowOf(p, true, fair, 0) == 0
  {
  }

  lemma ScanEnd(p: Plan, nrWays: nat)
    requires p.Valid() && p.n > 0 && p.give + p.rest == nrWays % p.n
    ensures After(p.Mirror(), 0) == Left(p.give, p.rest) && LowOf(p, false, nrWays / p.n, p.n) == nrWays
  {
    DivMod(nrWays, p.n);
  }

  lemma LowNonNegative(p: Plan, ascending: bool, fair: nat, i: nat)
    requires i <= p.n
    ensures LowOf(p, ascending, fair, i) >= 0
  {
    MulNonNegative(i, fair);
  }

  // The left-to-right scan computes the slots in order.
  lemma NextSlotAscending(p: Plan, fair: nat, i: nat)
    requires i < p.n
    ensures var l := After(p, i);
            var e := l.Total() - Grant(p, l, i).Total();
            var low := LowOf(p, true, fair, i);
            && 0 <= e <= 1 && low >= 0
            && After(p, i + 1) == Grant(p, l, i)
            && LowOf(p, true, fair, i + 1) == low + fair + e
            && SlotOf(p, true, fair, i) == Slot(low, low + fair + e - 1, fair + e, i, e == 1)
  {
    MulSub(i + 1, i, fair);
    LowNonNegative(p, true, fair, i);
  }

  lemma MirrorGrant(p: Plan, l: Left, i: int)
    ensures Grant(p.Mirror(), l, p.n - 1 - i) == Grant(p, l, i)
  {
  }

  // The right-to-left scan computes the same slots from the other end.
  lemma NextSlotDescending(p: Plan, fair: nat, i: nat, l: Left, g: Left, e: int, next: int)
    requires i < p.n
    requires l == After(p.Mirror(), p.n - 1 - i) && g == Grant(p, l, i) && e == l.Total() - g.Total()
    requires next == LowOf(p, false, fair, i + 1)
    ensures 0 <= e <= 1 && After(p.Mirror(), p.n - i) == g
    ensures LowOf(p, false, fair, i) == next - fair - e >= 0
    ensures SlotOf(p, false, fair, i) == Slot(next - fair - e, next - 1, fair + e, i, e == 1)
  {
    ExtrasDescending(p, i);
    hide After;
    hide Grant;
    LowNonNegative(p, false, fair, i);
    hide ExtrasBefore;
    MulSub(i + 1, i, fair);
  }

  lemma ExtrasDescending(p: Plan, i: nat)
    requires i < p.n
    ensures var l := After(p.Mirror(), p.n - 1 - i);
            var e := l.Total() - Grant(p, l, i).Total();
            && 0 <= e <= 1
            && After(p.Mirror(), p.n - i) == Grant(p, l, i)
            && ExtrasBefore(p, false, i) == ExtrasBefore(p, false, i + 1) - e
  {
    MirrorGrant(p, After(p.Mirror(), p.n - 1 - i), i);
  }

  /** An exact tiling of [0, nrWays) in list order, by fair shares and shares of one way more. */
  ghost predicate Tiling(slots: seq<Slot>, nrWays: nat) {
    slots != [] ==>
      && slots[0].low == 0 && slots[|slots| - 1].high == nrWays - 1
      && (forall i | 0 <= i < |slots| - 1 :: slots[i + 1].low == slots[i].high + 1)
      && (forall i | 0 <= i < |slots| ::
            && slots[i].nrWays == slots[i].high - slots[i].low + 1
            && slots[i].nrWays == nrWays / |slots| + (if slots[i].extra then 1 else 0)
            && slots[i].id == i)
  }

  lemma NothingTiles(nrWays: nat)
    ensures Tiling([], nrWays)
  {
  }

  lemma SlotsTile(p: Plan, ascending: bool, nrWays: nat, fair: nat, slots: seq<Slot>)
    requires p.Valid() && p.n > 0 && p.give + p.rest == nrWays % p.n && fair == nrWays / p.n && |slots| == p.n
    requires forall i: nat | i < p.n :: slots[i] == SlotOf(p, ascending, fair, i)
    ensures Tiling(slots, nrWays)
  {
    hide LowOf;
    hide After;
    hide ExtrasBefore;
    EndsOfCache(p, ascending, nrWays, fair);
    forall i: nat | i < p.n
      ensures slots[i].nrWays == fair + if slots[i].extra then 1 else 0
    {
      SlotWidth(p, ascending, fair, i);
    }
  }

  lemma EndsOfCache(p: Plan, ascending: bool, nrWays: nat, fair: nat)
    requires p.Valid() && p.n > 0 && p.give + p.rest == nrWays % p.n && fair == nrWays / p.n
    ensures LowOf(p, ascending, fair, 0) == 0 && LowOf(p, ascending, fair, p.n) == nrWays
  {
    hide After;
    hide ExtrasBefore;
    ExtrasEnds(p, ascending);
    DivMod(nrWays, p.n);
  }

  lemma SlotWidth(p: Plan, ascending: bool, fair: nat, i: nat)
    requires i < p.n
    ensures var slot := SlotOf(p, ascending, fair, i); slot.nrWays == fair + if slot.extra then 1 else 0
  {
    hide After;
    hide ExtrasBefore;
    ExtraIsOneOrNone(p, ascending, i);
    MulSub(i + 1, i, fair);
  }

  // ---------------------------------------------------------------------------
  // What a tiling means for the masks
  // ---------------------------------------------------------------------------

  function CountExtra(slots: seq<Slot>): nat {
    if slots == [] then 0 else CountExtra(slots[..|slots| - 1]) + if slots[|slots| - 1].extra then 1 else 0
  }

  /** Slots laid out one after the other, whatever their widths. */
  ghost predicate Chained(slots: seq<Slot>) {
    && (slots != [] ==> slots[0].low == 0)
    && (forall i | 0 <= i < |slots| - 1 :: slots[i + 1].low == slots[i].high + 1)
    && (forall i | 0 <= i < |slots| :: slots[i].nrWays == slots[i].high - slots[i].low + 1 >= 1)
  }

  lemma TilingChained(slots: seq<Slot>, nrWays: nat)
    requires Tiling(slots, nrWays) && |slots| <= nrWays
    ensures Chained(slots)
  {
    if slots != [] {
      DivMonotone(|slots|, nrWays, |slots|);
    }
  }

  lemma OneMore(fair: int, n: int)
    ensures fair * n == fair * (n - 1) + fair
  {
  }

  lemma {:induction false} ChainedEnd(slots: seq<Slot>, fair: int)
    requires Chained(slots) && slots != []
    requires forall i | 0 <= i < |slots| :: slots[i].nrWays == fair + if slots[i].extra then 1 else 0
    ensures slots[|slots| - 1].high + 1 == fair * |slots| + CountExtra(slots)
  {
    var n := |slots|;
    var prefix := slots[..n - 1];
    if prefix != [] {
      ChainedEnd(prefix, fair);
      assert prefix[n - 2] == slots[n - 2] && slots[(n - 2) + 1].low == slots[n - 2].high + 1;
      OneMore(fair, n);
    }
  }

  /** The number of partitions with an extra way is the remainder: nr_bouncing_ways. */
  lemma BouncingWays(slots: seq<Slot>, nrWays: nat)
    requires Tiling(slots, nrWays) && 0 < |slots| <= nrWays
    ensures CountExtra(slots) == nrWays % |slots|
  {
    TilingChained(slots, nrWays);
    ChainedEnd(slots, nrWays / |slots|);
    DivMod(nrWays, |slots|);
  }

  lemma {:induction false} ChainOrdered(slots: seq<Slot>, i: nat, j: nat)
    requires Chained(slots) && i < j < |slots|
    ensures 0 <= slots[i].low <= slots[i].high < slots[j].low
    decreases j
  {
    if i > 0 {
      ChainOrdered(slots, 0, i);
    }
    if i < j - 1 {
      ChainOrdered(slots, i, j - 1);
    }
  }

  lemma ChainNonNegative(slots: seq<Slot>, i: nat)
    requires Chained(slots) && i < |slots|
    ensures slots[i].low >= 0
  {
    if i > 0 {
      ChainOrdered(slots, 0, i);
    }
  }

  function SlotMask(s: Slot): nat
    requires s.low >= 0 && s.nrWays >= 0
  {
    MaskOf(s.nrWays, s.low)
  }

  lemma {:induction false} WayHasOwner(slots: seq<Slot>, w: nat) returns (i: nat)
    requires Chained(slots) && slots != [] && w <= slots[|slots| - 1].high
    ensures i < |slots| && slots[i].low <= w <= slots[i].high
  {
    if |slots| == 1 || w >= slots[|slots| - 1].low {
      i := |slots| - 1;
    } else {
      assert slots[..|slots| - 1][|slots| - 2] == slots[|slots| - 2];
      i := WayHasOwner(slots[..|slots| - 1], w);
    }
  }

  /** Every way belongs to the mask of exactly one partition, and masks have no bits beyond the cache. */
  lemma MasksPartitionCache(slots: seq<Slot>, nrWays: nat, w: nat) returns (owner: nat)
    requires Tiling(slots, nrWays) && 0 < |slots| <= nrWays
    ensures forall i | 0 <= i < |slots| :: slots[i].low >= 0 && slots[i].nrWays >= 1
    ensures w < nrWays ==> owner < |slots| && forall i | 0 <= i < |slots| :: Bit(SlotMask(slots[i]), w) <==> i == owner
    ensures w >= nrWays ==> forall i | 0 <= i < |slots| :: !Bit(SlotMask(slots[i]), w)
  {
    TilingChained(slots, nrWays);
    owner := 0;
    if w < nrWays {
      owner := WayHasOwner(slots, w);
    }
    forall i | 0 <= i < |slots|
      ensures slots[i].low >= 0 && slots[i].nrWays >= 1
      ensures Bit(SlotMask(slots[i]), w) <==> w < nrWays && i == owner
    {
      ChainNonNegative(slots, i);
      MaskBits(slots[i].nrWays, slots[i].low, w);
      if i < owner {
        ChainOrdered(slots, i, owner);
      } else if owner < i {
        ChainOrdered(slots, owner, i);
      }
      if i < |slots| - 1 {
        ChainOrdered(slots, i, |slots| - 1);
      }
    }
  }

  function MaskSum(slots: seq<Slot>): int
    requires forall i | 0 <= i < |slots| :: slots[i].low >= 0 && slots[i].nrWays >= 0
  {
    if slots == [] then 0 else MaskSum(slots[..|slots| - 1]) + SlotMask(slots[|slots| - 1])
  }

  lemma {:induction false} ChainedMaskSum(slots: seq<Slot>)
    requires Chained(slots) && slots != []
    ensures forall i | 0 <= i < |slots| :: slots[i].low >= 0
    ensures slots[|slots| - 1].high >= 0 && MaskSum(slots) == MaskOf(slots[|slots| - 1].high + 1, 0)
  {
    var n := |slots|;
    var prefix, last := slots[..n - 1], slots[n - 1];
    if prefix == [] {
      assert MaskSum(prefix) == 0;
    } else {
      ChainedMaskSum(prefix);
      assert prefix[n - 2] == slots[n - 2] && slots[(n - 2) + 1].low == slots[n - 2].high + 1;
      MasksJoin(last.low, last.nrWays, 0);
    }
  }

  /** The masks of a tiling add up to the full mask of the cache. */
  lemma MasksAddUp(slots: seq<Slot>, nrWays: nat)
    requires Tiling(slots, nrWays) && 0 < |slots| <= nrWays
    ensures forall i | 0 <= i < |slots| :: slots[i].low >= 0 && slots[i].nrWays >= 0
    ensures MaskSum(slots) == Pow2(nrWays) - 1
  {
    TilingChained(slots, nrWays);
    ChainedMaskSum(slots);
  }

  // ---------------------------------------------------------------------------
  // Who gets an extra way
  // ---------------------------------------------------------------------------

  /** The neighbours of the place where the change happened come first: with two ways to give, both get one. */
  lemma NeighboursServed(p: Plan, ascending: bool)
    requires p.Valid() && p.give == 2
    ensures ExtrasBefore(p, ascending, p.first + 1) == ExtrasBefore(p, ascending, p.first) + 1
    ensures ExtrasBefore(p, ascending, p.second + 1) == ExtrasBefore(p, ascending, p.second) + 1
  {
    hide After;
    if ascending {
      NeighbourGranted(p, p.first);
      NeighbourGranted(p, p.second);
    } else {
      MirrorValid(p);
      NeighbourGranted(p.Mirror(), p.n - 1 - p.first);
      NeighbourGranted(p.Mirror(), p.n - 1 - p.second);
    }
  }

  lemma NeighbourGranted(p: Plan, k: nat)
    requires p.Valid() && p.give == 2 && (k == p.first || k == p.second)
    ensures After(p, k + 1).Total() == After(p, k).Total() - 1
  {
    NeighbourCount(p, k);
  }

  lemma {:induction false} NeighbourCount(p: Plan, k: nat)
    requires p.Valid() && p.give == 2 && k <= p.n
    ensures After(p, k).give == 2 - (if p.first < k then 1 else 0) - (if p.second < k then 1 else 0)
  {
    if k > 0 {
      NeighbourCount(p, k - 1);
    }
  }

  /** The scan sees position i before position j. */
  predicate Sooner(i: int, j: int, ascending: bool) {
    if ascending then i < j else j < i
  }

  /**
   * Who has an extra way when nrWays are shared out.  At an inner place, both neighbours lo and
   * hi come first; with one extra way, the one that the scan meets first gets it and nobody
   * else.  The others get what remains in scan order; barred gets none.
   */
  ghost predicate SharedOut(slots: seq<Slot>, inner: bool, lo: int, hi: int, barred: int, ascending: bool, nrWays: nat)
    requires slots != []
  {
    var n, remainder := |slots|, nrWays % |slots|;
    && (remainder == 0 ==> forall i | 0 <= i < n :: !slots[i].extra)
    && (inner && remainder == 1 ==> forall i | 0 <= i < n :: slots[i].extra <==> i == if ascending then lo else hi)
    && (inner && remainder >= 2 ==> 0 <= lo < hi < n && slots[lo].extra && slots[hi].extra)
    && (0 <= barred < n ==> !slots[barred].extra)
    && forall i, j | 0 <= i < n && 0 <= j < n && Sooner(i, j, ascending) && slots[j].extra ::
         Ordinary(i, inner, lo, hi, barred) && Ordinary(j, inner, lo, hi, barred) ==> slots[i].extra
  }

  predicate Ordinary(i: int, inner: bool, lo: int, hi: int, barred: int) {
    i != barred && !(inner && (i == lo || i == hi))
  }

  /** The scan gives the partition at position k an extra way. */
  predicate Granted(p: Plan, k: nat) {
    After(p, k + 1).Total() < After(p, k).Total()
  }

  lemma {:induction false} RestShrinks(p: Plan, k: nat, m: nat)
    requires k <= m
    ensures After(p, m).rest <= After(p, k).rest && After(p, m).give <= After(p, k).give
    decreases m
  {
    if k < m {
      RestShrinks(p, k, m - 1);
    }
  }

  // Who is neither barred nor a neighbour with something to give gets an extra way while there is one.
  lemma OrdinaryGranted(p: Plan, k: nat)
    requires k != p.barred && (p.give == 0 || (k != p.first && k != p.second))
    ensures Granted(p, k) <==> After(p, k).rest > 0
  {
    RestShrinks(p, 0, k);
  }

  lemma OrdinaryInOrder(p: Plan, k: nat, m: nat)
    requires k < m && k != p.barred && m != p.barred
    requires p.give == 0 || (k != p.first && k != p.second && m != p.first && m != p.second)
    ensures Granted(p, m) ==> Granted(p, k)
  {
    OrdinaryGranted(p, k);
    OrdinaryGranted(p, m);
    RestShrinks(p, k, m);
  }

  // With one way to give and no other, nobody gets it before the first neighbour, and nobody after.
  lemma {:induction false} StillToGive(p: Plan, k: nat)
    requires p.Valid() && p.give == 1 && k <= p.first
    ensures After(p, k).give == 1 && After(p, k).rest == 0
  {
    if k > 0 {
      StillToGive(p, k - 1);
    }
  }

  lemma GivenAway(p: Plan, k: nat)
    requires p.Valid() && p.give == 1 && k > p.first
    ensures After(p, k).Total() == 0
  {
    StillToGive(p, p.first);
    RestShrinks(p, p.first + 1, k);
  }

  lemma GrantedMeans(p: Plan, k: nat)
    ensures Granted(p, k) <==> After(p, k + 1).Total() < After(p, k).Total()
  {
  }

  lemma FirstIsGranted(p: Plan, k: nat)
    requires p.Valid() && p.give == 1 && k == p.first
    ensures Granted(p, k)
  {
    hide After;
    hide Granted;
    GrantedMeans(p, k);
    StillToGive(p, k);
    GivenAway(p, k + 1);
  }

  lemma OnlyFirstIsGranted(p: Plan, k: nat)
    requires p.Valid() && p.give == 1 && k != p.first
    ensures !Granted(p, k)
  {
    hide After;
    hide Granted;
    GrantedMeans(p, k);
    if k < p.first {
      StillToGive(p, k);
      StillToGive(p, k + 1);
    } else {
      GivenAway(p, k);
    }
  }

  lemma NoneToGive(p: Plan, k: nat)
    requires p.give == 0 && p.rest == 0
    ensures !Granted(p, k)
  {
    RestShrinks(p, 0, k);
  }

  lemma ExtraIsGranted(p: Plan, ascending: bool, fair: int, i: nat)
    requires i < p.n
    ensures SlotOf(p, ascending, fair, i).extra
            <==> if ascending then Granted(p, i) else Granted(p.Mirror(), p.n - 1 - i)
  {
    hide After;
    assert p.n - i == (p.n - 1 - i) + 1;
  }

  /** What a plan must set aside for the neighbours. */
  ghost predicate SetsAside(p: Plan, inner: bool, remainder: nat) {
    && p.give + p.rest == remainder
    && p.give == if !inner then 0 else if remainder < 2 then remainder else 2
  }

  lemma PlanNeighbours(p: Plan, inner: bool, ascending: bool, fair: int, remainder: nat, i: nat)
    requires p.Valid() && SetsAside(p, inner, remainder) && i < p.n
    ensures remainder == 0 ==> !SlotOf(p, ascending, fair, i).extra
    ensures inner && remainder == 1 ==> (SlotOf(p, ascending, fair, i).extra <==> i == if ascending then p.first else p.second)
    ensures inner && remainder >= 2 && (i == p.first || i == p.second) ==> SlotOf(p, ascending, fair, i).extra
  {
    hide SlotOf;
    hide Granted;
    ExtraIsGranted(p, ascending, fair, i);
    MirrorValid(p);
    if ascending {
      ScanNeighbours(p, inner, remainder, i);
    } else {
      ScanNeighbours(p.Mirror(), inner, remainder, p.n - 1 - i);
    }
  }

  lemma ScanNeighbours(p: Plan, inner: bool, remainder: nat, k: nat)
    requires p.Valid() && SetsAside(p, inner, remainder) && k < p.n
    ensures remainder == 0 ==> !Granted(p, k)
    ensures inner && remainder == 1 ==> (Granted(p, k) <==> k == p.first)
    ensures inner && remainder >= 2 && (k == p.first || k == p.second) ==> Granted(p, k)
  {
    hide After;
    if remainder == 0 {
      NoneToGive(p, k);
    } else if inner && remainder == 1 {
      if k == p.first {
        FirstIsGranted(p, k);
      } else {
        OnlyFirstIsGranted(p, k);
      }
    } else if inner && (k == p.first || k == p.second) {
      NeighbourGranted(p, k);
    }
  }

  lemma PlanOthers(p: Plan, inner: bool, ascending: bool, fair: int, remainder: nat, i: nat, j: nat)
    requires p.Valid() && SetsAside(p, inner, remainder) && i < p.n && j < p.n
    requires Sooner(i, j, ascending) && SlotOf(p, ascending, fair, j).extra
    requires Ordinary(i, inner, p.first, p.second, p.barred) && Ordinary(j, inner, p.first, p.second, p.barred)
    ensures SlotOf(p, ascending, fair, i).extra
  {
    hide SlotOf;
    hide Granted;
    ExtraIsGranted(p, ascending, fair, i);
    ExtraIsGranted(p, ascending, fair, j);
    if ascending {
      OrdinaryInOrder(p, i, j);
    } else {
      OrdinaryInOrder(p.Mirror(), p.n - 1 - i, p.n - 1 - j);
    }
  }

  /** A scan of a plan that sets the right ways aside shares them out as it should. */
  lemma PlanShares(p: Plan, inner: bool, ascending: bool, nrWays: nat, fair: int, slots: seq<Slot>)
    requires p.Valid() && p.n == |slots| > 0 && SetsAside(p, inner, nrWays % p.n)
    requires inner ==> 0 <= p.first < p.second < p.n
    requires 0 <= p.barred < p.n ==> p.barred != p.first && p.barred != p.second
    requires forall i: nat | i < p.n :: slots[i] == SlotOf(p, ascending, fair, i)
    ensures SharedOut(slots, inner, p.first, p.second, p.barred, ascending, nrWays)
  {
    hide SlotOf;
    hide Plan.Valid;
    var remainder := nrWays % p.n;
    forall i: nat | i < p.n
      ensures remainder == 0 ==> !slots[i].extra
      ensures inner && remainder == 1 ==> (slots[i].extra <==> i == if ascending then p.first else p.second)
      ensures inner && remainder >= 2 && (i == p.first || i == p.second) ==> slots[i].extra
    {
      PlanNeighbours(p, inner, ascending, fair, remainder, i);
    }
    forall i: nat, j: nat | i < p.n && j < p.n && Sooner(i, j, ascending) && slots[j].extra
      ensures Ordinary(i, inner, p.first, p.second, p.barred) && Ordinary(j, inner, p.first, p.second, p.barred) ==> slots[i].extra
    {
      if Ordinary(i, inner, p.first, p.second, p.barred) && Ordinary(j, inner, p.first, p.second, p.barred) {
        PlanOthers(p, inner, ascending, fair, remainder, i, j);
      }
    }
    if 0 <= p.barred < p.n {
      BarredGetsNone(p, ascending, fair);
    }
  }

  lemma BarredGetsNone(p: Plan, ascending: bool, fair: int)
    requires 0 <= p.barred < p.n && p.barred != p.first && p.barred != p.second
    ensures !SlotOf(p, ascending, fair, p.barred).extra
  {
    hide ExtrasBefore;
    ExtraIsOneOrNone(p, ascending, p.barred);
  }

  lemma {:induction false} MoreExtras(s: seq<Slot>, t: seq<Slot>)
    requires |s| == |t| && forall i | 0 <= i < |s| :: s[i].extra ==> t[i].extra
    ensures CountExtra(s) <= CountExtra(t)
    ensures CountExtra(s) == CountExtra(t) ==> forall i | 0 <= i < |s| :: s[i].extra == t[i].extra
  {
    if s != [] {
      var n := |s| - 1;
      MoreExtras(s[..n], t[..n]);
      assert forall i | 0 <= i < n :: s[i] == s[..n][i] && t[i] == t[..n][i];
    }
  }

  // Where s has an extra way and t has none, every extra way of t is one of s.
  lemma SharedOutNested(s: seq<Slot>, t: seq<Slot>, inner: bool, lo: int, hi: int, barred: int, ascending: bool, nrWays: nat, k: nat)
    requires |s| == |t| > 0 && k < |s| && s[k].extra && !t[k].extra
    requires SharedOut(s, inner, lo, hi, barred, ascending, nrWays) && SharedOut(t, inner, lo, hi, barred, ascending, nrWays)
    ensures forall i | 0 <= i < |t| :: t[i].extra ==> s[i].extra
  {
    var remainder := nrWays % |s|;
    forall i | 0 <= i < |t| && t[i].extra ensures s[i].extra {
      if Ordinary(i, inner, lo, hi, barred) && i != k {
        assert Ordinary(k, inner, lo, hi, barred);
        assert Sooner(i, k, ascending) || Sooner(k, i, ascending);
      }
    }
  }

  /** These rules leave no choice: two tilings that follow them are the same. */
  lemma SharingDetermined(s: seq<Slot>, t: seq<Slot>, inner: bool, lo: int, hi: int, barred: int, ascending: bool, nrWays: nat)
    requires |s| == |t| && 0 < |s| <= nrWays && Tiling(s, nrWays) && Tiling(t, nrWays)
    requires SharedOut(s, inner, lo, hi, barred, ascending, nrWays) && SharedOut(t, inner, lo, hi, barred, ascending, nrWays)
    ensures s == t
  {
    BouncingWays(s, nrWays);
    BouncingWays(t, nrWays);
    hide Tiling;
    hide SharedOut;
    if k: nat :| k < |s| && s[k].extra && !t[k].extra {
      SharedOutNested(s, t, inner, lo, hi, barred, ascending, nrWays, k);
      MoreExtras(t, s);
    } else {
      MoreExtras(s, t);
    }
    SameExtras(s, t, nrWays, |s|);
  }

  lemma {:induction false} SameExtras(s: seq<Slot>, t: seq<Slot>, nrWays: nat, k: nat)
    requires |s| == |t| && 0 < |s| && Tiling(s, nrWays) && Tiling(t, nrWays) && k <= |s|
    requires forall i | 0 <= i < |s| :: s[i].extra == t[i].extra
    ensures s[..k] == t[..k]
  {
    if k > 0 {
      SameExtras(s, t, nrWays, k - 1);
      if k > 1 {
        assert s[k - 2] == s[..k - 1][k - 2] == t[..k - 1][k - 2] == t[k - 2];
        assert s[(k - 2) + 1].low == t[(k - 2) + 1].low;
      }
      assert s[k - 1] == t[k - 1];
      assert s[..k] == s[..k - 1] + [s[k - 1]] && t[..k] == t[..k - 1] + [t[k - 1]];
    }
  }

  // ---------------------------------------------------------------------------
  // The objects
  // ---------------------------------------------------------------------------

  /** cat_cache_part_t, without the list of applications. */
  class Partition {
    const closId: nat
    const partIndex: nat
    var lowWay: int
    var highWay: int
    var nrWays: int
    var partId: int
    var hasExtraWay: bool
    var bias: int
    var mask: nat
    var oldMask: nat
    var nrApps: nat

    constructor (index: nat, cbmLength: nat)
      ensures closId == index + 1 && partIndex == index && nrApps == 0 && partId == -1
    {
      closId, partIndex, partId := index + 1, index, -1;
      lowWay, highWay, nrWays, nrApps := 0, cbmLength - 1, cbmLength, 0;
      hasExtraWay, bias := false, 0;
      mask, oldMask := MaskOf(cbmLength, 0), MaskOf(cbmLength, 0);
    }

    ghost function AsSlot(): Slot
      reads this
    {
      Slot(lowWay, highWay, nrWays, partId, hasExtraWay)
    }

    /** Both mask fields describe the ways of the partition. */
    ghost predicate MaskOk()
      reads this
    {
      0 <= lowWay && 0 <= nrWays && mask == oldMask == MaskOf(nrWays, lowWay)
    }

    method Place(low: int, high: int, id: int, extra: bool)
      requires 0 <= low <= high + 1
      modifies this
      ensures AsSlot() == Slot(low, high, high - low + 1, id, extra) && MaskOk()
      ensures bias == 0 && nrApps == old(nrApps)
    {
      lowWay, highWay, nrWays := low, high, high - low + 1;
      partId, hasExtraWay, bias := id, extra, 0;
      mask := MaskOf(nrWays, lowWay);
      oldMask := mask;
    }
  }

  ghost function Slots(parts: seq<Partition>): (r: seq<Slot>)
    reads parts
    ensures |r| == |parts|
  {
    seq(|parts|, i requires 0 <= i < |parts| reads parts => parts[i].AsSlot())
  }

  ghost function Loads(ps: seq<Partition>): (r: seq<nat>)
    reads ps
    ensures |r| == |ps|
  {
    seq(|ps|, i requires 0 <= i < |ps| reads ps => ps[i].nrApps)
  }

  /** The partitions that had applications, in order. */
  ghost function Kept(ps: seq<Partition>, loads: seq<nat>): (r: seq<Partition>)
    requires |ps| == |loads|
    ensures |r| <= |ps|
  {
    if ps == [] then []
    else
      var n := |ps| - 1;
      Kept(ps[..n], loads[..n]) + if loads[n] > 0 then [ps[n]] else []
  }

  /** The first j partitions without applications, the last of them first: how they are put on the pool. */
  ghost function Emptied(ps: seq<Partition>, loads: seq<nat>, j: nat): seq<Partition>
    requires j <= |ps| == |loads|
  {
    if j == 0 then []
    else if loads[j - 1] == 0 then [ps[j - 1]] + Emptied(ps, loads, j - 1)
    else Emptied(ps, loads, j - 1)
  }

  lemma EmptiedNext(ps: seq<Partition>, loads: seq<nat>, j: nat, pool: seq<Partition>)
    requires j < |ps| == |loads|
    ensures Emptied(ps, loads, j + 1) + pool
         == if loads[j] == 0 then [ps[j]] + (Emptied(ps, loads, j) + pool) else Emptied(ps, loads, j) + pool
  {
  }

  /** The loop of remove_empty_partitions has kept what it should of the partitions before ahead. */
  ghost predicate Progress(ps: seq<Partition>, loads: seq<nat>, kept: seq<Partition>, ahead: seq<Partition>)
    requires |ps| == |loads|
  {
    && |ahead| <= |ps| && ahead == ps[|ps| - |ahead|..]
    && kept == Kept(ps[..|ps| - |ahead|], loads[..|ps| - |ahead|])
  }

  lemma ProgressStart(ps: seq<Partition>, loads: seq<nat>)
    requires |ps| == |loads|
    ensures Progress(ps, loads, [], ps)
  {
  }

  lemma ProgressStep(ps: seq<Partition>, loads: seq<nat>, kept: seq<Partition>, ahead: seq<Partition>)
    requires |ps| == |loads| && Progress(ps, loads, kept, ahead) && ahead != []
    ensures var j := |ps| - |ahead|;
            && ps[j] == ahead[0]
            && Progress(ps, loads, if loads[j] > 0 then kept + [ahead[0]] else kept, ahead[1..])
  {
    KeptNext(ps, loads, |ps| - |ahead|);
  }

  lemma ProgressEnd(ps: seq<Partition>, loads: seq<nat>, kept: seq<Partition>, ahead: seq<Partition>)
    requires |ps| == |loads| && Progress(ps, loads, kept, ahead) && ahead == []
    ensures kept + ahead == Kept(ps, loads)
  {
    assert ps[..|ps|] == ps && loads[..|ps|] == loads;
  }

  lemma SplitAt<T>(s: seq<T>, t: seq<T>)
    requires t != []
    ensures RemoveAt(s + t, |s|) == s + t[1..] && s + t == s + [t[0]] + t[1..]
  {
  }

  lemma KeptNext(ps: seq<Partition>, loads: seq<nat>, j: nat)
    requires |ps| == |loads| && j < |ps|
    ensures Kept(ps[..j + 1], loads[..j + 1]) == Kept(ps[..j], loads[..j]) + if loads[j] > 0 then [ps[j]] else []
    ensures ps[j..][1..] == ps[j + 1..]
  {
    assert ps[..j + 1][..j] == ps[..j] && loads[..j + 1][..j] == loads[..j];
  }

  // Whether the partition at position i deserves an extra way, and what is left to hand out.
  method Decide(p: Plan, l: Left, i: int) returns (next: Left, extra: bool)
    ensures next == Grant(p, l, i) && (extra <==> Grant(p, l, i).Total() < l.Total())
    ensures Grant(p, l, i).Total() == l.Total() - if extra then 1 else 0
  {
    next, extra := l, false;
    if l.give > 0 && (i == p.first || i == p.second) {
      next, extra := Left(l.give - 1, l.rest), true;
    } else if l.rest > 0 && i != p.barred {
      next, extra := Left(l.give, l.rest - 1), true;
    }
  }

  /** The partitions are distinct, and so are their classes of service. */
  ghost predicate Pooled(ps: seq<Partition>) {
    && NoDuplicates(ps)
    && forall p <- ps, q <- ps :: p.closId == q.closId ==> p == q
  }

  /** cache_part_set_t; capacity stands for the capacity registers of the hardware, by class of service. */
  class PartSet {
    const cbmLength: nat
    var parts: seq<Partition>
    var spare: seq<Partition>
    var nrBouncingWays: nat
    ghost var capacity: map<nat, nat>

    /** The pool is split between both lists, and no two partitions share a class of service. */
    ghost predicate Pool()
      reads this
    {
      Pooled(parts + spare)
    }

    /** The hardware holds the mask of this partition. */
    ghost predicate Programmed(p: Partition)
      reads this`capacity, p
    {
      p.MaskOk() && p.closId in capacity && capacity[p.closId] == p.mask
    }

    /** The assigned partitions tile the cache, and the hardware agrees with them. */
    ghost predicate Valid()
      reads this, parts
    {
      && Pool()
      && |parts| <= cbmLength
      && Tiling(Slots(parts), cbmLength)
      && nrBouncingWays == (if parts == [] then 0 else cbmLength % |parts|)
      && forall p <- parts :: Programmed(p)
    }

    /** Partition i of the list has its final place. */
    ghost predicate Placed(p: Plan, ascending: bool, fair: nat, i: nat)
      requires p.n == |parts| && i < p.n
      reads this, parts
    {
      parts[i].AsSlot() == SlotOf(p, ascending, fair, i) && Programmed(parts[i])
    }

    // What both scans do with one partition: fix its place and write its mask to the hardware.
    method Settle(i: nat, low: int, high: int, extra: bool)
      requires Pool() && i < |parts| && 0 <= low <= high + 1
      modifies this`capacity, parts[i]
      ensures parts[i].AsSlot() == Slot(low, high, high - low + 1, i, extra) && Programmed(parts[i])
      ensures parts[i].nrApps == old(parts[i].nrApps)
      ensures forall k | 0 <= k < |parts| && k != i ::
                parts[k].AsSlot() == old(parts[k].AsSlot()) && (old(Programmed(parts[k])) ==> Programmed(parts[k]))
    {
      assert forall k | 0 <= k < |parts| && k != i :: parts[k] != parts[i] && parts[k].closId != parts[i].closId by {
        assert forall k | 0 <= k < |parts| :: (parts + spare)[k] == parts[k];
      }
      var cur := parts[i];
      cur.Place(low, high, i, extra);
      capacity := capacity[cur.closId := cur.mask];
    }

    // Left to right: low ways first.
    method ScanAscending(p: Plan, fair: nat)
      requires Pool() && p.Valid() && p.n == |parts|
      modifies this`capacity, parts
      ensures forall i: nat | i < p.n :: Placed(p, true, fair, i)
      ensures forall q <- parts :: q.nrApps == old(q.nrApps)
    {
      hide After;
      hide Grant;
      hide ExtrasBefore;
      hide SlotOf;
      hide LowOf;
      var l, nextAvailableWay := Left(p.give, p.rest), 0;
      ScanStart(p, fair);
      for i := 0 to p.n
        invariant l == After(p, i)
        invariant nextAvailableWay == LowOf(p, true, fair, i)
        invariant forall k: nat | k < i :: Placed(p, true, fair, k)
        invariant forall q <- parts :: q.nrApps == old(q.nrApps)
      {
        NextSlotAscending(p, fair, i);
        var next, extra := Decide(p, l, i);
        var low, high := nextAvailableWay, nextAvailableWay + fair - 1;
        if extra {
          high := high + 1;
        }
        label Before:
        Settle(i, low, high, extra);
        assert Placed(p, true, fair, i);
        forall k: nat | k < i ensures Placed(p, true, fair, k) {
          assert old@Before(Placed(p, true, fair, k));
        }
        l, nextAvailableWay := next, high + 1;
      }
    }

    // Right to left: high ways first.
    method ScanDescending(p: Plan, fair: nat)
      requires Pool() && p.Valid() && p.n == |parts| && p.n > 0
      requires p.give + p.rest == cbmLength % p.n && fair == cbmLength / p.n
      modifies this`capacity, parts
      ensures forall i: nat | i < p.n :: Placed(p, false, fair, i)
      ensures forall q <- parts :: q.nrApps == old(q.nrApps)
    {
      hide After;
      hide Grant;
      hide ExtrasBefore;
      hide SlotOf;
      hide LowOf;
      var l, nextAvailableWay := Left(p.give, p.rest), cbmLength - 1;
      ScanEnd(p, cbmLength);
      var i := p.n - 1;
      while i >= 0
        invariant -1 <= i < p.n
        invariant l == After(p.Mirror(), p.n - 1 - i)
        invariant nextAvailableWay == LowOf(p, false, fair, i + 1) - 1
        invariant forall k: nat | i < k < p.n :: Placed(p, false, fair, k)
        invariant forall q <- parts :: q.nrApps == old(q.nrApps)
      {
        var next, extra := Decide(p, l, i);
        NextSlotDescending(p, fair, i, l, next, if extra then 1 else 0, nextAvailableWay + 1);
        var high, low := nextAvailableWay, nextAvailableWay - fair + 1;
        if extra {
          low := low - 1;
        }
        label Before:
        Settle(i, low, high, extra);
        assert Placed(p, false, fair, i);
        forall k: nat | i < k < p.n ensures Placed(p, false, fair, k) {
          assert old@Before(Placed(p, false, fair, k));
        }
        l, nextAvailableWay := next, low - 1;
        i := i - 1;
      }
    }

    /** The ways each of n partitions gets at least. */
    function FairShare(n: nat): (fair: nat)
      requires n > 0
    {
      DivMod(cbmLength, n);
      DivMonotone(0, cbmLength, n);
      cbmLength / n
    }

    /**
     * A partition has been inserted at this gap: it has no extra way, and its neighbours are served first.
     * The direction comes from a comparison with 1, not from half the number of partitions.
     */
    ghost predicate SharedAfterInsertion(gapId: nat)
      reads this`parts, parts
    {
      && gapId < |parts| && !parts[gapId].hasExtraWay
      && (|parts| >= 2 ==>
            SharedOut(Slots(parts), 0 < gapId < |parts| - 1, gapId - 1, gapId + 1, gapId,
                      gapId <= (if |parts| - 1 > 1 then 1 else 0), cbmLength))
      && (0 < gapId < |parts| - 1 && cbmLength % |parts| >= 2 ==> parts[gapId - 1].hasExtraWay && parts[gapId + 1].hasExtraWay)
    }

    /** A partition has been removed from this position: those that were next to it are served first. */
    ghost predicate SharedAfterRemoval(idx: int, ascending: bool)
      reads this`parts, parts
    {
      && (parts != [] ==> SharedOut(Slots(parts), 0 < idx < |parts|, idx - 1, idx, -1, ascending, cbmLength))
      && (0 < idx < |parts| && cbmLength % |parts| >= 2 ==> parts[idx - 1].hasExtraWay && parts[idx].hasExtraWay)
    }

    // Share the ways out again among all partitions of the list.
    method Retile(p: Plan, ascending: bool, ghost inner: bool)
      requires Pool() && p.Valid() && p.n == |parts| && 0 < p.n <= cbmLength && p.give + p.rest == cbmLength % p.n
      requires nrBouncingWays == cbmLength % p.n
      requires SetsAside(p, inner, cbmLength % p.n) && (inner ==> 0 <= p.first < p.second < p.n)
      requires 0 <= p.barred < p.n ==> p.barred != p.first && p.barred != p.second
      modifies this`capacity, parts
      ensures Valid() && SharedOut(Slots(parts), inner, p.first, p.second, p.barred, ascending, cbmLength)
      ensures forall q <- parts :: q.nrApps == old(q.nrApps)
    {
      hide SharedOut;
      hide SetsAside;
      var fair := FairShare(p.n);
      if ascending {
        ScanAscending(p, fair);
      } else {
        ScanDescending(p, fair);
      }
      assert forall i: nat | i < p.n :: Placed(p, ascending, fair, i);
      PlacedTiles(p, ascending, fair);
      PlacedShares(p, ascending, fair, inner);
    }

    lemma PlacedShares(p: Plan, ascending: bool, fair: nat, inner: bool)
      requires p.Valid() && p.n == |parts| > 0 && SetsAside(p, inner, cbmLength % p.n)
      requires inner ==> 0 <= p.first < p.second < p.n
      requires 0 <= p.barred < p.n ==> p.barred != p.first && p.barred != p.second
      requires forall i: nat | i < p.n :: Placed(p, ascending, fair, i)
      ensures SharedOut(Slots(parts), inner, p.first, p.second, p.barred, ascending, cbmLength)
    {
      hide SlotOf;
      hide SharedOut;
      hide Plan.Valid;
      hide SetsAside;
      forall i: nat | i < p.n ensures Slots(parts)[i] == SlotOf(p, ascending, fair, i) {
        assert Placed(p, ascending, fair, i);
      }
      PlanShares(p, inner, ascending, cbmLength, fair, Slots(parts));
    }

    lemma PlacedTiles(p: Plan, ascending: bool, fair: nat)
      requires Pool() && p.Valid() && p.n == |parts| && 0 < p.n <= cbmLength && p.give + p.rest == cbmLength % p.n
      requires fair == cbmLength / p.n && nrBouncingWays == cbmLength % p.n
      requires forall i: nat | i < p.n :: Placed(p, ascending, fair, i)
      ensures Valid()
    {
      hide SlotOf;
      forall i: nat | i < p.n ensures Slots(parts)[i] == SlotOf(p, ascending, fair, i) {
        assert Placed(p, ascending, fair, i);
      }
      SlotsTile(p, ascending, cbmLength, fair, Slots(parts));
      hide Tiling;
      forall q <- parts ensures Programmed(q) {
        var i :| 0 <= i < |parts| && parts[i] == q;
        assert Placed(p, ascending, fair, i);
      }
    }

    // The share of extra ways set aside for the neighbours of an inner gap.
    function GiveAway(inner: bool, nrRemaining: nat): nat {
      if !inner then 0 else if nrRemaining < 2 then nrRemaining else 2
    }

    function InsertionPlan(gapId: nat, nrOld: nat): (p: Plan)
      requires gapId <= nrOld && nrOld > 0
      ensures p.Valid() && p.n == nrOld + 1 && p.first == gapId - 1 && p.second == gapId + 1 && p.barred == gapId
      ensures SetsAside(p, 0 < gapId < nrOld, cbmLength % p.n)
    {
      DivMod(cbmLength, nrOld + 1);
      var nrRemaining := cbmLength % (nrOld + 1);
      var giveAway := GiveAway(gapId != 0 && gapId != nrOld, nrRemaining);
      Plan(nrOld + 1, gapId - 1, gapId + 1, gapId, giveAway, nrRemaining - giveAway)
    }

    // The list operations of do_insert_partition.
    method LinkPartition(newPartition: Partition, gapId: nat)
      requires gapId <= |parts|
      modifies this`parts
      ensures parts == InsertAt(old(parts), gapId, newPartition)
    {
      if gapId == 0 {
        parts := [newPartition] + parts;
      } else if gapId >= |parts| {
        parts := parts + [newPartition];
      } else {
        parts := parts[..gapId] + [newPartition] + parts[gapId..];
      }
    }

    /** do_insert_partition, for a partition just taken from the pool. */
    method InsertPartition(newPartition: Partition, gapId: nat)
      requires Valid() && newPartition !in parts && newPartition !in spare && gapId <= |parts| < cbmLength
      requires forall p <- parts + spare :: p.closId != newPartition.closId
      modifies this`parts, this`nrBouncingWays, this`capacity, parts, newPartition
      ensures Valid() && spare == old(spare)
      ensures parts == InsertAt(old(parts), gapId, newPartition)
      ensures SharedAfterInsertion(gapId)
      ensures forall q <- parts :: q.nrApps == old(q.nrApps)
    {
      hide Tiling;
      hide SharedOut;
      var nrOld := |parts|;
      PoolInsert(gapId, newPartition);
      LinkPartition(newPartition, gapId);
      if nrOld == 0 {
        nrBouncingWays := 0;
        FillCache();
      } else {
        ShareInserted(gapId);
      }
    }

    // The partitions, one of them new, share the ways.
    method ShareInserted(gapId: nat)
      requires Pool() && 1 < |parts| <= cbmLength && gapId < |parts|
      modifies this`nrBouncingWays, this`capacity, parts
      ensures Valid() && SharedAfterInsertion(gapId)
      ensures forall q <- parts :: q.nrApps == old(q.nrApps)
    {
      hide SharedOut;
      hide SetsAside;
      hide Tiling;
      nrBouncingWays := cbmLength % |parts|;
      var nrOld := |parts| - 1;
      var p := InsertionPlan(gapId, nrOld);
      SetsAsideAll(p, 0 < gapId < nrOld, cbmLength % p.n);
      var ascending := gapId <= (if nrOld > 1 then 1 else 0);
      Retile(p, ascending, 0 < gapId < nrOld);
      NeighboursAt(0 < gapId < nrOld, gapId - 1, gapId + 1, gapId, ascending);
    }

    lemma SetsAsideAll(p: Plan, inner: bool, remainder: nat)
      requires SetsAside(p, inner, remainder)
      ensures p.give + p.rest == remainder
    {
    }

    // The easy case: the only partition gets everything.
    method FillCache()
      requires Pool() && |parts| == 1 <= cbmLength && nrBouncingWays == 0
      modifies this`capacity, parts
      ensures Valid() && !parts[0].hasExtraWay && parts[0].nrApps == old(parts[0].nrApps)
    {
      Settle(0, 0, cbmLength - 1, false);
      assert Slots(parts) == [parts[0].AsSlot()];
    }

    lemma PoolInsert(gapId: nat, x: Partition)
      requires Pool() && gapId <= |parts| && x !in parts && x !in spare
      requires forall p <- parts + spare :: p.closId != x.closId
      ensures var ps := InsertAt(parts, gapId, x);
              && NoDuplicates(ps + spare)
              && forall p <- ps + spare, q <- ps + spare :: p.closId == q.closId ==> p == q
    {
      var ps := InsertAt(parts, gapId, x);
      NoDuplicatesConcat(parts, spare);
      NoDuplicatesConcat(ps, spare);
      assert forall p <- ps + spare :: p == x || p in parts + spare;
    }

    /** suitable_place_for_insertion: the gap between the widest pair of neighbours, or a random one when all are equal. */
    method SuitablePlace(random: nat) returns (hintId: int)
      requires Valid() && |parts| >= 2
      ensures Suitable(hintId, random)
    {
      var n := |parts|;
      var nrFair := cbmLength / n;
      if cbmLength % n == 0 {
        DivMod(random, n - 1);
        return random % (n - 1) + 1;
      }
      var maxVal := -1;
      hintId := -1;
      for i := 1 to n
        invariant i == 1 ==> maxVal == -1 && hintId == -1
        invariant i > 1 ==> 1 <= hintId < i && maxVal == PairWidth(hintId) - 2 * nrFair
        invariant forall k | 1 <= k < i :: PairWidth(k) - 2 * nrFair <= maxVal
        invariant i > 1 ==> forall k | 1 <= k < hintId :: PairWidth(k) < PairWidth(hintId)
      {
        PairAtLeastFair(i);
        var bias := parts[i - 1].nrWays + parts[i].nrWays - 2 * nrFair;
        if bias > maxVal {
          hintId, maxVal := i, bias;
        }
      }
    }

    /** An inner gap: the first one between the widest pair of neighbours, or a random one when all are equally wide. */
    ghost predicate Suitable(gap: int, random: nat)
      reads this`parts, parts
    {
      && 1 <= gap <= |parts| - 1
      && (cbmLength % |parts| == 0 ==> gap == random % (|parts| - 1) + 1)
      && (cbmLength % |parts| != 0 ==>
            && (forall i | 1 <= i < |parts| :: PairWidth(i) <= PairWidth(gap))
            && (forall i | 1 <= i < gap :: PairWidth(i) < PairWidth(gap)))
    }

    ghost function PairWidth(i: int): int
      requires 1 <= i < |parts|
      reads this`parts, parts
    {
      parts[i - 1].nrWays + parts[i].nrWays
    }

    lemma PairAtLeastFair(i: int)
      requires Valid() && 1 <= i < |parts|
      ensures PairWidth(i) >= 2 * (cbmLength / |parts|)
    {
      assert Slots(parts)[i - 1] == parts[i - 1].AsSlot() && Slots(parts)[i] == parts[i].AsSlot();
    }

    /** allocate_new_partition: take the head of the pool and insert it at the hinted gap, or at a suitable one. */
    method AllocateNewPartition(hint: int, random: nat) returns (newPartition: Partition, gapId: nat)
      requires Valid() && spare != [] && |parts| < cbmLength
      modifies this`parts, this`spare, this`nrBouncingWays, this`capacity, parts, spare[0]
      ensures Valid()
      ensures newPartition == old(spare)[0] && spare == old(spare)[1..]
      ensures gapId <= |old(parts)| && parts == InsertAt(old(parts), gapId, newPartition)
      ensures |old(parts)| < 2 ==> gapId == 0
      ensures |old(parts)| >= 2 ==> if 0 <= hint <= |old(parts)| then gapId == hint else old(Suitable(gapId, random))
      ensures SharedAfterInsertion(gapId)
      ensures forall q <- parts :: q.nrApps == old(q.nrApps)
    {
      hide Tiling;
      hide SharedAfterInsertion;
      hide Suitable;
      var nrOld := |parts|;
      newPartition := spare[0];
      PoolTake();
      if nrOld < 2 {
        gapId := 0;
      } else if hint < 0 || hint > nrOld {
        var hintId := SuitablePlace(random);
        InnerGap(hintId, random);
        gapId := hintId;
      } else {
        gapId := hint;
      }
      spare := spare[1..];
      InsertPartition(newPartition, gapId);
    }

    lemma InnerGap(gap: int, random: nat)
      requires Suitable(gap, random)
      ensures 1 <= gap < |parts|
    {
    }

    lemma PoolTake()
      requires Pool() && spare != []
      ensures NoDuplicates(parts + spare[1..]) && spare[0] !in parts && spare[0] !in spare[1..]
      ensures forall p <- parts + spare[1..] :: p in parts + spare && p.closId != spare[0].closId
    {
      NoDuplicatesConcat(parts, spare);
      NoDuplicatesConcat(parts, spare[1..]);
      assert spare == [spare[0]] + spare[1..];
      NoDuplicatesConcat([spare[0]], spare[1..]);
    }

    /** deallocate_partition: drop a partition and share its ways out among the others. */
    method DeallocatePartition(partition: Partition)
      requires Valid() && partition in parts
      modifies this`parts, this`nrBouncingWays, this`capacity, parts
      ensures Valid() && spare == old(spare)
      ensures 0 <= old(partition.partId) < |old(parts)| && old(parts)[old(partition.partId)] == partition
      ensures parts == RemoveAt(old(parts), old(partition.partId))
      ensures partition !in parts && partition !in spare
      ensures forall q <- parts + spare :: q.closId != partition.closId
      ensures SharedAfterRemoval(old(partition.partId), old(partition.nrWays) / 2 + old(partition.lowWay) <= cbmLength / 2)
      ensures forall q <- old(parts) :: q.nrApps == old(q.nrApps)
    {
      hide SharedOut;
      hide Tiling;
      PositionIsId(partition);
      var idx := partition.partId;
      var nrOld := |parts|;
      var nrTarget := nrOld - 1;
      var center := cbmLength / 2;
      var val := partition.nrWays / 2 + partition.lowWay;
      var ascending := val <= center;
      PoolRemove(idx);
      if nrTarget == 0 {
        parts := RemoveAt(parts, idx);
        nrBouncingWays := 0;
        assert Slots(parts) == [];
        NothingTiles(cbmLength);
        return;
      }
      parts := RemoveAt(parts, idx);
      ShareRemoved(idx, ascending);
    }

    // The partitions that remain, one of them fewer, share the ways.
    method ShareRemoved(idx: nat, ascending: bool)
      requires Pool() && 0 < |parts| <= cbmLength && idx <= |parts|
      modifies this`nrBouncingWays, this`capacity, parts
      ensures Valid() && SharedAfterRemoval(idx, ascending)
      ensures forall q <- parts :: q.nrApps == old(q.nrApps)
    {
      hide SharedOut;
      hide SetsAside;
      hide Tiling;
      nrBouncingWays := cbmLength % |parts|;
      var p := RemovalPlan(idx, |parts| + 1);
      SetsAsideAll(p, 0 < idx < |parts|, cbmLength % p.n);
      Retile(p, ascending, 0 < idx < |parts|);
      NeighboursAt(0 < idx < |parts|, idx - 1, idx, -1, ascending);
    }

    lemma NeighboursAt(inner: bool, lo: int, hi: int, barred: int, ascending: bool)
      requires parts != [] && SharedOut(Slots(parts), inner, lo, hi, barred, ascending, cbmLength)
      ensures 0 <= barred < |parts| ==> !parts[barred].hasExtraWay
      ensures inner && cbmLength % |parts| >= 2 ==>
                0 <= lo < hi < |parts| && parts[lo].hasExtraWay && parts[hi].hasExtraWay
    {
      forall i | 0 <= i < |parts| ensures Slots(parts)[i] == parts[i].AsSlot() {
      }
    }

    function RemovalPlan(idx: nat, nrOld: nat): (p: Plan)
      requires idx < nrOld && nrOld > 1
      ensures p.Valid() && p.n == nrOld - 1 && p.first == idx - 1 && p.second == idx && p.barred == -1
      ensures SetsAside(p, 0 < idx < nrOld - 1, cbmLength % p.n)
    {
      DivMod(cbmLength, nrOld - 1);
      var nrRemaining := cbmLength % (nrOld - 1);
      var giveAway := GiveAway(idx != 0 && idx != nrOld - 1, nrRemaining);
      Plan(nrOld - 1, idx - 1, idx, -1, giveAway, nrRemaining - giveAway)
    }

    lemma PositionIsId(partition: Partition)
      requires Valid() && partition in parts
      ensures 0 <= partition.partId < |parts| && parts[partition.partId] == partition
      ensures partition.lowWay >= 0 && partition.nrWays >= 0
    {
      var i :| 0 <= i < |parts| && parts[i] == partition;
      assert Slots(parts)[i] == partition.AsSlot();
      assert Programmed(partition);
    }

    lemma PoolRemove(idx: nat)
      requires Pool() && idx < |parts|
      ensures var ps := RemoveAt(parts, idx);
              && NoDuplicates(ps + spare) && parts[idx] !in ps && parts[idx] !in spare
              && (forall p <- ps + spare, q <- ps + spare :: p.closId == q.closId ==> p == q)
              && (forall p <- ps + spare :: p in parts + spare && p.closId != parts[idx].closId)
    {
      var ps := RemoveAt(parts, idx);
      NoDuplicatesConcat(parts, spare);
      NoDuplicatesConcat(ps, spare);
      assert forall p <- ps + spare :: p in parts + spare;
      assert parts[idx] in parts + spare;
    }

    /** One step of remove_empty_partitions: drop a partition and put it at the front of the pool. */
    method ReleasePartition(partition: Partition)
      requires Valid() && partition in parts
      modifies this`parts, this`spare, this`nrBouncingWays, this`capacity, parts
      ensures Valid()
      ensures 0 <= old(partition.partId) < |old(parts)| && old(parts)[old(partition.partId)] == partition
      ensures parts == RemoveAt(old(parts), old(partition.partId)) && spare == [partition] + old(spare)
      ensures SharedAfterRemoval(old(partition.partId), old(partition.nrWays) / 2 + old(partition.lowWay) <= cbmLength / 2)
      ensures forall q <- old(parts) :: q.nrApps == old(q.nrApps)
    {
      hide SharedAfterRemoval;
      hide Pooled;
      hide Tiling;
      hide Programmed;
      DeallocatePartition(partition);
      PoolReturn(partition);
      spare := [partition] + spare;
    }

    lemma PoolReturn(x: Partition)
      requires Pool() && x !in parts && x !in spare && forall p <- parts + spare :: p.closId != x.closId
      ensures Pooled(parts + ([x] + spare))
      ensures forall p <- parts + ([x] + spare) :: p == x || p in parts + spare
    {
      NoDuplicatesConcat(parts, spare);
      NoDuplicatesConcat([x], spare);
      NoDuplicatesConcat(parts, [x] + spare);
    }

    /** remove_empty_partitions, resizing: every partition without applications goes back to the pool. */
    method RemoveEmptyPartitions()
      requires Valid()
      modifies this`parts, this`spare, this`nrBouncingWays, this`capacity, parts
      ensures Valid()
      ensures parts == Kept(old(parts), old(Loads(parts)))
      ensures spare == Emptied(old(parts), old(Loads(parts)), |old(parts)|) + old(spare)
      ensures |parts| + |spare| == |old(parts)| + |old(spare)|
      ensures forall q <- old(parts) :: q in parts || q in spare
      ensures forall q <- old(parts) :: q.nrApps == old(q.nrApps)
    {
      ghost var before, loads, total, pool := parts, Loads(parts), |parts| + |spare|, spare;
      ghost var kept: seq<Partition>, ahead := [], before;   // looked at and kept, and not looked at yet
      ProgressStart(before, loads);
      assert [] + before == before;
      hide Valid;
      hide Going;
      var i := 0;
      while i < |parts|
        invariant Valid() && Going(before, loads, kept, ahead, total, pool)
        invariant i == |kept| && |parts| == |kept| + |ahead|
        invariant forall k | 0 <= k < |parts| :: parts[k] in old(parts)
        decreases |ahead|
      {
        i, kept, ahead := InspectNext(i, before, loads, kept, ahead, total, pool);
      }
      AllInspected(before, loads, kept, total, pool);
    }

    /** Where the loop is: what it has kept, and what it has not looked at yet. */
    ghost predicate Going(before: seq<Partition>, loads: seq<nat>, kept: seq<Partition>, ahead: seq<Partition>, total: nat, pool: seq<Partition>)
      reads this`parts, this`spare, before
    {
      && |before| == |loads| && Progress(before, loads, kept, ahead)
      && parts == kept + ahead && |parts| + |spare| == total
      && spare == Emptied(before, loads, |before| - |ahead|) + pool
      && (forall q <- before :: q in parts || q in spare)
      && (forall k | 0 <= k < |before| :: before[k].nrApps == loads[k])
    }

    lemma AllInspected(before: seq<Partition>, loads: seq<nat>, kept: seq<Partition>, total: nat, pool: seq<Partition>)
      requires Going(before, loads, kept, [], total, pool)
      ensures |before| == |loads| && parts == Kept(before, loads) && |parts| + |spare| == total
      ensures spare == Emptied(before, loads, |before|) + pool
      ensures forall q <- before :: q in parts || q in spare
      ensures forall k | 0 <= k < |before| :: before[k].nrApps == loads[k]
    {
      ProgressEnd(before, loads, kept, []);
    }

    lemma NextInspected(before: seq<Partition>, loads: seq<nat>, kept: seq<Partition>, ahead: seq<Partition>, total: nat, pool: seq<Partition>)
      requires Going(before, loads, kept, ahead, total, pool) && ahead != []
      ensures |kept| < |parts| && parts[|kept|] == ahead[0] && |before| == |loads|
      ensures Progress(before, loads, if ahead[0].nrApps > 0 then kept + [ahead[0]] else kept, ahead[1..])
      ensures RemoveAt(parts, |kept|) == kept + ahead[1..] && parts == kept + [ahead[0]] + ahead[1..]
      ensures var released := Emptied(before, loads, |before| - |ahead[1..]|) + pool;
              released == if ahead[0].nrApps == 0 then [ahead[0]] + spare else spare
    {
      ProgressStep(before, loads, kept, ahead);
      var j := |before| - |ahead|;
      assert before[j] == ahead[0] && before[j].nrApps == loads[j];
      hide RemoveAt;
      hide Emptied;
      hide Progress;
      SplitAt(kept, ahead);
      EmptiedNext(before, loads, j, pool);
    }

    method InspectNext(i: nat, ghost before: seq<Partition>, ghost loads: seq<nat>, ghost kept: seq<Partition>,
                       ghost ahead: seq<Partition>, ghost total: nat, ghost pool: seq<Partition>)
      returns (next: nat, ghost keptNow: seq<Partition>, ghost aheadNow: seq<Partition>)
      requires Valid() && Going(before, loads, kept, ahead, total, pool) && i == |kept| && ahead != []
      modifies this`parts, this`spare, this`nrBouncingWays, this`capacity, parts
      ensures Valid() && Going(before, loads, keptNow, aheadNow, total, pool)
      ensures next == |keptNow| && |parts| == |keptNow| + |aheadNow| && |aheadNow| < |ahead|
      ensures forall k | 0 <= k < |parts| :: parts[k] in old(parts)
    {
      hide Valid;
      hide RemoveAt;
      hide Progress;
      hide Emptied;
      NextInspected(before, loads, kept, ahead, total, pool);
      ghost var stays := parts[i].nrApps > 0;
      next := InspectAt(i);
      keptNow, aheadNow := if stays then kept + [ahead[0]] else kept, ahead[1..];
    }

    // The body of the loop: release the partition, or step over it.
    method InspectAt(i: nat) returns (next: nat)
      requires Valid() && i < |parts|
      modifies this`parts, this`spare, this`nrBouncingWays, this`capacity, parts
      ensures Valid()
      ensures |parts| + |spare| == |old(parts)| + |old(spare)|
      ensures old(parts[i].nrApps) > 0 ==> next == i + 1 && parts == old(parts) && spare == old(spare)
      ensures old(parts[i].nrApps) == 0 ==> next == i && parts == RemoveAt(old(parts), i) && spare == [old(parts)[i]] + old(spare)
      ensures forall q <- old(parts) :: q in parts || q in spare
      ensures forall q <- old(spare) :: q in spare
      ensures forall k | 0 <= k < |parts| :: parts[k] in old(parts)
      ensures forall q <- old(parts) :: q.nrApps == old(q.nrApps)
    {
      next := i;
      if parts[i].nrApps == 0 {
        ReleaseAt(i);
      } else {
        next := i + 1;
      }
    }

    method ReleaseAt(i: nat)
      requires Valid() && i < |parts|
      modifies this`parts, this`spare, this`nrBouncingWays, this`capacity, parts
      ensures Valid()
      ensures parts == RemoveAt(old(parts), i) && spare == [old(parts)[i]] + old(spare)
      ensures forall q <- old(parts) :: q in parts || q in spare
      ensures forall q <- parts :: q in old(parts)
      ensures forall q <- old(parts) :: q.nrApps == old(q.nrApps)
    {
      PositionOf(i);
      ghost var was := parts;
      ReleasePartition(parts[i]);
      hide Valid;
      forall q <- was ensures q in parts || q in spare {
        var k :| 0 <= k < |was| && was[k] == q;
        assert k < i ==> parts[k] == q;
        assert k > i ==> parts[k - 1] == q;
      }
    }

    // Positions and ids agree.
    lemma PositionOf(i: nat)
      requires Valid() && i < |parts|
      ensures parts[i].partId == i
    {
      assert Slots(parts)[i] == parts[i].AsSlot();
    }

    /** init_cache_part_set: a pool of one partition per class of service except the one of the OS. */
    constructor (nrCosAvailable: nat, length: nat)
      requires nrCosAvailable > 0
      ensures Valid() && cbmLength == length && parts == [] && |spare| == nrCosAvailable - 1
      ensures forall i | 0 <= i < |spare| :: fresh(spare[i]) && spare[i].closId == i + 1 && spare[i].nrApps == 0
    {
      cbmLength, parts, spare, nrBouncingWays, capacity := length, [], [], 0, map[];
      new;
      hide Tiling;
      for i := 0 to nrCosAvailable - 1
        invariant parts == [] && |spare| == i && nrBouncingWays == 0
        invariant forall k | 0 <= k < i :: fresh(spare[k]) && spare[k].closId == k + 1 && spare[k].nrApps == 0
      {
        var part := new Partition(i, cbmLength);
        spare := spare + [part];
      }
      PoolOfSpare();
      NothingTiles(cbmLength);
    }

    lemma PoolOfSpare()
      requires parts == [] && forall k | 0 <= k < |spare| :: spare[k].closId == k + 1
      ensures Pool()
    {
      assert parts + spare == spare;
    }
  }
}

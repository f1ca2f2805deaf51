/**
 * How two applications would share one partition: build_combined_curve walks the
 * ways one at a time and splits each in proportion to the space both applications
 * demand at the point they have reached, in hundredths of a way.
 *
 * Curves are stored with their size in entry 0, and the walk reads them from entry 1
 * on, so position q of the walk is entry q + 1 here.
 */
module CombinedCurve {
  import opened Arithmetic
  import opened Ucp
  import UcpTheorems

  const SCALE: nat := 100
  const MAX_NR_WAYS: nat := 11

  function Max(a: int, b: int): (m: int)
    ensures m >= a && m >= b && (m == a || m == b)
  {
    if a > b then a else b
  }

  /** The value a short int keeps. */
  function ToShort(x: int): int {
    (x + 0x8000) % 0x1_0000 - 0x8000
  }

  function Interpolate(a: int, b: int, r: nat): int
    requires r <= SCALE
  {
    TruncDiv((SCALE - r) * a + r * b, SCALE)
  }

  /** Which entries a lookup at this position reads; false when it would leave the n measured entries. */
  predicate InBounds(n: nat, space: nat) {
    var q, r := space / SCALE, space % SCALE;
    if q >= n then q == n else r == 0 || q + 1 < n
  }

  /** access_index: the interpolated demand. */
  function AccessIndex(c: seq<int>, n: nat, space: nat): int
    requires 1 <= n < |c| && InBounds(n, space)
  {
    var q, r := space / SCALE, space % SCALE;
    if q >= n then c[q]
    else if r == 0 || q + 1 > n then c[q + 1]
    else Interpolate(c[q + 1], c[q + 2], r)
  }

  /** access_index_acc: the slowdown with this much space, extrapolated below one way and saturated above. */
  function AccessIndexAcc(c: seq<int>, n: nat, space: nat): int
    requires 2 <= n < |c|
  {
    var q, r := space / SCALE, space % SCALE;
    if q >= n then c[n]
    else if r == 0 && q >= 1 then c[q]
    else if q == 0 then
      var value := c[1] + (Interpolate(c[1], c[2], r) - c[2]);
      if value < 0 then 1 else value
    else Interpolate(c[q], c[q + 1], r)
  }

  ghost predicate NonNegative(c: seq<int>, n: nat)
    requires n < |c|
  {
    forall i | 1 <= i <= n :: 0 <= c[i]
  }

  lemma InterpolateBetween(a: int, b: int, r: nat)
    requires 0 <= a && 0 <= b && r <= SCALE
    ensures 0 <= Interpolate(a, b, r)
    ensures a >= b ==> b <= Interpolate(a, b, r) <= a
    ensures a > 0 && b > 0 ==> Interpolate(a, b, r) > 0
  {
    var lo, hi := if a <= b then a else b, if a <= b then b else a;
    MulMonotone(lo, a, SCALE - r);
    MulMonotone(lo, b, r);
    MulMonotone(a, hi, SCALE - r);
    MulMonotone(b, hi, r);
    MulMonotone(0, a, SCALE - r);
    MulMonotone(0, b, r);
    assert (SCALE - r) * lo + r * lo == SCALE * lo;
    assert (SCALE - r) * hi + r * hi == SCALE * hi;
  }

  /** v is the weighted mean of a and b, r hundredths of the way from a to b, rounded down. */
  ghost predicate MeanOf(v: int, a: int, b: int, r: nat) {
    SCALE * v <= (SCALE - r) * a + r * b < SCALE * v + SCALE
  }

  lemma InterpolateIsMean(a: int, b: int, r: nat)
    requires 0 <= a && 0 <= b && r <= SCALE
    ensures MeanOf(Interpolate(a, b, r), a, b, r)
  {
    MulNonNegative(SCALE - r, a);
    MulNonNegative(r, b);
    QuotientBounds((SCALE - r) * a + r * b, SCALE);
  }

  /** The demand r hundredths past q ways: measured at whole ways, counted from zero, and the mean of its neighbours between them. */
  lemma DemandRead(c: seq<int>, n: nat, q: nat, r: nat)
    requires 1 <= n < |c| && NonNegative(c, n) && r < SCALE && InBounds(n, q * SCALE + r)
    ensures q <= n
    ensures r == 0 ==> AccessIndex(c, n, q * SCALE + r) == if q == n then c[n] else c[q + 1]
    ensures r > 0 && q < n ==> q + 1 < n && MeanOf(AccessIndex(c, n, q * SCALE + r), c[q + 1], c[q + 2], r)
  {
    Hundredths(q, r);
    hide Interpolate;
    hide MeanOf;
    if r > 0 && q < n {
      InterpolateIsMean(c[q + 1], c[q + 2], r);
    }
  }

  lemma Hundredths(q: nat, r: nat)
    requires r < SCALE
    ensures (q * SCALE + r) / SCALE == q && (q * SCALE + r) % SCALE == r
  {
    QuotientUnique(q * SCALE + r, SCALE, q);
    DivMod(q * SCALE + r, SCALE);
  }

  /**
   * The slowdown r hundredths past q ways: measured at whole ways, the mean between them, and
   * the last one from n ways on.  Below one way it is as much above the first entry as the
   * mean of the first two is above the second, and at least not negative.
   */
  lemma SlowdownRead(c: seq<int>, n: nat, q: nat, r: nat)
    requires 2 <= n < |c| && NonNegative(c, n) && r < SCALE
    ensures var v := AccessIndexAcc(c, n, q * SCALE + r);
            && (q >= n ==> v == c[n])
            && (r == 0 && 1 <= q < n ==> v == c[q])
            && (r > 0 && 1 <= q < n ==> MeanOf(v, c[q], c[q + 1], r))
            && (q == 0 ==> v >= 0 && exists m :: MeanOf(m, c[1], c[2], r) && v == if c[1] + m < c[2] then 1 else c[1] + m - c[2])
  {
    Hundredths(q, r);
    hide Interpolate;
    hide MeanOf;
    if q < n {
      var a, b := if q == 0 then c[1] else c[q], if q == 0 then c[2] else c[q + 1];
      InterpolateIsMean(a, b, r);
    }
  }

  lemma DemandNonNegative(c: seq<int>, n: nat, space: nat)
    requires 1 <= n < |c| && InBounds(n, space) && NonNegative(c, n)
    ensures 0 <= AccessIndex(c, n, space)
  {
    var q, r := space / SCALE, space % SCALE;
    if q < n && r != 0 {
      InterpolateBetween(c[q + 1], c[q + 2], r);
    }
  }

  // ---------------------------------------------------------------------------
  // The walk
  // ---------------------------------------------------------------------------

  /** How far each application has got, in hundredths of a way. */
  datatype Position = Position(s0: nat, s1: nat)

  ghost predicate Reached(p: Position, k: nat) {
    && p.s0 <= SCALE * k && p.s1 <= SCALE * k
    && SCALE * k <= p.s0 + p.s1 <= (SCALE + 1) * k
  }

  lemma ReachedInBounds(space: nat, k: nat, n: nat)
    requires space <= SCALE * k && k < n
    ensures InBounds(n, space)
  {
    DivMod(space, SCALE);
  }

  lemma ShareOfWay(m0: nat, m1: nat)
    requires m0 + m1 > 0
    ensures var ms := m0 + m1;
            var c0, c1 := (m0 * SCALE + (ms - 1)) / ms, (m1 * SCALE + (ms - 1)) / ms;
            && 0 <= c0 <= SCALE && 0 <= c1 <= SCALE
            && SCALE <= c0 + c1 <= SCALE + 1
  {
    var ms := m0 + m1;
    CeilingBounds(m0, ms);
    CeilingBounds(m1, ms);
    var c0, c1 := (m0 * SCALE + (ms - 1)) / ms, (m1 * SCALE + (ms - 1)) / ms;
    assert (c0 + c1) * ms == c0 * ms + c1 * ms;
    Cancel(SCALE - 1, c0 + c1, ms);
    Cancel(c0 + c1, SCALE + 2, ms);
  }

  lemma CeilingBounds(m: nat, ms: nat)
    requires m <= ms && ms > 0
    ensures var c := (m * SCALE + (ms - 1)) / ms;
            && m * SCALE <= c * ms < m * SCALE + ms
            && 0 <= c <= SCALE
  {
    var c := (m * SCALE + (ms - 1)) / ms;
    QuotientBounds(m * SCALE + (ms - 1), ms);
    assert (c + 1) * ms == c * ms + ms;
    MulMonotone(m, ms, SCALE);
    Cancel(c, SCALE + 1, ms);
    Cancel(-1, c, ms);
  }

  /** The demands at p do not both vanish, so that the way can be divided. */
  ghost predicate Divisible(d0: seq<int>, d1: seq<int>, n: nat, p: Position)
    requires 1 <= n < |d0| && n < |d1|
  {
    InBounds(n, p.s0) && InBounds(n, p.s1) &&
    AccessIndex(d0, n, p.s0) + AccessIndex(d1, n, p.s1) > 0
  }

  ghost predicate Demands(d0: seq<int>, d1: seq<int>, n: nat) {
    1 <= n < |d0| && n < |d1| && NonNegative(d0, n) && NonNegative(d1, n)
  }

  function Advance(d0: seq<int>, d1: seq<int>, n: nat, p: Position, ghost k: nat): (p': Position)
    requires Demands(d0, d1, n) && k < n && Reached(p, k)
    requires Divisible(d0, d1, n, p)
    ensures Reached(p', k + 1) && p.s0 <= p'.s0 && p.s1 <= p'.s1
  {
    DemandNonNegative(d0, n, p.s0);
    DemandNonNegative(d1, n, p.s1);
    var m0, m1 := AccessIndex(d0, n, p.s0), AccessIndex(d1, n, p.s1);
    ShareOfWay(m0, m1);
    var ms := m0 + m1;
    Position(p.s0 + (m0 * SCALE + (ms - 1)) / ms, p.s1 + (m1 * SCALE + (ms - 1)) / ms)
  }

  /** The walk never meets a point where neither application demands space. */
  ghost predicate Walkable(d0: seq<int>, d1: seq<int>, n: nat, k: nat)
    requires Demands(d0, d1, n) && k <= n
    decreases k, 0
  {
    k > 0 ==> Walkable(d0, d1, n, k - 1) && Divisible(d0, d1, n, Walk(d0, d1, n, k - 1))
  }

  /** Where the walk stands after k ways: the space split so far, with rounding at most one hundredth per way. */
  ghost function Walk(d0: seq<int>, d1: seq<int>, n: nat, k: nat): (p: Position)
    requires Demands(d0, d1, n) && k <= n && Walkable(d0, d1, n, k)
    ensures Reached(p, k)
    decreases k, 1
  {
    if k == 0 then Position(0, 0) else Advance(d0, d1, n, Walk(d0, d1, n, k - 1), k - 1)
  }

  /** A positive demand of either application everywhere is enough. */
  lemma {:induction false} PositiveDemandIsWalkable(d0: seq<int>, d1: seq<int>, n: nat, k: nat)
    requires Demands(d0, d1, n) && k <= n
    requires (forall i | 1 <= i <= n :: d0[i] > 0) || (forall i | 1 <= i <= n :: d1[i] > 0)
    ensures Walkable(d0, d1, n, k)
  {
    if k > 0 {
      PositiveDemandIsWalkable(d0, d1, n, k - 1);
      var p := Walk(d0, d1, n, k - 1);
      ReachedInBounds(p.s0, k - 1, n);
      ReachedInBounds(p.s1, k - 1, n);
      DemandNonNegative(d0, n, p.s0);
      DemandNonNegative(d1, n, p.s1);
      if forall i | 1 <= i <= n :: d0[i] > 0 {
        PositiveDemand(d0, n, p.s0);
      } else {
        PositiveDemand(d1, n, p.s1);
      }
    }
  }

  lemma PositiveDemand(c: seq<int>, n: nat, space: nat)
    requires 1 <= n < |c| && InBounds(n, space) && forall i | 1 <= i <= n :: c[i] > 0
    ensures AccessIndex(c, n, space) > 0
  {
    var q, r := space / SCALE, space % SCALE;
    if q < n && r != 0 {
      InterpolateBetween(c[q + 1], c[q + 2], r);
    }
  }

  /** The curves of two applications sharing one partition, as build_combined_curve leaves them. */
  datatype Combined = Combined(
    maxSlowdown: seq<int>,
    sumSlowdown: seq<int>,
    perAppSlowdown: seq<(int, int)>,
    buckets: seq<(int, int)>)

  datatype App = App(curve: seq<int>, spaceCurve: seq<int>)

  ghost predicate Combinable(a0: App, a1: App, n: nat) {
    && 2 <= n < |a0.curve| && n < |a1.curve|
    && Demands(a0.spaceCurve, a1.spaceCurve, n)
    && Walkable(a0.spaceCurve, a1.spaceCurve, n, n)
  }

  lemma {:induction false} WalkablePrefix(d0: seq<int>, d1: seq<int>, n: nat, j: nat, k: nat)
    requires Demands(d0, d1, n) && j <= k <= n && Walkable(d0, d1, n, k)
    ensures Walkable(d0, d1, n, j)
  {
    if j < k {
      WalkablePrefix(d0, d1, n, j, k - 1);
    }
  }

  /** The slowdown of each application once k ways have been handed out. */
  ghost function Slow(a0: App, a1: App, n: nat, k: nat): (int, int)
    requires Combinable(a0, a1, n) && k <= n
  {
    WalkablePrefix(a0.spaceCurve, a1.spaceCurve, n, k, n);
    var p := Walk(a0.spaceCurve, a1.spaceCurve, n, k);
    (AccessIndexAcc(a0.curve, n, p.s0), AccessIndexAcc(a1.curve, n, p.s1))
  }

  /** Entry i of every curve, for applications that have got as far as p. */
  ghost predicate Recorded(c: Combined, i: nat, p: Position, slow0: int, slow1: int) {
    && i + 1 < |c.maxSlowdown| && i + 1 < |c.sumSlowdown| && i < |c.perAppSlowdown| && i < |c.buckets|
    && c.maxSlowdown[i + 1] == Max(slow0, slow1)
    && c.sumSlowdown[i + 1] == slow0 + slow1
    && c.perAppSlowdown[i] == (ToShort(slow0), ToShort(slow1))
    && c.buckets[i] == (ToShort(p.s0), ToShort(p.s1))
  }

  /** It describes the state after i + 1 ways: each application at its own place, on its own curve. */
  ghost predicate EntryIs(c: Combined, a0: App, a1: App, n: nat, i: nat)
    requires Combinable(a0, a1, n) && i < n
  {
    var p := Spot(a0, a1, n, i + 1);
    Recorded(c, i, p, AccessIndexAcc(a0.curve, n, p.s0), AccessIndexAcc(a1.curve, n, p.s1))
  }

  lemma EntryIsSlow(c: Combined, a0: App, a1: App, n: nat, i: nat)
    requires Combinable(a0, a1, n) && i < n
    ensures EntryIs(c, a0, a1, n, i)
            <==> Recorded(c, i, Spot(a0, a1, n, i + 1), Slow(a0, a1, n, i + 1).0, Slow(a0, a1, n, i + 1).1)
  {
    hide AccessIndexAcc;
    hide Recorded;
  }

  ghost predicate IsCombination(c: Combined, a0: App, a1: App, n: nat, k: nat)
    requires Combinable(a0, a1, n) && k <= n
  {
    && |c.maxSlowdown| == |c.sumSlowdown| == k + 1 && |c.perAppSlowdown| == |c.buckets| == k
    && c.maxSlowdown[0] == c.sumSlowdown[0] == n
    && forall i: nat | i < k :: EntryIs(c, a0, a1, n, i)
  }

  ghost function Spot(a0: App, a1: App, n: nat, k: nat): (p: Position)
    requires Combinable(a0, a1, n) && k <= n
    ensures Reached(p, k)
  {
    WalkablePrefix(a0.spaceCurve, a1.spaceCurve, n, k, n);
    Walk(a0.spaceCurve, a1.spaceCurve, n, k)
  }

  function Extend(c: Combined, slow0: int, slow1: int, s0: nat, s1: nat): Combined {
    Combined(
      c.maxSlowdown + [Max(slow0, slow1)],
      c.sumSlowdown + [slow0 + slow1],
      c.perAppSlowdown + [(ToShort(slow0), ToShort(slow1))],
      c.buckets + [(ToShort(s0), ToShort(s1))])
  }

  lemma ExtendCombination(c: Combined, a0: App, a1: App, n: nat, k: nat)
    requires Combinable(a0, a1, n) && k < n && IsCombination(c, a0, a1, n, k)
    ensures var (slow0, slow1) := Slow(a0, a1, n, k + 1);
            var p := Spot(a0, a1, n, k + 1);
            IsCombination(Extend(c, slow0, slow1, p.s0, p.s1), a0, a1, n, k + 1)
  {
    hide Combinable;
    hide EntryIs;
    hide Slow;
    hide Spot;
    var (slow0, slow1) := Slow(a0, a1, n, k + 1);
    var p := Spot(a0, a1, n, k + 1);
    var c' := Extend(c, slow0, slow1, p.s0, p.s1);
    forall i: nat | i < k + 1 ensures EntryIs(c', a0, a1, n, i) {
      ExtendEntry(c, a0, a1, n, k, i);
    }
  }

  lemma ExtendEntry(c: Combined, a0: App, a1: App, n: nat, k: nat, i: nat)
    requires Combinable(a0, a1, n) && i <= k < n && IsCombination(c, a0, a1, n, k)
    ensures var (slow0, slow1) := Slow(a0, a1, n, k + 1);
            var p := Spot(a0, a1, n, k + 1);
            EntryIs(Extend(c, slow0, slow1, p.s0, p.s1), a0, a1, n, i)
  {
    hide Combinable;
    hide EntryIs;
    hide Slow;
    hide Spot;
    hide Max;
    hide ToShort;
    var (slow0, slow1) := Slow(a0, a1, n, k + 1);
    var p := Spot(a0, a1, n, k + 1);
    EntryIsSlow(Extend(c, slow0, slow1, p.s0, p.s1), a0, a1, n, i);
    if i < k {
      assert EntryIs(c, a0, a1, n, i);
      EntryIsSlow(c, a0, a1, n, i);
    }
  }

  /** The curves after k ways. */
  ghost function CombinedOf(a0: App, a1: App, n: nat, k: nat): (c: Combined)
    requires Combinable(a0, a1, n) && k <= n
    ensures |c.maxSlowdown| == |c.sumSlowdown| == k + 1 && |c.perAppSlowdown| == |c.buckets| == k
  {
    if k == 0 then Combined([n], [n], [], [])
    else
      var (slow0, slow1) := Slow(a0, a1, n, k);
      var p := Spot(a0, a1, n, k);
      Extend(CombinedOf(a0, a1, n, k - 1), slow0, slow1, p.s0, p.s1)
  }

  lemma {:induction false} CombinedIsCombination(a0: App, a1: App, n: nat, k: nat)
    requires Combinable(a0, a1, n) && k <= n
    ensures IsCombination(CombinedOf(a0, a1, n, k), a0, a1, n, k)
  {
    hide Combinable;
    hide Slow;
    hide Spot;
    hide Extend;
    if k > 0 {
      CombinedIsCombination(a0, a1, n, k - 1);
      ExtendCombination(CombinedOf(a0, a1, n, k - 1), a0, a1, n, k - 1);
    }
  }

  lemma SpotAdvances(a0: App, a1: App, n: nat, k: nat)
    requires Combinable(a0, a1, n) && k < n
    ensures var p := Spot(a0, a1, n, k);
            && Demands(a0.spaceCurve, a1.spaceCurve, n)
            && Divisible(a0.spaceCurve, a1.spaceCurve, n, p)
            && Spot(a0, a1, n, k + 1) == Advance(a0.spaceCurve, a1.spaceCurve, n, p, k)
  {
    hide AccessIndex;
    hide InBounds;
    hide Advance;
    WalkablePrefix(a0.spaceCurve, a1.spaceCurve, n, k + 1, n);
  }

  /** Of one way, each application takes its share of both demands, rounded up to the next hundredth. */
  ghost predicate Proportional(d0: seq<int>, d1: seq<int>, n: nat, p: Position, p': Position) {
    && 1 <= n < |d0| && n < |d1| && InBounds(n, p.s0) && InBounds(n, p.s1)
    && var m0, m1 := AccessIndex(d0, n, p.s0), AccessIndex(d1, n, p.s1);
       ShareRoundedUp(p'.s0 - p.s0, m0, m0 + m1) && ShareRoundedUp(p'.s1 - p.s1, m1, m0 + m1)
  }

  ghost predicate ShareRoundedUp(c: int, m: int, ms: int) {
    ms > 0 && SCALE * m <= c * ms < SCALE * m + ms
  }

  lemma OneShare(c: int, c': int, m: int, ms: int)
    requires ShareRoundedUp(c, m, ms) && ShareRoundedUp(c', m, ms)
    ensures c == c'
  {
    MulSub(c + 1, c, ms);
    MulSub(c' + 1, c', ms);
    Cancel(c, c' + 1, ms);
    Cancel(c', c + 1, ms);
  }

  lemma AdvanceIsProportional(d0: seq<int>, d1: seq<int>, n: nat, p: Position, k: nat)
    requires Demands(d0, d1, n) && k < n && Reached(p, k) && Divisible(d0, d1, n, p)
    ensures Proportional(d0, d1, n, p, Advance(d0, d1, n, p, k))
  {
    DemandNonNegative(d0, n, p.s0);
    DemandNonNegative(d1, n, p.s1);
    hide AccessIndex;
    hide InBounds;
    var m0, m1 := AccessIndex(d0, n, p.s0), AccessIndex(d1, n, p.s1);
    ShareOfWay(m0, m1);
    CeilingBounds(m0, m0 + m1);
    CeilingBounds(m1, m0 + m1);
  }

  /** No other walk from the start divides every way in proportion to the demands at the point reached. */
  lemma {:induction false} WalkDetermined(a0: App, a1: App, n: nat, ps: seq<Position>, k: nat)
    requires Combinable(a0, a1, n) && k <= n && |ps| == n + 1
    requires ps[0] == Position(0, 0)
    requires forall i | 0 <= i < n :: Proportional(a0.spaceCurve, a1.spaceCurve, n, ps[i], ps[i + 1])
    ensures ps[k] == Spot(a0, a1, n, k)
  {
    hide AccessIndex;
    hide InBounds;
    hide Advance;
    hide Walkable;
    if k == 0 {
      SpotStart(a0, a1, n);
    } else {
      WalkDetermined(a0, a1, n, ps, k - 1);
      assert Proportional(a0.spaceCurve, a1.spaceCurve, n, ps[k - 1], ps[(k - 1) + 1]);
      SpotProportional(a0, a1, n, k - 1);
      SameStep(a0.spaceCurve, a1.spaceCurve, n, ps[k - 1], ps[k], Spot(a0, a1, n, k));
    }
  }

  lemma SpotStart(a0: App, a1: App, n: nat)
    requires Combinable(a0, a1, n)
    ensures Spot(a0, a1, n, 0) == Position(0, 0)
  {
    WalkablePrefix(a0.spaceCurve, a1.spaceCurve, n, 0, n);
  }

  /** The walk divides every way in proportion to the demands at the point reached. */
  lemma SpotProportional(a0: App, a1: App, n: nat, k: nat)
    requires Combinable(a0, a1, n) && k < n
    ensures Proportional(a0.spaceCurve, a1.spaceCurve, n, Spot(a0, a1, n, k), Spot(a0, a1, n, k + 1))
  {
    hide Proportional;
    hide Advance;
    SpotAdvances(a0, a1, n, k);
    AdvanceIsProportional(a0.spaceCurve, a1.spaceCurve, n, Spot(a0, a1, n, k), k);
  }

  lemma SameStep(d0: seq<int>, d1: seq<int>, n: nat, p: Position, q: Position, q': Position)
    requires Proportional(d0, d1, n, p, q) && Proportional(d0, d1, n, p, q')
    ensures q == q'
  {
    hide AccessIndex;
    hide InBounds;
    hide ShareRoundedUp;
    var m0, m1 := AccessIndex(d0, n, p.s0), AccessIndex(d1, n, p.s1);
    OneShare(q.s0 - p.s0, q'.s0 - p.s0, m0, m0 + m1);
    OneShare(q.s1 - p.s1, q'.s1 - p.s1, m1, m0 + m1);
  }

  // One iteration: divide the next way in proportion to the demands at the current position.
  method DivideWay(a0: App, a1: App, nrWays: nat, i: nat, s0: nat, s1: nat) returns (t0: nat, t1: nat)
    requires Combinable(a0, a1, nrWays) && i < nrWays && Position(s0, s1) == Spot(a0, a1, nrWays, i)
    ensures Position(t0, t1) == Spot(a0, a1, nrWays, i + 1)
  {
    hide Combinable;
    hide Spot;
    hide AccessIndex;
    hide InBounds;
    hide NonNegative;
    SpotAdvances(a0, a1, nrWays, i);
    var m0 := AccessIndex(a0.spaceCurve, nrWays, s0);
    var m1 := AccessIndex(a1.spaceCurve, nrWays, s1);
    var ms := m0 + m1;
    DemandNonNegative(a0.spaceCurve, nrWays, s0);
    DemandNonNegative(a1.spaceCurve, nrWays, s1);
    ShareOfWay(m0, m1);
    t0, t1 := s0 + (m0 * SCALE + (ms - 1)) / ms, s1 + (m1 * SCALE + (ms - 1)) / ms;
  }

  // ... and read how both applications fare with the space reached.
  method Fare(a0: App, a1: App, nrWays: nat, k: nat, s0: nat, s1: nat) returns (slow0: int, slow1: int)
    requires Combinable(a0, a1, nrWays) && k <= nrWays && Position(s0, s1) == Spot(a0, a1, nrWays, k)
    ensures (slow0, slow1) == Slow(a0, a1, nrWays, k)
  {
    hide AccessIndexAcc;
    slow0 := AccessIndexAcc(a0.curve, nrWays, s0);
    slow1 := AccessIndexAcc(a1.curve, nrWays, s1);
  }

  /** build_combined_curve */
  method BuildCombinedCurve(a0: App, a1: App, nrWays: nat) returns (info: Combined)
    requires Combinable(a0, a1, nrWays) && nrWays <= MAX_NR_WAYS
    ensures info == CombinedOf(a0, a1, nrWays, nrWays)
    ensures IsCombination(info, a0, a1, nrWays, nrWays)
  {
    hide Combinable;
    hide IsCombination;
    var s0: nat, s1: nat := 0, 0;
    info := Combined([nrWays], [nrWays], [], []);
    for i := 0 to nrWays
      invariant Position(s0, s1) == Spot(a0, a1, nrWays, i)
      invariant info == CombinedOf(a0, a1, nrWays, i)
    {
      s0, s1 := DivideWay(a0, a1, nrWays, i, s0, s1);
      var slow0, slow1 := Fare(a0, a1, nrWays, i + 1, s0, s1);
      info := Extend(info, slow0, slow1, s0, s1);
    }
    CombinedIsCombination(a0, a1, nrWays, nrWays);
  }

  predicate IsShort(x: int) {
    -0x8000 <= x < 0x8000
  }

  lemma ShortKeeps(x: int)
    ensures ToShort(x) == x <==> IsShort(x)
  {
    DivMod(x + 0x8000, 0x1_0000);
    ModWrap(x + 0x8000, 0x1_0000);
  }

  /** The slowdowns stored for a pair are those of its members exactly when both fit a short int. */
  lemma StoredSlowdownsExact(c: Combined, a0: App, a1: App, n: nat, i: nat)
    requires Combinable(a0, a1, n) && IsCombination(c, a0, a1, n, n) && i < n
    ensures c.perAppSlowdown[i] == Slow(a0, a1, n, i + 1)
            <==> IsShort(Slow(a0, a1, n, i + 1).0) && IsShort(Slow(a0, a1, n, i + 1).1)
  {
    hide Combinable;
    hide Slow;
    hide Spot;
    hide ToShort;
    hide EntryIs;
    assert EntryIs(c, a0, a1, n, i);
    EntryIsSlow(c, a0, a1, n, i);
    ShortKeeps(Slow(a0, a1, n, i + 1).0);
    ShortKeeps(Slow(a0, a1, n, i + 1).1);
  }

  /** The split always fits the short fields, and its parts add up to the ways within one percent. */
  lemma BucketsExact(c: Combined, a0: App, a1: App, n: nat, i: nat)
    requires Combinable(a0, a1, n) && n <= MAX_NR_WAYS && IsCombination(c, a0, a1, n, n) && i < n
    ensures c.buckets[i] == (Spot(a0, a1, n, i + 1).s0, Spot(a0, a1, n, i + 1).s1)
    ensures SCALE * (i + 1) <= c.buckets[i].0 + c.buckets[i].1 <= (SCALE + 1) * (i + 1)
    ensures 0 <= c.buckets[i].0 <= SCALE * (i + 1) && 0 <= c.buckets[i].1 <= SCALE * (i + 1)
  {
    hide AccessIndexAcc;
    hide Spot;
    hide Slow;
    hide Walkable;
    hide Demands;
    var p := Spot(a0, a1, n, i + 1);
    assert EntryIs(c, a0, a1, n, i);
    ShortKeeps(p.s0);
    ShortKeeps(p.s1);
  }

  // ---------------------------------------------------------------------------
  // Monotonicity
  // ---------------------------------------------------------------------------

  ghost predicate Slowing(c: seq<int>, n: nat)
    requires n < |c|
  {
    NonNegative(c, n) && forall i, j | 1 <= i <= j <= n :: c[i] >= c[j]
  }

  lemma InterpolateShrinks(a: int, b: int, r: nat)
    requires 0 <= b <= a && r < SCALE
    ensures Interpolate(a, b, r) >= Interpolate(a, b, r + 1)
  {
    MulMonotone(0, a, SCALE - r - 1);
    MulMonotone(0, b, r + 1);
    MulMonotone(0, a, SCALE - r);
    MulMonotone(0, b, r);
    var x, y := (SCALE - r) * a + r * b, (SCALE - (r + 1)) * a + (r + 1) * b;
    assert x - y == a - b;
    DivMonotone(y, x, SCALE);
  }

  // The slowdown r hundredths after q ways; r = SCALE is the next way.
  lemma AccessAt(c: seq<int>, n: nat, space: nat, q: nat, r: nat)
    requires 2 <= n < |c| && Slowing(c, n) && q < n && r <= SCALE && space == q * SCALE + r
    ensures AccessIndexAcc(c, n, space)
         == if q == 0 then c[1] - c[2] + Interpolate(c[1], c[2], r) else Interpolate(c[q], c[q + 1], r)
  {
    DivMod(space, SCALE);
    assert forall a, b :: Interpolate(a, b, 0) == a && Interpolate(a, b, SCALE) == b;
    if r < SCALE {
      QuotientUnique(space, SCALE, q);
      InterpolateBetween(c[1], c[2], r);
    } else {
      QuotientUnique(space, SCALE, q + 1);
    }
  }

  // One more hundredth of a way never slows the application down further.
  lemma AccessShrinks(c: seq<int>, n: nat, space: nat)
    requires 2 <= n < |c| && Slowing(c, n)
    ensures AccessIndexAcc(c, n, space) >= AccessIndexAcc(c, n, space + 1) >= 0
  {
    var q, r := space / SCALE, space % SCALE;
    DivMod(space, SCALE);
    if q < n {
      hide AccessIndexAcc;
      hide Interpolate;
      AccessAt(c, n, space, q, r);
      AccessAt(c, n, space + 1, q, r + 1);
      var a, b := if q == 0 then c[1] else c[q], if q == 0 then c[2] else c[q + 1];
      InterpolateBetween(a, b, r + 1);
      InterpolateShrinks(a, b, r);
    } else {
      DivMonotone(space, space + 1, SCALE);
    }
  }

  lemma {:induction false} AccessMonotone(c: seq<int>, n: nat, s: nat, t: nat)
    requires 2 <= n < |c| && Slowing(c, n) && s <= t
    ensures AccessIndexAcc(c, n, s) >= AccessIndexAcc(c, n, t)
    decreases t - s
  {
    if s < t {
      AccessShrinks(c, n, s);
      AccessMonotone(c, n, s + 1, t);
    }
  }

  /** More ways to share never hurt: both combined curves inherit monotonicity from the slowdown curves. */
  lemma CombinedMonotone(c: Combined, a0: App, a1: App, n: nat, i: nat)
    requires Combinable(a0, a1, n) && IsCombination(c, a0, a1, n, n)
    requires Slowing(a0.curve, n) && Slowing(a1.curve, n) && 1 <= i < n
    ensures c.maxSlowdown[i] >= c.maxSlowdown[i + 1] && c.sumSlowdown[i] >= c.sumSlowdown[i + 1]
  {
    hide Combinable;
    hide EntryIs;
    hide Slow;
    SlowMonotone(a0, a1, n, i);
    ReadEntry(c, a0, a1, n, i);
    ReadEntry(c, a0, a1, n, i + 1);
  }

  lemma ReadEntry(c: Combined, a0: App, a1: App, n: nat, i: nat)
    requires Combinable(a0, a1, n) && IsCombination(c, a0, a1, n, n) && 1 <= i <= n
    ensures c.maxSlowdown[i] == Max(Slow(a0, a1, n, i).0, Slow(a0, a1, n, i).1)
    ensures c.sumSlowdown[i] == Slow(a0, a1, n, i).0 + Slow(a0, a1, n, i).1
  {
    hide Combinable;
    hide Slow;
    hide Spot;
    hide Max;
    hide EntryIs;
    EntryIsSlow(c, a0, a1, n, i - 1);
    assert EntryIs(c, a0, a1, n, i - 1);
  }

  lemma SlowMonotone(a0: App, a1: App, n: nat, i: nat)
    requires Combinable(a0, a1, n) && Slowing(a0.curve, n) && Slowing(a1.curve, n) && 1 <= i < n
    ensures Slow(a0, a1, n, i).0 >= Slow(a0, a1, n, i + 1).0
    ensures Slow(a0, a1, n, i).1 >= Slow(a0, a1, n, i + 1).1
  {
    hide AccessIndexAcc;
    WalkablePrefix(a0.spaceCurve, a1.spaceCurve, n, i + 1, n);
    var p, p' := Spot(a0, a1, n, i), Spot(a0, a1, n, i + 1);
    AccessMonotone(a0.curve, n, p.s0, p'.s0);
    AccessMonotone(a1.curve, n, p.s1, p'.s1);
  }
}

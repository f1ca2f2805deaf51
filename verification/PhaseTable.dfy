/**
 * The phase table of src/modules/pmcs/mc_experiments.c: a recency list over a pool of
 * nodes, with a bitmap of the nodes that are off the list.
 */
module PhaseTable {
  import opened Arithmetic
  import opened Constants
  import opened Masks
  import opened Sequences

  const ENOENT := 2

  // ---------------------------------------------------------------------------
  // Looking for the most similar phase
  // ---------------------------------------------------------------------------

  /** p is the first of the least distances, below INT_MAX. */
  ghost predicate FirstLeast(d: seq<int>, p: nat) {
    && p < |d| && d[p] < INT_MAX
    && (forall k | 0 <= k < |d| :: d[p] <= d[k])
    && (forall k | 0 <= k < p :: d[p] < d[k])
  }

  /** The first of the least distances, or -1 when none is below INT_MAX: what a full scan finds. */
  function Nearest(d: seq<int>): (p: int)
    ensures -1 <= p < |d|
    ensures p >= 0 ==> FirstLeast(d, p)
    ensures p == -1 ==> forall k | 0 <= k < |d| :: d[k] >= INT_MAX
  {
    if d == [] then -1
    else
      var n := |d| - 1;
      var q := Nearest(d[..n]);
      if d[n] < (if q == -1 then INT_MAX else d[q]) then n else q
  }

  /** How far a scan gets from i on, given the least distance so far, when it stops at an exact match that improves on it. */
  function LimitFrom(d: seq<int>, i: nat, best: int): (n: nat)
    requires i <= |d|
    ensures i <= n <= |d|
    decreases |d| - i
  {
    if i == |d| then i
    else if d[i] < best && d[i] == 0 then i + 1
    else LimitFrom(d, i + 1, if d[i] < best then d[i] else best)
  }

  function Limit(d: seq<int>): nat {
    LimitFrom(d, 0, INT_MAX)
  }

  // The scan only stops early right after a zero that follows positive distances.
  lemma {:induction false} LimitMeaning(d: seq<int>, i: nat, best: int)
    requires i <= |d|
    ensures var n := LimitFrom(d, i, best);
            n < |d| ==> best > 0 && n > i && d[n - 1] == 0 && forall k | i <= k < n - 1 :: d[k] > 0
    decreases |d| - i
  {
    if i < |d| && !(d[i] < best && d[i] == 0) {
      LimitMeaning(d, i + 1, if d[i] < best then d[i] else best);
    }
  }

  lemma NearestUnique(d: seq<int>, p: nat)
    requires FirstLeast(d, p)
    ensures Nearest(d) == p
  {
  }

  lemma AfterExactMatch(d: seq<int>, n: nat)
    requires 0 < n < |d| && d[n - 1] == 0 && forall k | 0 <= k < n - 1 :: d[k] > 0
    ensures Nearest(d[..n]) == n - 1
    ensures Nearest(d) == n - 1 <==> forall k | n <= k < |d| :: d[k] >= 0
  {
    hide Nearest;
    var e := d[..n];
    assert forall k | 0 <= k < n :: e[k] == d[k];
    assert FirstLeast(e, n - 1);
    NearestUnique(e, n - 1);
    if forall k | n <= k < |d| :: d[k] >= 0 {
      assert FirstLeast(d, n - 1);
      NearestUnique(d, n - 1);
    }
  }

  /** Stopping at an exact match finds what the full scan finds, except when a negative distance follows it. */
  lemma EarlyExitIsExact(d: seq<int>)
    ensures Nearest(d[..Limit(d)]) == Nearest(d) <==> forall k | Limit(d) <= k < |d| :: d[k] >= 0
  {
    LimitMeaning(d, 0, INT_MAX);
    var n := Limit(d);
    hide *;
    if n == |d| {
      assert d[..n] == d;
    } else {
      AfterExactMatch(d, n);
    }
  }

  lemma NearestNext(d: seq<int>, i: nat)
    requires i < |d|
    ensures var q := Nearest(d[..i]);
            Nearest(d[..i + 1]) == if d[i] < (if q == -1 then INT_MAX else d[q]) then i else q
  {
    assert d[..i + 1][..i] == d[..i];
  }

  /** In particular, it is exact for every comparator that returns no negative distance. */
  lemma EarlyExitForDistances(d: seq<int>)
    requires forall k | 0 <= k < |d| :: d[k] >= 0
    ensures Nearest(d[..Limit(d)]) == Nearest(d)
  {
    EarlyExitIsExact(d);
  }

  // ---------------------------------------------------------------------------
  // The bitmap
  // ---------------------------------------------------------------------------

  /** A 32-bit int, from a value that may have left its range. */
  function WrapInt(x: int): int {
    var r := x % 0x1_0000_0000;
    if r >= 0x8000_0000 then r - 0x1_0000_0000 else r
  }

  /** An int as an unsigned long of 64 bits. */
  function ToUnsignedLong(x: int): (r: int) {
    x % 0x1_0000_0000_0000_0000
  }

  /** 1 << n on an int, with the shift count taken modulo 32 as x86 does; ISO C leaves counts from 31 on undefined. */
  function ShiftedOne(n: nat): int {
    WrapInt(Pow2(n % 32))
  }

  /** The bitmap that create_phase_table makes for up to 64 phases. */
  function CreatedBitmap(max: nat): (r: int)
    requires max <= 64
  {
    if max == 64 then ToUnsignedLong(-1) else ToUnsignedLong(WrapInt(ShiftedOne(max) - 1))
  }

  lemma WrapsTo(x: int, q: int, r: int)
    requires x == q * 0x1_0000_0000 + r && -0x8000_0000 <= r < 0x8000_0000
    ensures WrapInt(x) == r
  {
    if r >= 0 {
      ModUnique(x, 0x1_0000_0000, q, r);
    } else {
      ModUnique(x, 0x1_0000_0000, q - 1, r + 0x1_0000_0000);
    }
  }

  lemma WidensTo(x: int)
    requires -0x1_0000_0000 <= x < 0x1_0000_0000
    ensures ToUnsignedLong(x) == if x < 0 then x + 0x1_0000_0000_0000_0000 else x
  {
    if x < 0 {
      ModUnique(x, 0x1_0000_0000_0000_0000, -1, x + 0x1_0000_0000_0000_0000);
    } else {
      ModUnique(x, 0x1_0000_0000_0000_0000, 0, x);
    }
  }

  lemma {:induction false} Pow2Monotone(a: nat, b: nat)
    requires a <= b
    ensures Pow2(a) <= Pow2(b)
  {
    if a < b {
      Pow2Monotone(a, b - 1);
    }
  }

  lemma SmallPowers()
    ensures Pow2(1) == 2 && Pow2(2) == 4 && Pow2(4) == 16
  {
  }

  lemma IntRange()
    ensures Pow2(30) == 0x4000_0000 && Pow2(31) == 0x8000_0000 && Pow2(64) == 0x1_0000_0000_0000_0000
  {
    hide Pow2;
    SmallPowers();
    Pow2Add(4, 4);
    Pow2Add(8, 8);
    Pow2Add(16, 8);
    Pow2Add(24, 4);
    Pow2Add(28, 2);
    Pow2Add(30, 1);
    Pow2Add(31, 1);
    Pow2Add(32, 32);
  }

  lemma MaskFromBottom(n: nat)
    ensures MaskOf(n, 0) == Pow2(n) - 1
  {
  }

  lemma SmallShift(max: nat, n: nat, p: int)
    requires max < 64 && n == max % 32 && p == Pow2(n) && 1 <= p <= 0x8000_0000
    requires p == 0x8000_0000 || p <= 0x4000_0000
    ensures CreatedBitmap(max) == p - 1
  {
    hide Pow2;
    if p == 0x8000_0000 {
      WrapsTo(p, 1, -0x8000_0000);
      WrapsTo(-0x8000_0000 - 1, -1, p - 1);
    } else {
      WrapsTo(p, 0, p);
      WrapsTo(p - 1, 0, p - 1);
    }
    hide WrapInt;
    WidensTo(p - 1);
  }

  /** How many nodes are marked free; a shift of an int counts modulo 32. */
  function NodesMade(max: nat): nat {
    if max == 64 then 64 else max % 32
  }

  lemma AllMade(max: nat)
    requires max <= 64
    ensures NodesMade(max) <= max
    ensures NodesMade(max) == max <==> max < 32 || max == 64
  {
  }

  lemma CreatedIsMask(max: nat)
    requires max <= 64
    ensures CreatedBitmap(max) == MaskOf(NodesMade(max), 0)
  {
    IntRange();
    if max == 64 {
      WidensTo(-1);
    } else {
      var n := max % 32;
      assert Pow2(0) == 1;
      Pow2Monotone(n, 31);
      if n < 31 {
        Pow2Monotone(n, 30);
      }
      hide *;
      SmallShift(max, n, Pow2(n));
      MaskFromBottom(n);
    }
  }

  /** The bitmap has the bits of these nodes and no others. */
  ghost predicate AllFree(bitmap: nat, nrNodes: nat) {
    forall i: nat :: Bit(bitmap, i) <==> i < nrNodes
  }

  /** Every node starts out free, and nothing else does, exactly up to 31 phases and for 64. */
  lemma BitmapIsRight(max: nat)
    requires max <= 64
    ensures CreatedBitmap(max) >= 0
    ensures AllFree(CreatedBitmap(max), max) <==> max < 32 || max == 64
  {
    hide NodesMade;
    hide CreatedBitmap;
    var n := NodesMade(max);
    CreatedIsMask(max);
    AllMade(max);
    hide Bit;
    hide MaskOf;
    var b: nat := CreatedBitmap(max);
    forall i: nat ensures Bit(b, i) <==> i < n {
      MaskBits(n, 0, i);
    }
    if n < max {
      assert !Bit(b, n);
      assert !AllFree(b, max);
    }
  }

  /** A table of 32 phases starts out with no free node at all. */
  lemma NoFreeNodeOf32()
    ensures CreatedBitmap(32) == 0
  {
    CreatedIsMask(32);
  }

  lemma OneShifted(n: nat, p: int)
    requires p == Pow2(n % 32)
    ensures p >= 1
    ensures n % 32 < 31 ==> p <= 0x4000_0000 && ShiftedOne(n) == p
    ensures n % 32 == 31 ==> ShiftedOne(n) == -0x8000_0000
  {
    IntRange();
    if n % 32 < 31 {
      Pow2Monotone(n % 32, 30);
      WrapsTo(p, 0, p);
    } else {
      WrapsTo(p, 1, -0x8000_0000);
    }
  }

  lemma PastAnInt(n: nat)
    requires 32 <= n < 64
    ensures 0x8000_0000 < Pow2(n) < 0xFFFF_FFFF_8000_0000
  {
    IntRange();
    Pow2Monotone(32, n);
    Pow2Monotone(n, 63);
    assert Pow2(32) == 2 * Pow2(31) && Pow2(64) == 2 * Pow2(63);
  }

  /** The operations read and clear the bit of a node with 1 << node, which is that bit exactly for the first 31 nodes. */
  lemma NodeMask(n: nat)
    requires n < 64
    ensures ToUnsignedLong(ShiftedOne(n)) == Pow2(n) <==> n < 31
  {
    hide Pow2;
    hide ShiftedOne;
    hide ToUnsignedLong;
    OneShifted(n, Pow2(n % 32));
    WidensTo(ShiftedOne(n));
    IntRange();
    if n >= 32 {
      PastAnInt(n);
    } else {
      ModWrap(n, 32);
    }
  }

  // ---------------------------------------------------------------------------
  // The table
  // ---------------------------------------------------------------------------

  // The first entry is already where promotion would put it.
  lemma FirstWithout(s: seq<nat>)
    requires NoDuplicates(s) && s != []
    ensures [s[0]] + Without(s, s[0]) == s
  {
    WithoutOther(s[1..], s[0]);
  }

  class Table<T(0)> {
    const maxPhases: nat
    const data: array<T>       // the phase of each node
    var phases: seq<nat>       // the list, as node indices, newest first
    var nrPhases: nat
    var bitmap: nat            // one bit per node, set when it is free

    ghost predicate Valid()
      reads this
    {
      && 0 < maxPhases == data.Length && maxPhases < 32
      && NoDuplicates(phases) && nrPhases == |phases|
      && (forall i <- phases :: i < maxPhases)
      && forall i: nat :: Bit(bitmap, i) <==> i < maxPhases && i !in phases
    }

    /** The part of create_phase_table that follows the test of the size; a table of up to 31 phases starts out as the operations need it. */
    constructor (max: nat)
      requires max <= 64
      ensures maxPhases == max && phases == [] && bitmap == CreatedBitmap(max) && fresh(data)
      ensures Valid() <==> 0 < max < 32
    {
      BitmapIsRight(max);
      maxPhases, phases, nrPhases, bitmap := max, [], 0, CreatedBitmap(max);
      data := new T[max];
    }

    ghost function Distances(key: T, compare: (T, T) -> int): (d: seq<int>)
      requires Valid()
      reads this, data
      ensures |d| == |phases|
    {
      seq(|phases|, k requires 0 <= k < |phases| && Valid() reads this, data =>
        assert phases[k] in phases; compare(data[phases[k]], key))
    }

    /** get_phase_from_table */
    method GetPhase(key: T, compare: (T, T) -> int) returns (found: bool, similarity: int, index: nat)
      requires Valid()
      ensures var d := Distances(key, compare);
              var p := Nearest(d[..Limit(d)]);
              && (found <==> p >= 0)
              && (found ==> similarity == d[p] && index == phases[p])
    {
      hide Nearest;
      ghost var d, at := Distances(key, compare), -1;
      assert Nearest(d[..0]) == -1;
      found, similarity, index := false, INT_MAX, 0;
      var i := 0;
      while i < |phases|
        invariant 0 <= i <= |phases| && at == Nearest(d[..i]) && (found <==> at >= 0)
        invariant found ==> similarity == d[at] && index == phases[at]
        invariant !found ==> similarity == INT_MAX
        invariant Limit(d) == LimitFrom(d, i, similarity)
      {
        assert phases[i] in phases;
        var simTest := compare(data[phases[i]], key);
        assert simTest == d[i];
        NearestNext(d, i);
        if simTest < similarity {
          similarity, index, found, at := simTest, phases[i], true, i;
          if simTest == 0 {
            return;
          }
        }
        i := i + 1;
      }
      assert d[..|d|] == d;
    }

    /** promote_table_entry */
    method Promote(index: int) returns (r: int)
      requires Valid()
      modifies this`phases
      ensures Valid()
      ensures r == if 0 <= index && index in old(phases) then 0 else -ENOENT
      ensures phases == if r == 0 then [index as nat] + Without(old(phases), index as nat) else old(phases)
    {
      if index < 0 || index >= maxPhases || Bit(bitmap, index) {
        return -ENOENT;
      }
      r := 0;
      WithoutKeeps<nat>(phases, index);
      if phases[0] != index {
        NoDuplicatesConcat<nat>([index], Without<nat>(phases, index));
        phases := [index] + Without<nat>(phases, index);
      } else {
        FirstWithout(phases);
      }
    }

    // get_free_phase_loc: the free node of least index, if there is one.
    method GetFreePhaseLoc() returns (found: bool, loc: nat)
      requires Valid()
      ensures found <==> |phases| < maxPhases
      ensures found ==> loc < maxPhases && loc !in phases && forall i: nat | i < loc :: i in phases
    {
      FullWhenNoneFree();
      if bitmap == 0 {
        return false, 0;
      }
      var i := 0;
      while i < maxPhases && !Bit(bitmap, i)
        invariant 0 <= i <= maxPhases && forall k: nat | k < i :: k in phases
      {
        i := i + 1;
      }
      if i == maxPhases {
        return false, 0;
      }
      return true, i;
    }

    lemma FullWhenNoneFree()
      requires Valid()
      ensures |phases| <= maxPhases
      ensures (|phases| == maxPhases) <==> (forall i: nat | i < maxPhases :: i in phases)
      ensures bitmap == 0 ==> |phases| == maxPhases
    {
      assert forall k | 0 <= k < |phases| :: phases[k] in phases;
      Pigeonhole(phases, maxPhases);
      if forall i: nat | i < maxPhases :: i in phases {
        assert Below(maxPhases) <= Elements(phases);
        SubsetSize(Below(maxPhases), Elements(phases));
        DistinctCount(phases);
      }
      if bitmap == 0 {
        forall i: nat | i < maxPhases ensures i in phases {
          ZeroHasNoBit(i);
        }
      }
    }

    /** insert_phase_in_table: into a free node put first in the list, or over the oldest phase. */
    method Insert(phase: T) returns (loc: nat)
      requires Valid()
      modifies this`phases, this`nrPhases, this`bitmap, data
      ensures Valid() && loc < maxPhases
      ensures data[..] == old(data[..])[loc := phase]
      ensures |old(phases)| < maxPhases ==>
                loc !in old(phases) && phases == [loc] + old(phases) && forall i: nat | i < loc :: i in old(phases)
      ensures |old(phases)| == maxPhases ==> phases == old(phases) && loc == phases[|phases| - 1]
    {
      FullWhenNoneFree();
      var found;
      found, loc := GetFreePhaseLoc();
      if !found {
        loc := phases[|phases| - 1];
        assert loc in phases;
      } else {
        forall i: nat ensures Bit(ClearBit(bitmap, loc), i) <==> i < maxPhases && i !in [loc] + phases {
          ClearBitBits(bitmap, loc, i);
        }
        bitmap := ClearBit(bitmap, loc);
        nrPhases := nrPhases + 1;
        phases := [loc] + phases;
      }
      data[loc] := phase;
    }
  }

  /** create_phase_table: no table for more phases than an unsigned long has bits. */
  method CreatePhaseTable<T(0)>(max: nat) returns (table: Table?<T>)
    ensures table == null <==> max > 64
    ensures table != null ==> fresh(table) && table.maxPhases == max && table.phases == [] && (table.Valid() <==> 0 < max < 32)
  {
    if max > 64 {
      return null;
    }
    table := new Table(max);
  }
}

/** Capacity bitmasks as numbers: runs of ones, and what their bits say. */
module Masks {

  function Pow2(n: nat): (p: nat)
    ensures p >= 1
  {
    if n == 0 then 1 else 2 * Pow2(n - 1)
  }

  /** Bit w of a mask. */
  predicate Bit(m: nat, w: nat) {
    if w == 0 then m % 2 == 1 else Bit(m / 2, w - 1)
  }

  /** determine_part_mask: nrWays ones, shifted up to lowWay. */
  function MaskOf(nrWays: nat, lowWay: nat): nat {
    (Pow2(nrWays) - 1) * Pow2(lowWay)
  }

  lemma HalfOf(m: int, h: int, odd: int)
    requires m == 2 * h + odd && 0 <= odd <= 1
    ensures m % 2 == odd && m / 2 == h
  {
  }

  lemma Halved(m: nat)
    ensures m == 2 * (m / 2) + m % 2 && 0 <= m % 2 <= 1
  {
  }

  lemma Doubled(a: int, b: int)
    ensures a * (2 * b) == 2 * (a * b)
  {
  }

  lemma MaskHalf(nrWays: nat, lowWay: nat)
    ensures lowWay > 0 ==> MaskOf(nrWays, lowWay) % 2 == 0 && MaskOf(nrWays, lowWay) / 2 == MaskOf(nrWays, lowWay - 1)
    ensures nrWays > 0 ==> MaskOf(nrWays, 0) % 2 == 1 && MaskOf(nrWays, 0) / 2 == MaskOf(nrWays - 1, 0)
  {
    if lowWay > 0 {
      Doubled(Pow2(nrWays) - 1, Pow2(lowWay - 1));
      HalfOf(MaskOf(nrWays, lowWay), MaskOf(nrWays, lowWay - 1), 0);
    }
    if nrWays > 0 {
      HalfOf(MaskOf(nrWays, 0), MaskOf(nrWays - 1, 0), 1);
    }
  }

  /** The bits set are exactly the ways from lowWay on. */
  lemma {:induction false} MaskBits(nrWays: nat, lowWay: nat, w: nat)
    ensures Bit(MaskOf(nrWays, lowWay), w) <==> lowWay <= w < lowWay + nrWays
    decreases lowWay, nrWays, w
  {
    MaskHalf(nrWays, lowWay);
    if lowWay > 0 {
      if w > 0 {
        MaskBits(nrWays, lowWay - 1, w - 1);
      }
    } else if nrWays > 0 {
      if w > 0 {
        MaskBits(nrWays - 1, 0, w - 1);
      }
    } else if w > 0 {
      MaskBits(0, 0, w - 1);
    }
  }

  // Two adjacent runs add up to one run.
  lemma MasksJoin(n: nat, m: nat, low: nat)
    ensures MaskOf(n, low) + MaskOf(m, low + n) == MaskOf(n + m, low)
  {
    Pow2Add(n, m);
    Pow2Add(low, n);
    Telescope(Pow2(n), Pow2(m), Pow2(low));
  }

  lemma Telescope(a: int, b: int, c: int)
    ensures (a - 1) * c + (b - 1) * (c * a) == (a * b - 1) * c
  {
    assert (b - 1) * (c * a) == b * (c * a) - c * a;
    assert b * (c * a) == (a * b) * c;
    assert (a - 1) * c == a * c - c;
  }

  lemma {:induction false} Pow2Add(a: nat, b: nat)
    ensures Pow2(a + b) == Pow2(a) * Pow2(b)
  {
    if b > 0 {
      Pow2Add(a, b - 1);
      Doubled(Pow2(a), Pow2(b - 1));
    }
  }

  /** The mask without bit i. */
  function ClearBit(m: nat, i: nat): nat {
    if i == 0 then m - m % 2 else 2 * ClearBit(m / 2, i - 1) + m % 2
  }

  lemma {:induction false} ClearBitBits(m: nat, i: nat, w: nat)
    ensures Bit(ClearBit(m, i), w) <==> Bit(m, w) && w != i
    decreases i, w
  {
    Halved(m);
    if i == 0 {
      HalfOf(ClearBit(m, i), m / 2, 0);
    } else {
      HalfOf(ClearBit(m, i), ClearBit(m / 2, i - 1), m % 2);
      if w > 0 {
        ClearBitBits(m / 2, i - 1, w - 1);
      }
    }
  }

  lemma {:induction false} ZeroHasNoBit(w: nat)
    ensures !Bit(0, w)
  {
    if w > 0 {
      ZeroHasNoBit(w - 1);
    }
  }

  lemma {:induction false} NonZeroHasBit(m: nat) returns (w: nat)
    requires m > 0
    ensures Bit(m, w)
  {
    if m % 2 == 1 {
      w := 0;
    } else {
      var v := NonZeroHasBit(m / 2);
      w := v + 1;
    }
  }

  /** The mask with bit i as well. */
  function WithBit(m: nat, i: nat): nat {
    if i == 0 then m - m % 2 + 1 else 2 * WithBit(m / 2, i - 1) + m % 2
  }

  lemma {:induction false} WithBitBits(m: nat, i: nat, w: nat)
    ensures Bit(WithBit(m, i), w) <==> Bit(m, w) || w == i
    decreases i, w
  {
    Halved(m);
    if i == 0 {
      HalfOf(WithBit(m, i), m / 2, 1);
    } else {
      HalfOf(WithBit(m, i), WithBit(m / 2, i - 1), m % 2);
      if w > 0 {
        WithBitBits(m / 2, i - 1, w - 1);
      }
    }
  }

  /** How many of the bits below n are set. */
  function Rank(m: nat, n: nat): (r: nat)
    ensures r <= n
  {
    if n == 0 then 0 else Rank(m, n - 1) + if Bit(m, n - 1) then 1 else 0
  }

  lemma {:induction false} RankMonotone(m: nat, i: nat, j: nat)
    requires i <= j
    ensures Rank(m, i) <= Rank(m, j)
    ensures i < j && Bit(m, i) ==> Rank(m, i) < Rank(m, j)
    decreases j
  {
    if i < j {
      RankMonotone(m, i, j - 1);
    }
  }
}

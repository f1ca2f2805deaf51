/**
 * Energy accounting over the RAPL status registers: do_read_energy_msrs and
 * __intel_rapl_get_energy_sample_thread.
 *
 * A register shows the low 32 bits of the energy its domain has consumed, and the
 * accumulators have 64 bits.  A ledger per domain keeps track of where the energy went.
 */
module Rapl {
  import opened Arithmetic
  import opened Masks

  const M32: nat := 0x1_0000_0000
  const M64: nat := 0x1_0000_0000_0000_0000
  const NR_DOMAINS: nat := 4
  const DRAM_DOMAIN: nat := 3

  /**
   * The energy of a domain up to the last reading, by what became of it: not measured
   * (readings that only set the reference), handed out in cleared samples, still in the
   * accumulator (not in the ledger), or lost to a wrap.  The sum of the samples handed
   * out is in microjoules; spilled is what the multiplication before the shift lost.
   */
  datatype Ledger = Ledger(last: nat, skipped: nat, covered: nat, lost: nat, reported: nat, spilled: nat, samples: nat)

  /** (acum * 1000000) >> units */
  function Microjoules(acum: nat, units: nat): (r: nat) {
    DivMod(acum * 1000000, M64);
    DivNonNegative(acum * 1000000 % M64, Pow2(units));
    (acum * 1000000 % M64) / Pow2(units)
  }

  /** The books of a domain whose register was last seen at cur. */
  ghost predicate Balanced(b: Ledger, cur: nat, acum: nat, units: nat) {
    && cur == b.last % M32 && acum < M64
    && b.skipped + b.covered + acum + b.lost == b.last
    && Priced(b, Pow2(units))
  }

  /** Each sample handed out falls short of its energy by less than one unit. */
  ghost predicate Priced(b: Ledger, unit: nat) {
    && b.reported * unit + b.spilled <= b.covered * 1000000
    && b.covered * 1000000 <= b.reported * unit + b.spilled + b.samples * (unit - 1)
  }

  ghost function Measured(b: Ledger, total: nat, acum: nat): (r: Ledger)
    requires b.last <= total && acum < M64
    ensures r.lost >= b.lost
    ensures r.lost == b.lost <==> total - b.last < M32 && acum + (total - b.last) < M64
  {
    DeltaIsInterval(b.last, total, M32);
    DivMod(total - b.last, M32);
    QuotientBounds(total - b.last, M32);
    DivMod(acum + Delta(b.last % M32, total % M32, M32), M64);
    ModWrap(acum + Delta(b.last % M32, total % M32, M32), M64);
    var now := (acum + Delta(b.last % M32, total % M32, M32)) % M64;
    b.(last := total, lost := b.lost + (total - b.last) + acum - now)
  }

  ghost function Skipped(b: Ledger, total: nat): (r: Ledger)
    requires b.last <= total
  {
    b.(last := total, skipped := b.skipped + (total - b.last))
  }

  ghost function HandedOut(b: Ledger, acum: nat, units: nat): (r: Ledger) {
    DivMod(acum * 1000000, M64);
    b.(covered := b.covered + acum,
       reported := b.reported + Microjoules(acum, units),
       spilled := b.spilled + acum * 1000000 - acum * 1000000 % M64,
       samples := b.samples + 1)
  }

  lemma MeasuredBalanced(b: Ledger, cur: nat, acum: nat, units: nat, total: nat)
    requires Balanced(b, cur, acum, units) && b.last <= total
    ensures Balanced(Measured(b, total, acum), total % M32, (acum + Delta(cur, total % M32, M32)) % M64, units)
  {
    hide Priced;
    DivMod(acum + Delta(cur, total % M32, M32), M64);
    PricedSame(b, Measured(b, total, acum), Pow2(units));
  }

  lemma SkippedBalanced(b: Ledger, cur: nat, acum: nat, units: nat, total: nat)
    requires Balanced(b, cur, acum, units) && b.last <= total
    ensures Balanced(Skipped(b, total), total % M32, acum, units)
  {
    hide Priced;
    PricedSame(b, Skipped(b, total), Pow2(units));
  }

  lemma PricedSame(b: Ledger, c: Ledger, unit: nat)
    requires Priced(b, unit)
    requires c.reported == b.reported && c.spilled == b.spilled && c.covered == b.covered && c.samples == b.samples
    ensures Priced(c, unit)
  {
  }

  lemma HandedOutBalanced(b: Ledger, cur: nat, acum: nat, units: nat)
    requires Balanced(b, cur, acum, units)
    ensures Balanced(HandedOut(b, acum, units), cur, 0, units)
    ensures HandedOut(b, acum, units).spilled == b.spilled <==> acum * 1000000 < M64
  {
    hide Priced;
    hide Microjoules;
    hide Pow2;
    DivMod(acum * 1000000, M64);
    ModWrap(acum * 1000000, M64);
    OneSample(acum, units);
    PricedMore(b, HandedOut(b, acum, units), Microjoules(acum, units), Pow2(units));
  }

  /** One sample falls short of what is left of the product by less than a unit. */
  lemma OneSample(acum: nat, units: nat)
    ensures Microjoules(acum, units) * Pow2(units) <= acum * 1000000 % M64
    ensures acum * 1000000 % M64 <= Microjoules(acum, units) * Pow2(units) + (Pow2(units) - 1)
  {
    hide Pow2;
    DivMod(acum * 1000000, M64);
    DivMod(acum * 1000000 % M64, Pow2(units));
  }

  lemma PricedMore(b: Ledger, c: Ledger, uj: nat, unit: nat)
    requires Priced(b, unit) && unit > 0
    requires c.reported == b.reported + uj && c.samples == b.samples + 1
    requires b.spilled <= c.spilled && b.covered <= c.covered
    requires var rest := (c.covered - b.covered) * 1000000 - (c.spilled - b.spilled);
             uj * unit <= rest <= uj * unit + (unit - 1)
    ensures Priced(c, unit)
  {
    MulSub(c.reported, b.reported, unit);
    MulSub(c.samples, b.samples, unit - 1);
  }

  /**
   * Over any run, the samples handed out add up to the conversion of the energy they cover,
   * short of it by less than one microjoule for each of them.
   */
  lemma Shortfall(b: Ledger, cur: nat, acum: nat, units: nat)
    requires Balanced(b, cur, acum, units) && b.spilled == 0
    ensures 0 <= b.covered * 1000000 / Pow2(units) - b.reported
    ensures b.covered * 1000000 / Pow2(units) - b.reported <= if b.samples == 0 then 0 else b.samples - 1
  {
    var p := b.covered * 1000000;
    QuotientBounds(p, Pow2(units));
    QuotientBetween(p, Pow2(units), b.reported, b.samples, p / Pow2(units));
  }

  lemma QuotientBetween(p: nat, unit: nat, q: nat, n: nat, r: int)
    requires unit > 0
    requires q * unit <= p <= q * unit + n * (unit - 1)
    requires r * unit <= p < (r + 1) * unit
    ensures q <= r <= if n == 0 then q else q + n - 1
  {
    if r < q {
      MulMonotone(r + 1, q, unit);
    }
    if n == 0 && r > q {
      MulMonotone(q + 1, r, unit);
      MulSub(q + 1, q, unit);
    }
    if n > 0 && r >= q + n {
      MulMonotone(q + n, r, unit);
      MulSub(q + n, q, unit);
      MulSub(unit, 1, n);
    }
  }

  /** intel_rapl_control_t, with the scaling that the probe of the processor found. */
  class Control {
    const available: nat            // available_power_domains_mask
    const energyUnits: nat
    const dramEnergyUnits: nat
    const curDomainValue: array<nat>
    const acumPowerDomain: array<nat>
    ghost var books: seq<Ledger>

    ghost predicate Valid()
      reads this, curDomainValue, acumPowerDomain
    {
      && curDomainValue.Length == acumPowerDomain.Length == |books| == NR_DOMAINS
      && curDomainValue != acumPowerDomain
      && forall i: nat | i < NR_DOMAINS :: Balanced(books[i], curDomainValue[i], acumPowerDomain[i], Units(i))
    }

    function Units(domain: nat): nat {
      if domain == DRAM_DOMAIN then dramEnergyUnits else energyUnits
    }

    /** intel_rapl_control_init: the energy consumed before the first reading counts from zero. */
    constructor (available: nat, energyUnits: nat, dramEnergyUnits: nat)
      ensures Valid() && fresh(curDomainValue) && fresh(acumPowerDomain)
      ensures this.available == available && this.energyUnits == energyUnits && this.dramEnergyUnits == dramEnergyUnits
      ensures forall i: nat | i < NR_DOMAINS :: books[i] == Ledger(0, 0, 0, 0, 0, 0, 0)
    {
      this.available, this.energyUnits, this.dramEnergyUnits := available, energyUnits, dramEnergyUnits;
      curDomainValue, acumPowerDomain := new nat[NR_DOMAINS](_ => 0), new nat[NR_DOMAINS](_ => 0);
      books := seq(NR_DOMAINS, _ => Ledger(0, 0, 0, 0, 0, 0, 0));
    }

    /** The registers of the available domains show what has been consumed in all, modulo 2^32. */
    ghost predicate Showing(registers: seq<nat>, totals: seq<nat>)
      reads this
    {
      && |registers| == |totals| == |books| == NR_DOMAINS
      && forall i: nat | i < NR_DOMAINS && Bit(available, i) :: books[i].last <= totals[i] && registers[i] == totals[i] % M32
    }

    /** do_read_energy_msrs, where each register is read once. */
    method ReadEnergyMsrs(registers: seq<nat>, acum: bool, ghost totals: seq<nat>)
      requires Valid() && Showing(registers, totals)
      modifies this`books, curDomainValue, acumPowerDomain
      ensures Valid() && |old(books)| == NR_DOMAINS
      ensures forall i: nat | i < NR_DOMAINS :: books[i] ==
                if !Bit(available, i) then old(books[i])
                else if acum then Measured(old(books[i]), totals[i], old(acumPowerDomain[i]))
                else Skipped(old(books[i]), totals[i])
    {
      hide Valid;
      hide Measured;
      hide Skipped;
      hide Bit;
      InBounds();
      for i := 0 to NR_DOMAINS
        invariant Valid() && |books| == NR_DOMAINS
        invariant forall k: nat | i <= k < NR_DOMAINS :: books[k] == old(books[k]) && acumPowerDomain[k] == old(acumPowerDomain[k])
        invariant forall k: nat | k < i :: books[k] ==
                    if !Bit(available, k) then old(books[k])
                    else if acum then Measured(old(books[k]), totals[k], old(acumPowerDomain[k]))
                    else Skipped(old(books[k]), totals[k])
      {
        if Bit(available, i) {
          ReadDomain(i, registers[i], acum, totals[i]);
        }
      }
    }

    lemma InBounds()
      requires Valid()
      ensures curDomainValue.Length == acumPowerDomain.Length == |books| == NR_DOMAINS && curDomainValue != acumPowerDomain
      ensures forall k: nat | k < NR_DOMAINS :: acumPowerDomain[k] < M64
    {
    }

    // What the loops of do_read_energy_msrs do for one domain.
    method ReadDomain(i: nat, register: nat, acum: bool, ghost total: nat)
      requires Valid() && i < NR_DOMAINS && books[i].last <= total && register == total % M32
      modifies this`books, curDomainValue, acumPowerDomain
      ensures Valid() && |old(books)| == NR_DOMAINS
      ensures books == old(books)[i := if acum then Measured(old(books[i]), total, old(acumPowerDomain[i])) else Skipped(old(books[i]), total)]
      ensures forall k: nat | k < NR_DOMAINS && k != i :: acumPowerDomain[k] == old(acumPowerDomain[k])
    {
      hide Balanced;
      hide Measured;
      hide Skipped;
      var oldValue := curDomainValue[i];
      if acum {
        MeasuredBalanced(books[i], oldValue, acumPowerDomain[i], Units(i), total);
        CurInRange(i);
        books := books[i := Measured(books[i], total, acumPowerDomain[i])];
        curDomainValue[i] := register;
        acumPowerDomain[i] := (acumPowerDomain[i] + Delta(oldValue, register, M32)) % M64;
      } else {
        SkippedBalanced(books[i], oldValue, acumPowerDomain[i], Units(i), total);
        books := books[i := Skipped(books[i], total)];
        curDomainValue[i] := register;
      }
    }

    lemma CurInRange(i: nat)
      requires Valid() && i < NR_DOMAINS
      ensures curDomainValue[i] < M32 && acumPowerDomain[i] < M64
    {
      DivMod(books[i].last, M32);
    }

    /** __intel_rapl_get_energy_sample_thread: the entries of domains that are not available are left alone. */
    method GetEnergySample(sample: array<nat>, clearAcum: bool)
      requires Valid() && sample.Length == NR_DOMAINS && sample != curDomainValue && sample != acumPowerDomain
      modifies this`books, acumPowerDomain, sample
      ensures Valid() && |old(books)| == NR_DOMAINS
      ensures forall i: nat | i < NR_DOMAINS ::
                sample[i] == if Bit(available, i)
                             then Microjoules(old(acumPowerDomain[i]), if i == DRAM_DOMAIN then dramEnergyUnits else energyUnits)
                             else old(sample[i])
      ensures forall i: nat | i < NR_DOMAINS ::
                books[i] == if clearAcum then HandedOut(old(books[i]), old(acumPowerDomain[i]), Units(i)) else old(books[i])
    {
      UnitsAre();
      hide *;
      InBounds();
      for i := 0 to NR_DOMAINS
        invariant Valid() && |books| == NR_DOMAINS
        invariant forall k: nat | i <= k < NR_DOMAINS ::
                    books[k] == old(books[k]) && acumPowerDomain[k] == old(acumPowerDomain[k]) && sample[k] == old(sample[k])
        invariant forall k: nat | k < i ::
                    sample[k] == if Bit(available, k) then Microjoules(old(acumPowerDomain[k]), Units(k)) else old(sample[k])
        invariant forall k: nat | k < i ::
                    books[k] == if clearAcum then HandedOut(old(books[k]), old(acumPowerDomain[k]), Units(k)) else old(books[k])
      {
        if Bit(available, i) {
          sample[i] := Microjoules(acumPowerDomain[i], Units(i));
        }
        if clearAcum {
          Clear(i);
        }
      }
    }

    lemma UnitsAre()
      ensures forall i: nat :: Units(i) == if i == DRAM_DOMAIN then dramEnergyUnits else energyUnits
    {
    }

    method Clear(i: nat)
      requires Valid() && i < NR_DOMAINS
      modifies this`books, acumPowerDomain
      ensures Valid() && |old(books)| == NR_DOMAINS
      ensures books == old(books)[i := HandedOut(old(books[i]), old(acumPowerDomain[i]), Units(i))]
      ensures forall k: nat | k < NR_DOMAINS && k != i :: acumPowerDomain[k] == old(acumPowerDomain[k])
    {
      hide Balanced;
      hide HandedOut;
      HandedOutBalanced(books[i], curDomainValue[i], acumPowerDomain[i], Units(i));
      books := books[i := HandedOut(books[i], acumPowerDomain[i], Units(i))];
      acumPowerDomain[i] := 0;
    }
  }
}
